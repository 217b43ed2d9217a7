/** Two end-to-end runs of the engine, written as clients that see only the
    contracts of the store's operations. */
module Scenarios {
  import opened Types
  import opened FriendshipRequests
  import opened FriendGraph
  import opened FollowGraph
  import opened Relationships

  /** a asks b with the message "hi", b views the request and accepts it. */
  method FriendshipScenario(a: UserId, b: UserId, t0: Time, t1: Time, t2: Time)
    returns (unreadBefore: seq<FriendshipRequest>, unreadAfter: seq<FriendshipRequest>,
             readAfter: seq<FriendshipRequest>, friendsOfA: seq<UserId>, friendsOfB: seq<UserId>,
             leftOver: seq<FriendshipRequest>)
    requires a != b
    ensures |unreadBefore| == 1 && unreadBefore[0].fromUser == a && unreadBefore[0].message == "hi"
    ensures unreadAfter == [] && |readAfter| == 1 && readAfter[0].fromUser == a
    ensures friendsOfA == [b] && friendsOfB == [a]
    ensures leftOver == []
  {
    var store := new RelationshipStore();
    var r := store.AddFriend(a, b, Some("hi"), t0);
    var request := r.value;
    assert store.requests == [request];
    unreadBefore := UnreadRequests(store.requests, b);
    assert store.requests[1..] == [];

    var _ := store.MarkViewed(a, b, t1);
    var viewed := request.(viewed := Some(t1));
    assert store.requests == [viewed];
    assert store.requests[1..] == [];
    unreadAfter := UnreadRequests(store.requests, b);
    readAfter := ReadRequests(store.requests, b);

    var accepted := store.Accept(a, b, t2);
    friendsOfA := Friends(store.friends, a);
    friendsOfB := Friends(store.friends, b);
    leftOver := store.requests;
  }

  /** a follows b, then stops following b. */
  method FollowScenario(a: UserId, b: UserId, now: Time)
    returns (followersOfB: seq<UserId>, followingOfA: seq<UserId>, forward: bool, backward: bool,
             followersAfter: seq<UserId>, followingAfter: seq<UserId>)
    requires a != b
    ensures followersOfB == [a] && followingOfA == [b]
    ensures forward && !backward
    ensures followersAfter == [] && followingAfter == []
  {
    var store := new RelationshipStore();
    var r := store.AddFollower(a, b, now);
    followersOfB := Followers(store.follows, b);
    followingOfA := Following(store.follows, a);
    forward := Follows(store.follows, a, b);
    backward := Follows(store.follows, b, a);

    var existed := store.RemoveFollower(a, b);
    followersAfter := Followers(store.follows, b);
    followingAfter := Following(store.follows, a);
  }
}
