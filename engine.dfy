/** The relationship store: the three tables the social graph lives in, and the
    operations of UserDetail/models.py that change them. Each operation is one
    atomic step; a failed operation leaves every table as it was. */
module Relationships {
  import opened Types
  import opened FriendshipRequests
  import opened FriendGraph
  import opened FollowGraph

  /** add_friend stores `message`, or "" when none is given: the stored text is
      empty exactly when no message or an empty one was passed. */
  function MessageOrEmpty(message: Option<string>): (m: string)
    ensures m == "" <==> message.None? || message.value == ""
    ensures m != "" ==> message == Some(m)
  {
    if message.None? then "" else message.value
  }

  class RelationshipStore {
    var requests: seq<FriendshipRequest>
    var friends: seq<FriendEdge>
    var follows: seq<FollowEdge>

    /** The store constraints: unique pairs in all three tables, no self-relations,
        and every Friend row mirrored. */
    ghost function Valid(): (b: bool)
      reads this
      ensures b ==> forall u :: !HasRequest(requests, u, u) && u !in Friends(friends, u) && !Follows(follows, u, u)
      ensures b ==> forall u, v :: AreFriends(friends, u, v) ==> AreFriends(friends, v, u)
    {
      RequestTableValid(requests) && FriendTableValid(friends) && FollowTableValid(follows)
    }

    constructor ()
      ensures Valid()
      ensures requests == [] && friends == [] && follows == []
    {
      requests, friends, follows := [], [], [];
    }

    // -------------------------------------------------------------------------
    // Request lifecycle

    /** add_friend(fromUser, toUser, message): create a pending request. */
    method AddFriend(fromUser: UserId, toUser: UserId, message: Option<string>, now: Time)
      returns (r: Result<FriendshipRequest>)
      requires Valid()
      modifies this
      ensures Valid()
      ensures friends == old(friends) && follows == old(follows)
      ensures fromUser == toUser ==> r == Err(SelfRelation)
      ensures fromUser != toUser && AreFriends(old(friends), fromUser, toUser) ==> r == Err(AlreadyFriends)
      ensures (fromUser != toUser && !AreFriends(old(friends), fromUser, toUser) &&
               HasRequest(old(requests), fromUser, toUser)) ==> r == Err(DuplicateRequest)
      ensures r.Ok? <==> (fromUser != toUser && !AreFriends(old(friends), fromUser, toUser) &&
                          !HasRequest(old(requests), fromUser, toUser))
      ensures r.Err? ==> requests == old(requests)
      ensures r.Ok? ==>
        && r.value == FriendshipRequest(fromUser, toUser, MessageOrEmpty(message), now, None, None)
        && requests == old(requests) + [r.value]
        && r.value in UnreadRequests(requests, toUser)
        && r.value in SentRequests(requests, fromUser)
    {
      if fromUser == toUser {
        return Err(SelfRelation);
      }
      if AreFriends(friends, fromUser, toUser) {
        return Err(AlreadyFriends);
      }
      if HasRequest(requests, fromUser, toUser) {
        return Err(DuplicateRequest);
      }
      var request := FriendshipRequest(fromUser, toUser, MessageOrEmpty(message), now, None, None);
      AppendRequestValid(requests, request);
      requests := requests + [request];
      r := Ok(request);
    }

    /** accept: save the mirrored Friend rows, then delete the request and any
        reverse request. The first save fails when the row fromUser -> toUser
        is already stored, and then nothing changes; in a valid store the
        second save cannot fail. */
    method Accept(fromUser: UserId, toUser: UserId, now: Time) returns (r: Result<bool>)
      requires Valid()
      requires HasRequest(requests, fromUser, toUser)
      modifies this
      ensures Valid()
      ensures follows == old(follows)
      ensures HasFriendRow(old(friends), fromUser, toUser) ==>
        r == Err(AlreadyFriends) && friends == old(friends) && requests == old(requests)
      ensures !HasFriendRow(old(friends), fromUser, toUser) ==>
        && r == Ok(true)
        && friends == old(friends) + [FriendEdge(fromUser, toUser, now), FriendEdge(toUser, fromUser, now)]
        && requests == DropRequest(DropRequest(old(requests), fromUser, toUser), toUser, fromUser)
      ensures r.Ok? ==>
        && AreFriends(friends, fromUser, toUser) && AreFriends(friends, toUser, fromUser)
        && Friends(friends, toUser) == Friends(old(friends), toUser) + [fromUser]
        && Friends(friends, fromUser) == Friends(old(friends), fromUser) + [toUser]
        && !HasRequest(requests, fromUser, toUser) && !HasRequest(requests, toUser, fromUser)
        && (forall x :: !Between(x, fromUser, toUser) && !Between(x, toUser, fromUser) ==>
              (x in requests <==> x in old(requests)))
    {
      ghost var x :| x in requests && Between(x, fromUser, toUser);
      assert fromUser != toUser;
      var first := SaveFriendRow(friends, FriendEdge(fromUser, toUser, now));
      if first.Err? {
        return Err(first.error);
      }
      AcceptSaves(friends, fromUser, toUser, now);
      AddFriendPairValid(friends, fromUser, toUser, now);
      DropRequestBothWays(requests, fromUser, toUser);
      var second := SaveFriendRow(first.value, FriendEdge(toUser, fromUser, now));
      friends := second.value;
      requests := DropRequest(DropRequest(requests, fromUser, toUser), toUser, fromUser);
      r := Ok(true);
    }

    /** reject: stamp `rejected` and keep the request. */
    method Reject(fromUser: UserId, toUser: UserId, now: Time)
      requires Valid()
      requires HasRequest(requests, fromUser, toUser)
      modifies this
      ensures Valid()
      ensures friends == old(friends) && follows == old(follows)
      ensures requests == StampRequest(old(requests), fromUser, toUser, RejectedAt, now)
      ensures exists x :: x in RejectedRequests(requests, toUser) && Between(x, fromUser, toUser) && x.rejected == Some(now)
      ensures forall x :: x in UnrejectedRequests(requests, toUser) ==> !Between(x, fromUser, toUser)
    {
      StampRequestValid(requests, fromUser, toUser, RejectedAt, now);
      RejectEffect(requests, fromUser, toUser, now);
      requests := StampRequest(requests, fromUser, toUser, RejectedAt, now);
    }

    /** cancel: delete the request; always reports success. */
    method Cancel(fromUser: UserId, toUser: UserId) returns (ok: bool)
      requires Valid()
      modifies this
      ensures Valid()
      ensures ok
      ensures friends == old(friends) && follows == old(follows)
      ensures requests == DropRequest(old(requests), fromUser, toUser)
      ensures HasRequest(old(requests), fromUser, toUser) ==> |requests| == |old(requests)| - 1
      ensures !HasRequest(requests, fromUser, toUser)
    {
      DropRequestValid(requests, fromUser, toUser);
      if HasRequest(requests, fromUser, toUser) {
        DropRequestRemovesOne(requests, fromUser, toUser);
      }
      requests := DropRequest(requests, fromUser, toUser);
      ok := true;
    }

    /** mark_viewed: stamp `viewed` with the current time on every call. */
    method MarkViewed(fromUser: UserId, toUser: UserId, now: Time) returns (ok: bool)
      requires Valid()
      requires HasRequest(requests, fromUser, toUser)
      modifies this
      ensures Valid()
      ensures ok
      ensures friends == old(friends) && follows == old(follows)
      ensures requests == StampRequest(old(requests), fromUser, toUser, ViewedAt, now)
      ensures exists x :: x in ReadRequests(requests, toUser) && Between(x, fromUser, toUser) && x.viewed == Some(now)
      ensures forall x :: x in UnreadRequests(requests, toUser) ==> !Between(x, fromUser, toUser)
    {
      StampRequestValid(requests, fromUser, toUser, ViewedAt, now);
      ViewedEffect(requests, fromUser, toUser, now);
      requests := StampRequest(requests, fromUser, toUser, ViewedAt, now);
      ok := true;
    }

    // -------------------------------------------------------------------------
    // Friend rows

    /** remove_friend(a, b): delete every row joining a and b; report whether any existed. */
    method RemoveFriend(a: UserId, b: UserId) returns (removed: bool)
      requires Valid()
      modifies this
      ensures Valid()
      ensures requests == old(requests) && follows == old(follows)
      ensures removed == (HasFriendRow(old(friends), a, b) || HasFriendRow(old(friends), b, a))
      ensures friends == DropFriendPair(old(friends), a, b)
      ensures removed ==> |friends| == |old(friends)| - 2
      ensures !AreFriends(friends, a, b) && !AreFriends(friends, b, a)
    {
      DropFriendPairValid(friends, a, b);
      if HasFriendRow(friends, a, b) || HasFriendRow(friends, b, a) {
        AreFriendsSymmetric(friends, a, b);
        FriendshipIsTwoRows(friends, a, b);
        friends := DropFriendPair(friends, a, b);
        removed := true;
      } else {
        DropAbsentFriendPair(friends, a, b);
        removed := false;
      }
    }

    // -------------------------------------------------------------------------
    // Follow rows

    /** add_follower(follower, followee): refuse a self-follow, then
        get_or_create the edge, refusing it when it already exists. */
    method AddFollower(follower: UserId, followee: UserId, now: Time) returns (r: Result<FollowEdge>)
      requires Valid()
      modifies this
      ensures Valid()
      ensures requests == old(requests) && friends == old(friends)
      ensures follower == followee ==> r == Err(SelfRelation)
      ensures follower != followee && Follows(old(follows), follower, followee) ==> r == Err(DuplicateFollow)
      ensures r.Ok? <==> follower != followee && !Follows(old(follows), follower, followee)
      ensures r.Err? ==> follows == old(follows)
      ensures r.Ok? ==>
        && r.value == FollowEdge(follower, followee, now)
        && follows == old(follows) + [r.value]
        && Follows(follows, follower, followee)
        && Followers(follows, followee) == Followers(old(follows), followee) + [follower]
        && Following(follows, follower) == Following(old(follows), follower) + [followee]
        && Follows(follows, followee, follower) == Follows(old(follows), followee, follower)
    {
      if follower == followee {
        return Err(SelfRelation);
      }
      var edge := FollowEdge(follower, followee, now);
      var saved := SaveFollowRow(follows, edge);
      if saved.Err? {
        return Err(saved.error);
      }
      AppendFollowValid(follows, edge);
      follows := saved.value;
      r := Ok(edge);
    }

    /** remove_follower(follower, followee): delete the edge; report whether it existed. */
    method RemoveFollower(follower: UserId, followee: UserId) returns (existed: bool)
      requires Valid()
      modifies this
      ensures Valid()
      ensures requests == old(requests) && friends == old(friends)
      ensures existed == Follows(old(follows), follower, followee)
      ensures follows == DropFollowRow(old(follows), follower, followee)
      ensures existed ==> |follows| == |old(follows)| - 1
      ensures !Follows(follows, follower, followee)
    {
      DropFollowRowValid(follows, follower, followee);
      if HasFollowRow(follows, follower, followee) {
        DropFollowRowRemovesOne(follows, follower, followee);
        follows := DropFollowRow(follows, follower, followee);
        existed := true;
      } else {
        DropAbsentFollowRow(follows, follower, followee);
        existed := false;
      }
    }
  }
}
