/** The FriendshipRequest table: its rows, the store constraints on it, the
    filtered projections FriendshipManager offers over it, and the table
    transitions the request lifecycle performs (delete a pair, stamp a row). */
module FriendshipRequests {
  import opened Types

  /** One stored friendship request; `rejected` and `viewed` are nullable stamps. */
  datatype FriendshipRequest = FriendshipRequest(
    fromUser: UserId,
    toUser: UserId,
    message: string,
    created: Time,
    rejected: Option<Time>,
    viewed: Option<Time>)

  /** Is `r` the request of the ordered pair (fromUser, toUser)? */
  predicate Between(r: FriendshipRequest, fromUser: UserId, toUser: UserId) {
    r.fromUser == fromUser && r.toUser == toUser
  }

  /** Does the table hold a request of the ordered pair? */
  predicate HasRequest(reqs: seq<FriendshipRequest>, fromUser: UserId, toUser: UserId) {
    exists r :: r in reqs && Between(r, fromUser, toUser)
  }

  /** unique_together (from_user, to_user): no row's pair recurs later in the
      table, that is, no two rows share an ordered pair. */
  ghost function UniqueRequests(reqs: seq<FriendshipRequest>): (b: bool)
    ensures b <==> forall i, j :: 0 <= i < j < |reqs| ==> !Between(reqs[j], reqs[i].fromUser, reqs[i].toUser)
  {
    reqs == [] ||
    (!HasRequest(reqs[1..], reqs[0].fromUser, reqs[0].toUser) && UniqueRequests(reqs[1..]))
  }

  /** add_friend never creates a request from a user to themselves: no user has
      a request pending with themselves. */
  ghost function NoSelfRequests(reqs: seq<FriendshipRequest>): (b: bool)
    ensures b <==> forall u :: !HasRequest(reqs, u, u)
  {
    var ok := forall r :: r in reqs ==> r.fromUser != r.toUser;
    assert !ok ==> exists r :: r in reqs && r.fromUser == r.toUser && HasRequest(reqs, r.fromUser, r.fromUser);
    ok
  }

  ghost predicate RequestTableValid(reqs: seq<FriendshipRequest>) {
    UniqueRequests(reqs) && NoSelfRequests(reqs)
  }

  // ---------------------------------------------------------------------------
  // Queries

  /** The `filter(...)` criteria of FriendshipManager's request queries. */
  datatype RequestFilter = Received | Sent | Unread | Read | Rejected | Unrejected

  predicate Selects(filter: RequestFilter, user: UserId, r: FriendshipRequest) {
    match filter
    case Received => r.toUser == user
    case Sent => r.fromUser == user
    case Unread => r.toUser == user && r.viewed.None?
    case Read => r.toUser == user && r.viewed.Some?
    case Rejected => r.toUser == user && r.rejected.Some?
    case Unrejected => r.toUser == user && r.rejected.None?
  }

  /** The rows a query selects, in table order. */
  function Query(reqs: seq<FriendshipRequest>, filter: RequestFilter, user: UserId): (r: seq<FriendshipRequest>)
    ensures forall x :: x in r <==> x in reqs && Selects(filter, user, x)
    ensures |r| <= |reqs|
  {
    if reqs == [] then []
    else if Selects(filter, user, reqs[0]) then [reqs[0]] + Query(reqs[1..], filter, user)
    else Query(reqs[1..], filter, user)
  }

  /** A query keeps table order: it distributes over concatenation of tables. */
  lemma {:induction false} QueryAppend(a: seq<FriendshipRequest>, b: seq<FriendshipRequest>, filter: RequestFilter, user: UserId)
    ensures Query(a + b, filter, user) == Query(a, filter, user) + Query(b, filter, user)
  {
    if a == [] {
      assert a + b == b;
    } else {
      assert (a + b)[0] == a[0];
      assert (a + b)[1..] == a[1..] + b;
      QueryAppend(a[1..], b, filter, user);
    }
  }

  /** The `.count()` of a query, computed without building the list. */
  function QueryCount(reqs: seq<FriendshipRequest>, filter: RequestFilter, user: UserId): (n: nat)
    ensures n == |Query(reqs, filter, user)|
  {
    if reqs == [] then 0
    else (if Selects(filter, user, reqs[0]) then 1 else 0) + QueryCount(reqs[1..], filter, user)
  }

  /** requests(user): every request received by `user`. */
  function Requests(reqs: seq<FriendshipRequest>, user: UserId): (r: seq<FriendshipRequest>)
    ensures forall x :: x in r <==> x in reqs && x.toUser == user
  {
    Query(reqs, Received, user)
  }

  /** sent_requests(user): every request sent by `user`. */
  function SentRequests(reqs: seq<FriendshipRequest>, user: UserId): (r: seq<FriendshipRequest>)
    ensures forall x :: x in r <==> x in reqs && x.fromUser == user
  {
    Query(reqs, Sent, user)
  }

  /** unread_requests(user): received requests never viewed. */
  function UnreadRequests(reqs: seq<FriendshipRequest>, user: UserId): (r: seq<FriendshipRequest>)
    ensures forall x :: x in r <==> x in reqs && x.toUser == user && x.viewed == None
  {
    Query(reqs, Unread, user)
  }

  /** unread_request_count(user) agrees with the unread list. */
  function UnreadRequestCount(reqs: seq<FriendshipRequest>, user: UserId): (n: nat)
    ensures n == |UnreadRequests(reqs, user)|
  {
    QueryCount(reqs, Unread, user)
  }

  /** read_requests(user): received requests that have been viewed. */
  function ReadRequests(reqs: seq<FriendshipRequest>, user: UserId): (r: seq<FriendshipRequest>)
    ensures forall x :: x in r <==> x in reqs && x.toUser == user && x.viewed != None
  {
    Query(reqs, Read, user)
  }

  /** rejected_requests(user): received requests that have been rejected. */
  function RejectedRequests(reqs: seq<FriendshipRequest>, user: UserId): (r: seq<FriendshipRequest>)
    ensures forall x :: x in r <==> x in reqs && x.toUser == user && x.rejected != None
  {
    Query(reqs, Rejected, user)
  }

  /** unrejected_requests(user): received requests not rejected. */
  function UnrejectedRequests(reqs: seq<FriendshipRequest>, user: UserId): (r: seq<FriendshipRequest>)
    ensures forall x :: x in r <==> x in reqs && x.toUser == user && x.rejected == None
  {
    Query(reqs, Unrejected, user)
  }

  /** unrejected_request_count(user) agrees with the unrejected list. */
  function UnrejectedRequestCount(reqs: seq<FriendshipRequest>, user: UserId): (n: nat)
    ensures n == |UnrejectedRequests(reqs, user)|
  {
    QueryCount(reqs, Unrejected, user)
  }

  /** The two ways to split a user's received requests. */
  predicate Complementary(part: RequestFilter, rest: RequestFilter) {
    (part == Unread && rest == Read) || (part == Unrejected && rest == Rejected)
  }

  lemma {:induction false} QueryPartition(reqs: seq<FriendshipRequest>, user: UserId, part: RequestFilter, rest: RequestFilter)
    requires Complementary(part, rest)
    ensures multiset(Query(reqs, part, user)) + multiset(Query(reqs, rest, user))
         == multiset(Query(reqs, Received, user))
  {
    if reqs != [] {
      QueryPartition(reqs[1..], user, part, rest);
    }
  }

  /** Unread and read requests split requests(user): each row lands in exactly one. */
  lemma ReadUnreadPartition(reqs: seq<FriendshipRequest>, user: UserId)
    ensures multiset(UnreadRequests(reqs, user)) + multiset(ReadRequests(reqs, user))
         == multiset(Requests(reqs, user))
    ensures |UnreadRequests(reqs, user)| + |ReadRequests(reqs, user)| == |Requests(reqs, user)|
    ensures forall x :: x in Requests(reqs, user) <==> x in UnreadRequests(reqs, user) || x in ReadRequests(reqs, user)
    ensures forall x :: !(x in UnreadRequests(reqs, user) && x in ReadRequests(reqs, user))
  {
    QueryPartition(reqs, user, Unread, Read);
    assert |multiset(UnreadRequests(reqs, user)) + multiset(ReadRequests(reqs, user))|
        == |multiset(Requests(reqs, user))|;
  }

  /** Unrejected and rejected requests split requests(user) the same way. */
  lemma RejectedUnrejectedPartition(reqs: seq<FriendshipRequest>, user: UserId)
    ensures multiset(UnrejectedRequests(reqs, user)) + multiset(RejectedRequests(reqs, user))
         == multiset(Requests(reqs, user))
    ensures |UnrejectedRequests(reqs, user)| + |RejectedRequests(reqs, user)| == |Requests(reqs, user)|
    ensures forall x :: x in Requests(reqs, user) <==> x in UnrejectedRequests(reqs, user) || x in RejectedRequests(reqs, user)
    ensures forall x :: !(x in UnrejectedRequests(reqs, user) && x in RejectedRequests(reqs, user))
  {
    QueryPartition(reqs, user, Unrejected, Rejected);
    assert |multiset(UnrejectedRequests(reqs, user)) + multiset(RejectedRequests(reqs, user))|
        == |multiset(Requests(reqs, user))|;
  }

  // ---------------------------------------------------------------------------
  // Transitions

  /** The table after deleting the request(s) of an ordered pair. */
  function DropRequest(reqs: seq<FriendshipRequest>, fromUser: UserId, toUser: UserId): (r: seq<FriendshipRequest>)
    ensures forall x :: x in r <==> x in reqs && !Between(x, fromUser, toUser)
    ensures |r| <= |reqs|
  {
    if reqs == [] then []
    else if Between(reqs[0], fromUser, toUser) then DropRequest(reqs[1..], fromUser, toUser)
    else [reqs[0]] + DropRequest(reqs[1..], fromUser, toUser)
  }

  /** Deleting a pair that is not there leaves the table as it was. */
  lemma {:induction false} DropAbsentRequest(reqs: seq<FriendshipRequest>, fromUser: UserId, toUser: UserId)
    requires !HasRequest(reqs, fromUser, toUser)
    ensures DropRequest(reqs, fromUser, toUser) == reqs
  {
    if reqs != [] {
      assert reqs[0] in reqs;
      assert forall x :: x in reqs[1..] ==> x in reqs;
      DropAbsentRequest(reqs[1..], fromUser, toUser);
    }
  }

  /** Under unique_together, deleting a present pair removes exactly one row. */
  lemma {:induction false} DropRequestRemovesOne(reqs: seq<FriendshipRequest>, fromUser: UserId, toUser: UserId)
    requires UniqueRequests(reqs)
    requires HasRequest(reqs, fromUser, toUser)
    ensures |DropRequest(reqs, fromUser, toUser)| == |reqs| - 1
  {
    if Between(reqs[0], fromUser, toUser) {
      DropAbsentRequest(reqs[1..], fromUser, toUser);
    } else {
      var x :| x in reqs && Between(x, fromUser, toUser);
      assert x in reqs[1..] by {
        assert x != reqs[0];
        assert reqs == [reqs[0]] + reqs[1..];
      }
      DropRequestRemovesOne(reqs[1..], fromUser, toUser);
    }
  }

  lemma {:induction false} DropRequestValid(reqs: seq<FriendshipRequest>, fromUser: UserId, toUser: UserId)
    requires RequestTableValid(reqs)
    ensures RequestTableValid(DropRequest(reqs, fromUser, toUser))
  {
    if reqs != [] {
      assert forall x :: x in reqs[1..] ==> x in reqs;
      DropRequestValid(reqs[1..], fromUser, toUser);
    }
  }

  /** accept's deletes, the request and any reverse request: the table stays
      valid, neither direction of the pair is left, and every other request is. */
  lemma DropRequestBothWays(reqs: seq<FriendshipRequest>, fromUser: UserId, toUser: UserId)
    requires RequestTableValid(reqs)
    ensures var after := DropRequest(DropRequest(reqs, fromUser, toUser), toUser, fromUser);
      && RequestTableValid(after)
      && !HasRequest(after, fromUser, toUser) && !HasRequest(after, toUser, fromUser)
      && forall x :: !Between(x, fromUser, toUser) && !Between(x, toUser, fromUser) ==>
           (x in after <==> x in reqs)
  {
    DropRequestValid(reqs, fromUser, toUser);
    DropRequestValid(DropRequest(reqs, fromUser, toUser), toUser, fromUser);
  }

  /** Deleting a pair keeps the order of what remains: every query over the
      smaller table is the old query's result with that pair's rows taken out. */
  lemma {:induction false} DropRequestKeepsOrder(reqs: seq<FriendshipRequest>, fromUser: UserId, toUser: UserId, filter: RequestFilter, user: UserId)
    ensures Query(DropRequest(reqs, fromUser, toUser), filter, user)
         == DropRequest(Query(reqs, filter, user), fromUser, toUser)
  {
    if reqs != [] {
      DropRequestKeepsOrder(reqs[1..], fromUser, toUser, filter, user);
      if !Between(reqs[0], fromUser, toUser) {
        var rest := DropRequest(reqs[1..], fromUser, toUser);
        assert ([reqs[0]] + rest)[0] == reqs[0];
        assert ([reqs[0]] + rest)[1..] == rest;
      }
      if Selects(filter, user, reqs[0]) {
        var rest := Query(reqs[1..], filter, user);
        assert ([reqs[0]] + rest)[0] == reqs[0];
        assert ([reqs[0]] + rest)[1..] == rest;
      }
    }
  }

  /** Appending a request whose pair is new and whose ends differ keeps the table valid. */
  lemma {:induction false} AppendRequestValid(reqs: seq<FriendshipRequest>, x: FriendshipRequest)
    requires RequestTableValid(reqs)
    requires x.fromUser != x.toUser
    requires !HasRequest(reqs, x.fromUser, x.toUser)
    ensures RequestTableValid(reqs + [x])
  {
    if reqs != [] {
      assert (reqs + [x])[1..] == reqs[1..] + [x];
      assert forall y :: y in reqs[1..] ==> y in reqs;
      AppendRequestValid(reqs[1..], x);
      assert reqs[0] in reqs;
    }
  }

  /** The two nullable stamps a request's `save()` can set. */
  datatype Stamp = RejectedAt | ViewedAt

  function WithStamp(r: FriendshipRequest, stamp: Stamp, now: Time): FriendshipRequest {
    match stamp
    case RejectedAt => r.(rejected := Some(now))
    case ViewedAt => r.(viewed := Some(now))
  }

  /** The table after setting `stamp` to `now` on the request of an ordered pair. */
  function StampRequest(reqs: seq<FriendshipRequest>, fromUser: UserId, toUser: UserId, stamp: Stamp, now: Time): (r: seq<FriendshipRequest>)
    ensures |r| == |reqs|
    ensures forall k :: 0 <= k < |reqs| ==>
      r[k] == if Between(reqs[k], fromUser, toUser) then WithStamp(reqs[k], stamp, now) else reqs[k]
  {
    if reqs == [] then []
    else
      [if Between(reqs[0], fromUser, toUser) then WithStamp(reqs[0], stamp, now) else reqs[0]]
      + StampRequest(reqs[1..], fromUser, toUser, stamp, now)
  }

  /** Stamping changes no row's pair, so the same pairs are present afterwards. */
  lemma {:induction false} StampKeepsPairs(reqs: seq<FriendshipRequest>, fromUser: UserId, toUser: UserId, stamp: Stamp, now: Time, a: UserId, b: UserId)
    ensures HasRequest(StampRequest(reqs, fromUser, toUser, stamp, now), a, b) == HasRequest(reqs, a, b)
  {
    var after := StampRequest(reqs, fromUser, toUser, stamp, now);
    if HasRequest(reqs, a, b) {
      var x :| x in reqs && Between(x, a, b);
      var k :| 0 <= k < |reqs| && reqs[k] == x;
      assert after[k] in after && Between(after[k], a, b);
    }
    if HasRequest(after, a, b) {
      var x :| x in after && Between(x, a, b);
      var k :| 0 <= k < |after| && after[k] == x;
      assert reqs[k] in reqs && Between(reqs[k], a, b);
    }
  }

  lemma {:induction false} StampRequestValid(reqs: seq<FriendshipRequest>, fromUser: UserId, toUser: UserId, stamp: Stamp, now: Time)
    requires RequestTableValid(reqs)
    ensures RequestTableValid(StampRequest(reqs, fromUser, toUser, stamp, now))
  {
    var after := StampRequest(reqs, fromUser, toUser, stamp, now);
    if reqs != [] {
      assert forall x :: x in reqs[1..] ==> x in reqs;
      StampRequestValid(reqs[1..], fromUser, toUser, stamp, now);
      StampKeepsPairs(reqs[1..], fromUser, toUser, stamp, now, reqs[0].fromUser, reqs[0].toUser);
      assert after[1..] == StampRequest(reqs[1..], fromUser, toUser, stamp, now);
    }
    forall x | x in after ensures x.fromUser != x.toUser {
      var k :| 0 <= k < |after| && after[k] == x;
      assert reqs[k] in reqs;
    }
  }

  /** reject: the request is then listed by rejected_requests and not by unrejected_requests. */
  lemma RejectEffect(reqs: seq<FriendshipRequest>, fromUser: UserId, toUser: UserId, now: Time)
    requires HasRequest(reqs, fromUser, toUser)
    ensures var after := StampRequest(reqs, fromUser, toUser, RejectedAt, now);
      && (exists x :: x in RejectedRequests(after, toUser) && Between(x, fromUser, toUser) && x.rejected == Some(now))
      && (forall x :: x in UnrejectedRequests(after, toUser) ==> !Between(x, fromUser, toUser))
      && (forall x :: !Between(x, fromUser, toUser) ==> (x in after <==> x in reqs))
  {
  }

  /** mark_viewed: the request moves from unread_requests to read_requests. */
  lemma ViewedEffect(reqs: seq<FriendshipRequest>, fromUser: UserId, toUser: UserId, now: Time)
    requires HasRequest(reqs, fromUser, toUser)
    ensures var after := StampRequest(reqs, fromUser, toUser, ViewedAt, now);
      && (exists x :: x in ReadRequests(after, toUser) && Between(x, fromUser, toUser) && x.viewed == Some(now))
      && (forall x :: x in UnreadRequests(after, toUser) ==> !Between(x, fromUser, toUser))
      && (forall x :: !Between(x, fromUser, toUser) ==> (x in after <==> x in reqs))
  {
  }
}
