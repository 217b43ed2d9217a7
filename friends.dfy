/** The Friend table: directed rows (from_user, to_user) meaning "from_user is a
    friend of to_user", always written in mirrored pairs; the invariants the
    store keeps on it and the queries and deletions FriendshipManager runs. */
module FriendGraph {
  import opened Types

  /** One stored Friend row. */
  datatype FriendEdge = FriendEdge(fromUser: UserId, toUser: UserId, created: Time)

  /** Does the table hold the row fromUser -> toUser? */
  predicate HasFriendRow(edges: seq<FriendEdge>, fromUser: UserId, toUser: UserId) {
    exists e :: e in edges && e.fromUser == fromUser && e.toUser == toUser
  }

  /** unique_together (from_user, to_user): no row's pair recurs later in the
      table, that is, no two rows share an ordered pair. */
  ghost function UniqueFriendRows(edges: seq<FriendEdge>): (b: bool)
    ensures b <==> forall i, j :: 0 <= i < j < |edges| ==>
      !(edges[i].fromUser == edges[j].fromUser && edges[i].toUser == edges[j].toUser)
  {
    edges == [] ||
    (!HasFriendRow(edges[1..], edges[0].fromUser, edges[0].toUser) && UniqueFriendRows(edges[1..]))
  }

  /** Friend.save refuses a row whose two ends are the same user, so no user is
      on their own friends list. */
  ghost function NoSelfFriendRows(edges: seq<FriendEdge>): (b: bool)
    ensures b <==> forall u :: u !in Friends(edges, u)
  {
    var ok := forall e :: e in edges ==> e.fromUser != e.toUser;
    assert !ok ==> exists e :: e in edges && e.fromUser == e.toUser && e.fromUser in Friends(edges, e.toUser);
    ok
  }

  /** Every row has its mirror row: accept writes the two rows of a friendship
      together, so are_friends answers the same in both directions. */
  ghost function SymmetricFriendRows(edges: seq<FriendEdge>): (b: bool)
    ensures b <==> forall a, c :: AreFriends(edges, a, c) ==> AreFriends(edges, c, a)
  {
    var ok := forall e :: e in edges ==> HasFriendRow(edges, e.toUser, e.fromUser);
    assert !ok ==> exists e :: e in edges && AreFriends(edges, e.toUser, e.fromUser) && !AreFriends(edges, e.fromUser, e.toUser);
    ok
  }

  ghost predicate FriendTableValid(edges: seq<FriendEdge>) {
    UniqueFriendRows(edges) && NoSelfFriendRows(edges) && SymmetricFriendRows(edges)
  }

  // ---------------------------------------------------------------------------
  // Queries

  /** are_friends(user1, user2): looks up the single row with to_user = user1 and
      from_user = user2. */
  function AreFriends(edges: seq<FriendEdge>, user1: UserId, user2: UserId): (b: bool)
    ensures b == HasFriendRow(edges, user2, user1)
  {
    if edges == [] then false
    else
      assert edges == [edges[0]] + edges[1..];
      (edges[0].toUser == user1 && edges[0].fromUser == user2) || AreFriends(edges[1..], user1, user2)
  }

  /** friends(user): the from_user of every row whose to_user is `user`, in table order. */
  function Friends(edges: seq<FriendEdge>, user: UserId): (r: seq<UserId>)
    ensures forall u :: u in r <==> HasFriendRow(edges, u, user)
    ensures |r| <= |edges|
  {
    if edges == [] then []
    else
      assert edges == [edges[0]] + edges[1..];
      (if edges[0].toUser == user then [edges[0].fromUser] else []) + Friends(edges[1..], user)
  }

  /** friends(user) keeps insertion order: it distributes over concatenation of tables. */
  lemma {:induction false} FriendsAppend(edges: seq<FriendEdge>, extra: seq<FriendEdge>, user: UserId)
    ensures Friends(edges + extra, user) == Friends(edges, user) + Friends(extra, user)
  {
    if edges == [] {
      assert edges + extra == extra;
    } else {
      var head := if edges[0].toUser == user then [edges[0].fromUser] else [];
      assert (edges + extra)[0] == edges[0];
      assert (edges + extra)[1..] == edges[1..] + extra;
      calc {
        Friends(edges + extra, user);
        head + Friends(edges[1..] + extra, user);
        { FriendsAppend(edges[1..], extra, user); }
        head + (Friends(edges[1..], user) + Friends(extra, user));
        Friends(edges, user) + Friends(extra, user);
      }
    }
  }

  /** With mirrored rows, the one-row check of are_friends is symmetric. */
  lemma AreFriendsSymmetric(edges: seq<FriendEdge>, a: UserId, b: UserId)
    requires SymmetricFriendRows(edges)
    ensures AreFriends(edges, a, b) == AreFriends(edges, b, a)
  {
  }

  /** With mirrored rows, b is in friends(a) exactly when a is in friends(b). */
  lemma FriendListsMutual(edges: seq<FriendEdge>, a: UserId, b: UserId)
    requires SymmetricFriendRows(edges)
    ensures b in Friends(edges, a) <==> a in Friends(edges, b)
  {
  }

  /** The number of rows stored for the ordered pair. */
  function RowCount(edges: seq<FriendEdge>, fromUser: UserId, toUser: UserId): (n: nat)
    ensures n > 0 <==> HasFriendRow(edges, fromUser, toUser)
    ensures n <= |edges|
  {
    if edges == [] then 0
    else
      assert edges == [edges[0]] + edges[1..];
      (if edges[0].fromUser == fromUser && edges[0].toUser == toUser then 1 else 0)
      + RowCount(edges[1..], fromUser, toUser)
  }

  /** unique_together: a pair is stored at most once. */
  lemma {:induction false} UniqueRowCount(edges: seq<FriendEdge>, fromUser: UserId, toUser: UserId)
    requires UniqueFriendRows(edges)
    ensures RowCount(edges, fromUser, toUser) == if HasFriendRow(edges, fromUser, toUser) then 1 else 0
  {
    if edges != [] {
      assert edges == [edges[0]] + edges[1..];
      UniqueRowCount(edges[1..], fromUser, toUser);
    }
  }

  // ---------------------------------------------------------------------------
  // Transitions

  /** Appending a row whose pair is new keeps the pairs unique. */
  lemma {:induction false} AppendFriendRowUnique(edges: seq<FriendEdge>, e: FriendEdge)
    requires UniqueFriendRows(edges)
    requires !HasFriendRow(edges, e.fromUser, e.toUser)
    ensures UniqueFriendRows(edges + [e])
  {
    if edges != [] {
      assert (edges + [e])[1..] == edges[1..] + [e];
      assert forall x :: x in edges[1..] ==> x in edges;
      AppendFriendRowUnique(edges[1..], e);
      assert edges[0] in edges;
    }
  }

  /** Friend.save of a new row: refuses a row whose two ends are the same user
      (the ValidationError) and, through unique_together, a pair already stored
      (the IntegrityError); otherwise the table gains the row at its end. */
  function SaveFriendRow(edges: seq<FriendEdge>, e: FriendEdge): (r: Result<seq<FriendEdge>>)
    ensures r.Ok? <==> e.fromUser != e.toUser && !HasFriendRow(edges, e.fromUser, e.toUser)
    ensures e.fromUser == e.toUser ==> r == Err(SelfRelation)
    ensures e.fromUser != e.toUser && HasFriendRow(edges, e.fromUser, e.toUser) ==> r == Err(AlreadyFriends)
    ensures r.Ok? ==> r.value == edges + [e] && HasFriendRow(r.value, e.fromUser, e.toUser)
  {
    if e.fromUser == e.toUser then Err(SelfRelation)
    else if HasFriendRow(edges, e.fromUser, e.toUser) then Err(AlreadyFriends)
    else
      assert e in edges + [e];
      Ok(edges + [e])
  }

  /** What Friend.save lets through keeps pairs unique and ends distinct. */
  lemma SaveFriendRowKeepsRows(edges: seq<FriendEdge>, e: FriendEdge)
    requires UniqueFriendRows(edges) && NoSelfFriendRows(edges)
    requires SaveFriendRow(edges, e).Ok?
    ensures UniqueFriendRows(SaveFriendRow(edges, e).value) && NoSelfFriendRows(SaveFriendRow(edges, e).value)
  {
    AppendFriendRowUnique(edges, e);
    assert forall x :: x in edges + [e] ==> x in edges || x == e;
  }

  /** accept's two saves, in a valid table without the row a -> b: both succeed
      and together append the mirrored pair. */
  lemma AcceptSaves(edges: seq<FriendEdge>, a: UserId, b: UserId, now: Time)
    requires FriendTableValid(edges)
    requires a != b
    requires !HasFriendRow(edges, a, b)
    ensures SaveFriendRow(edges, FriendEdge(a, b, now)).Ok?
    ensures SaveFriendRow(SaveFriendRow(edges, FriendEdge(a, b, now)).value, FriendEdge(b, a, now))
         == Ok(edges + [FriendEdge(a, b, now), FriendEdge(b, a, now)])
  {
    var e1, e2 := FriendEdge(a, b, now), FriendEdge(b, a, now);
    assert !HasFriendRow(edges, b, a) by {
      assert !AreFriends(edges, b, a);
    }
    assert !HasFriendRow(edges + [e1], b, a);
    assert (edges + [e1]) + [e2] == edges + [e1, e2];
  }

  /** Adding a row together with its mirror keeps every row mirrored. */
  lemma AddMirroredRowsSymmetric(edges: seq<FriendEdge>, e1: FriendEdge, e2: FriendEdge)
    requires SymmetricFriendRows(edges)
    requires e2.fromUser == e1.toUser && e2.toUser == e1.fromUser
    ensures SymmetricFriendRows(edges + [e1, e2])
  {
  }

  /** Adding two rows with distinct ends keeps every user off their own list. */
  lemma AddRowsNoSelf(edges: seq<FriendEdge>, e1: FriendEdge, e2: FriendEdge)
    requires NoSelfFriendRows(edges)
    requires e1.fromUser != e1.toUser && e2.fromUser != e2.toUser
    ensures NoSelfFriendRows(edges + [e1, e2])
  {
    assert forall e :: e in edges + [e1, e2] ==> e in edges || e == e1 || e == e2;
  }

  /** Each of the two mirrored rows puts one user on the other's friends list. */
  lemma FriendsOfMirroredRows(a: UserId, b: UserId, now: Time)
    requires a != b
    ensures Friends([FriendEdge(a, b, now), FriendEdge(b, a, now)], b) == [a]
    ensures Friends([FriendEdge(a, b, now), FriendEdge(b, a, now)], a) == [b]
  {
  }

  /** The friends lists after the mirrored rows are appended. */
  lemma {:induction false} FriendsAfterMirroredRows(edges: seq<FriendEdge>, a: UserId, b: UserId, now: Time)
    requires a != b
    ensures var after := edges + [FriendEdge(a, b, now), FriendEdge(b, a, now)];
      && AreFriends(after, a, b) && AreFriends(after, b, a)
      && Friends(after, b) == Friends(edges, b) + [a]
      && Friends(after, a) == Friends(edges, a) + [b]
  {
    var e1, e2 := FriendEdge(a, b, now), FriendEdge(b, a, now);
    var after := edges + [e1, e2];
    assert e1 in after && e2 in after;
    FriendsAppend(edges, [e1, e2], b);
    FriendsAppend(edges, [e1, e2], a);
    FriendsOfMirroredRows(a, b, now);
  }

  /** accept's two inserts: from a table without the pair, the mirrored rows
      a -> b and b -> a leave the table valid, make are_friends hold both ways,
      and append each user to the end of the other's friends list. */
  lemma AddFriendPairValid(edges: seq<FriendEdge>, a: UserId, b: UserId, now: Time)
    requires FriendTableValid(edges)
    requires a != b
    requires !HasFriendRow(edges, a, b)
    ensures var after := edges + [FriendEdge(a, b, now), FriendEdge(b, a, now)];
      && FriendTableValid(after)
      && AreFriends(after, a, b) && AreFriends(after, b, a)
      && Friends(after, b) == Friends(edges, b) + [a]
      && Friends(after, a) == Friends(edges, a) + [b]
  {
    var e1, e2 := FriendEdge(a, b, now), FriendEdge(b, a, now);
    var after := edges + [e1, e2];
    assert !HasFriendRow(edges, b, a) by {
      assert !AreFriends(edges, b, a);
    }
    AppendFriendRowUnique(edges, e1);
    assert after == (edges + [e1]) + [e2];
    assert !HasFriendRow(edges + [e1], b, a);
    AppendFriendRowUnique(edges + [e1], e2);
    AddMirroredRowsSymmetric(edges, e1, e2);
    AddRowsNoSelf(edges, e1, e2);
    FriendsAfterMirroredRows(edges, a, b, now);
  }

  /** Does the row join a and b, in either direction? */
  predicate Joins(e: FriendEdge, a: UserId, b: UserId) {
    (e.fromUser == a && e.toUser == b) || (e.fromUser == b && e.toUser == a)
  }

  /** The table after deleting every row that joins a and b. */
  function DropFriendPair(edges: seq<FriendEdge>, a: UserId, b: UserId): (r: seq<FriendEdge>)
    ensures forall e :: e in r <==> e in edges && !Joins(e, a, b)
    ensures |r| <= |edges|
  {
    if edges == [] then []
    else if Joins(edges[0], a, b) then DropFriendPair(edges[1..], a, b)
    else [edges[0]] + DropFriendPair(edges[1..], a, b)
  }

  /** Deleting a pair with no rows leaves the table as it was. */
  lemma {:induction false} DropAbsentFriendPair(edges: seq<FriendEdge>, a: UserId, b: UserId)
    requires !HasFriendRow(edges, a, b) && !HasFriendRow(edges, b, a)
    ensures DropFriendPair(edges, a, b) == edges
  {
    if edges != [] {
      assert edges[0] in edges;
      assert forall x :: x in edges[1..] ==> x in edges;
      DropAbsentFriendPair(edges[1..], a, b);
    }
  }

  /** The rows deleted are exactly the rows stored for (a, b) and for (b, a). */
  lemma {:induction false} DropFriendPairCount(edges: seq<FriendEdge>, a: UserId, b: UserId)
    requires a != b
    ensures |edges| == |DropFriendPair(edges, a, b)| + RowCount(edges, a, b) + RowCount(edges, b, a)
  {
    if edges != [] {
      DropFriendPairCount(edges[1..], a, b);
    }
  }

  /** A friendship is stored as exactly two rows, and remove_friend deletes both. */
  lemma FriendshipIsTwoRows(edges: seq<FriendEdge>, a: UserId, b: UserId)
    requires FriendTableValid(edges)
    requires AreFriends(edges, a, b)
    ensures |DropFriendPair(edges, a, b)| == |edges| - 2
  {
    var e :| e in edges && e.fromUser == b && e.toUser == a;
    assert a != b;
    assert HasFriendRow(edges, a, b);
    UniqueRowCount(edges, a, b);
    UniqueRowCount(edges, b, a);
    DropFriendPairCount(edges, a, b);
  }

  /** Deleting the pair keeps every other user's friends list in order. */
  lemma {:induction false} DropFriendPairKeepsOrder(edges: seq<FriendEdge>, a: UserId, b: UserId, c: UserId)
    requires c != a && c != b
    ensures Friends(DropFriendPair(edges, a, b), c) == Friends(edges, c)
  {
    if edges != [] {
      DropFriendPairKeepsOrder(edges[1..], a, b, c);
      if !Joins(edges[0], a, b) {
        var rest := DropFriendPair(edges[1..], a, b);
        assert ([edges[0]] + rest)[0] == edges[0];
        assert ([edges[0]] + rest)[1..] == rest;
      }
    }
  }

  lemma {:induction false} DropFriendPairUnique(edges: seq<FriendEdge>, a: UserId, b: UserId)
    requires UniqueFriendRows(edges)
    ensures UniqueFriendRows(DropFriendPair(edges, a, b))
  {
    if edges != [] {
      assert forall x :: x in edges[1..] ==> x in edges;
      DropFriendPairUnique(edges[1..], a, b);
    }
  }

  /** remove_friend keeps the table valid and leaves a and b not friends either way. */
  lemma DropFriendPairValid(edges: seq<FriendEdge>, a: UserId, b: UserId)
    requires FriendTableValid(edges)
    ensures var after := DropFriendPair(edges, a, b);
      && FriendTableValid(after)
      && !AreFriends(after, a, b) && !AreFriends(after, b, a)
  {
    var after := DropFriendPair(edges, a, b);
    DropFriendPairUnique(edges, a, b);
    forall e | e in after ensures HasFriendRow(after, e.toUser, e.fromUser) {
      var m :| m in edges && m.fromUser == e.toUser && m.toUser == e.fromUser;
      assert m in after;
    }
  }
}
