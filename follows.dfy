/** The Follow table: directed rows (follower, followee) with no implied
    counterpart; the invariants the store keeps on it and FollowingManager's
    queries over it. */
module FollowGraph {
  import opened Types

  /** One stored Follow row. */
  datatype FollowEdge = FollowEdge(follower: UserId, followee: UserId, created: Time)

  /** Does the table hold the row follower -> followee? */
  predicate HasFollowRow(edges: seq<FollowEdge>, follower: UserId, followee: UserId) {
    exists e :: e in edges && e.follower == follower && e.followee == followee
  }

  /** unique_together (follower, followee): no row's pair recurs later in the
      table, that is, no two rows share an ordered pair. */
  ghost function UniqueFollowRows(edges: seq<FollowEdge>): (b: bool)
    ensures b <==> forall i, j :: 0 <= i < j < |edges| ==>
      !(edges[i].follower == edges[j].follower && edges[i].followee == edges[j].followee)
  {
    edges == [] ||
    (!HasFollowRow(edges[1..], edges[0].follower, edges[0].followee) && UniqueFollowRows(edges[1..]))
  }

  /** Follow.save refuses a row whose two ends are the same user, so no user
      follows themselves. */
  ghost function NoSelfFollowRows(edges: seq<FollowEdge>): (b: bool)
    ensures b <==> forall u :: !Follows(edges, u, u)
  {
    var ok := forall e :: e in edges ==> e.follower != e.followee;
    assert !ok ==> exists e :: e in edges && e.follower == e.followee && Follows(edges, e.follower, e.follower);
    ok
  }

  ghost predicate FollowTableValid(edges: seq<FollowEdge>) {
    UniqueFollowRows(edges) && NoSelfFollowRows(edges)
  }

  // ---------------------------------------------------------------------------
  // Queries

  /** follows(follower, followee): looks up the row. */
  function Follows(edges: seq<FollowEdge>, follower: UserId, followee: UserId): (b: bool)
    ensures b == HasFollowRow(edges, follower, followee)
  {
    if edges == [] then false
    else
      assert edges == [edges[0]] + edges[1..];
      (edges[0].follower == follower && edges[0].followee == followee) || Follows(edges[1..], follower, followee)
  }

  /** followers(user): the follower of every row into `user`, in table order. */
  function Followers(edges: seq<FollowEdge>, user: UserId): (r: seq<UserId>)
    ensures forall u :: u in r <==> HasFollowRow(edges, u, user)
    ensures |r| <= |edges|
  {
    if edges == [] then []
    else
      assert edges == [edges[0]] + edges[1..];
      (if edges[0].followee == user then [edges[0].follower] else []) + Followers(edges[1..], user)
  }

  /** following(user): the followee of every row out of `user`, in table order. */
  function Following(edges: seq<FollowEdge>, user: UserId): (r: seq<UserId>)
    ensures forall u :: u in r <==> HasFollowRow(edges, user, u)
    ensures |r| <= |edges|
  {
    if edges == [] then []
    else
      assert edges == [edges[0]] + edges[1..];
      (if edges[0].follower == user then [edges[0].followee] else []) + Following(edges[1..], user)
  }

  /** followers(user) keeps insertion order: it distributes over concatenation of tables. */
  lemma {:induction false} FollowersAppend(edges: seq<FollowEdge>, extra: seq<FollowEdge>, user: UserId)
    ensures Followers(edges + extra, user) == Followers(edges, user) + Followers(extra, user)
  {
    if edges == [] {
      assert edges + extra == extra;
    } else {
      var head := if edges[0].followee == user then [edges[0].follower] else [];
      assert (edges + extra)[0] == edges[0];
      assert (edges + extra)[1..] == edges[1..] + extra;
      calc {
        Followers(edges + extra, user);
        head + Followers(edges[1..] + extra, user);
        { FollowersAppend(edges[1..], extra, user); }
        head + (Followers(edges[1..], user) + Followers(extra, user));
        Followers(edges, user) + Followers(extra, user);
      }
    }
  }

  /** following(user) keeps insertion order: it distributes over concatenation of tables. */
  lemma {:induction false} FollowingAppend(edges: seq<FollowEdge>, extra: seq<FollowEdge>, user: UserId)
    ensures Following(edges + extra, user) == Following(edges, user) + Following(extra, user)
  {
    if edges == [] {
      assert edges + extra == extra;
    } else {
      var head := if edges[0].follower == user then [edges[0].followee] else [];
      assert (edges + extra)[0] == edges[0];
      assert (edges + extra)[1..] == edges[1..] + extra;
      calc {
        Following(edges + extra, user);
        head + Following(edges[1..] + extra, user);
        { FollowingAppend(edges[1..], extra, user); }
        head + (Following(edges[1..], user) + Following(extra, user));
        Following(edges, user) + Following(extra, user);
      }
    }
  }

  // ---------------------------------------------------------------------------
  // Transitions

  /** add_follower's insert: a new pair with distinct ends keeps the table valid,
      appends the follower to followers(followee) and the followee to
      following(follower), and implies no reverse edge. */
  lemma {:induction false} AppendFollowValid(edges: seq<FollowEdge>, e: FollowEdge)
    requires FollowTableValid(edges)
    requires e.follower != e.followee
    requires !HasFollowRow(edges, e.follower, e.followee)
    ensures FollowTableValid(edges + [e])
    ensures Followers(edges + [e], e.followee) == Followers(edges, e.followee) + [e.follower]
    ensures Following(edges + [e], e.follower) == Following(edges, e.follower) + [e.followee]
    ensures Follows(edges + [e], e.followee, e.follower) == Follows(edges, e.followee, e.follower)
  {
    if edges != [] {
      assert (edges + [e])[1..] == edges[1..] + [e];
      assert forall x :: x in edges[1..] ==> x in edges;
      AppendFollowValid(edges[1..], e);
      assert edges[0] in edges;
    }
    FollowersAppend(edges, [e], e.followee);
    FollowingAppend(edges, [e], e.follower);
    assert [e][1..] == [];
  }

  /** Follow.save of a new row: refuses a row whose two ends are the same user
      (the ValidationError) and, through unique_together, a pair already stored
      (the IntegrityError); otherwise the table gains the row at its end. */
  function SaveFollowRow(edges: seq<FollowEdge>, e: FollowEdge): (r: Result<seq<FollowEdge>>)
    ensures r.Ok? <==> e.follower != e.followee && !HasFollowRow(edges, e.follower, e.followee)
    ensures e.follower == e.followee ==> r == Err(SelfRelation)
    ensures e.follower != e.followee && HasFollowRow(edges, e.follower, e.followee) ==> r == Err(DuplicateFollow)
    ensures r.Ok? ==> r.value == edges + [e] && HasFollowRow(r.value, e.follower, e.followee)
  {
    if e.follower == e.followee then Err(SelfRelation)
    else if HasFollowRow(edges, e.follower, e.followee) then Err(DuplicateFollow)
    else
      assert e in edges + [e];
      Ok(edges + [e])
  }

  /** What Follow.save lets through keeps the table valid. */
  lemma SaveFollowRowKeepsRows(edges: seq<FollowEdge>, e: FollowEdge)
    requires FollowTableValid(edges)
    requires SaveFollowRow(edges, e).Ok?
    ensures FollowTableValid(SaveFollowRow(edges, e).value)
  {
    AppendFollowValid(edges, e);
  }

  /** The table after deleting the row(s) follower -> followee. */
  function DropFollowRow(edges: seq<FollowEdge>, follower: UserId, followee: UserId): (r: seq<FollowEdge>)
    ensures forall e :: e in r <==> e in edges && !(e.follower == follower && e.followee == followee)
    ensures |r| <= |edges|
  {
    if edges == [] then []
    else if edges[0].follower == follower && edges[0].followee == followee then DropFollowRow(edges[1..], follower, followee)
    else [edges[0]] + DropFollowRow(edges[1..], follower, followee)
  }

  /** Deleting a row that is not there leaves the table as it was. */
  lemma {:induction false} DropAbsentFollowRow(edges: seq<FollowEdge>, follower: UserId, followee: UserId)
    requires !HasFollowRow(edges, follower, followee)
    ensures DropFollowRow(edges, follower, followee) == edges
  {
    if edges != [] {
      assert edges[0] in edges;
      assert forall x :: x in edges[1..] ==> x in edges;
      DropAbsentFollowRow(edges[1..], follower, followee);
    }
  }

  /** Under unique_together, deleting a present row removes exactly one row. */
  lemma {:induction false} DropFollowRowRemovesOne(edges: seq<FollowEdge>, follower: UserId, followee: UserId)
    requires UniqueFollowRows(edges)
    requires HasFollowRow(edges, follower, followee)
    ensures |DropFollowRow(edges, follower, followee)| == |edges| - 1
  {
    if edges[0].follower == follower && edges[0].followee == followee {
      DropAbsentFollowRow(edges[1..], follower, followee);
    } else {
      var x :| x in edges && x.follower == follower && x.followee == followee;
      assert x in edges[1..] by {
        assert x != edges[0];
        assert edges == [edges[0]] + edges[1..];
      }
      DropFollowRowRemovesOne(edges[1..], follower, followee);
    }
  }

  /** Deleting an edge keeps the followers list of every other followee and the
      following list of every other follower in order. */
  lemma {:induction false} DropFollowRowKeepsOrder(edges: seq<FollowEdge>, follower: UserId, followee: UserId, u: UserId)
    ensures u != followee ==> Followers(DropFollowRow(edges, follower, followee), u) == Followers(edges, u)
    ensures u != follower ==> Following(DropFollowRow(edges, follower, followee), u) == Following(edges, u)
  {
    if edges != [] {
      DropFollowRowKeepsOrder(edges[1..], follower, followee, u);
      if !(edges[0].follower == follower && edges[0].followee == followee) {
        var rest := DropFollowRow(edges[1..], follower, followee);
        assert ([edges[0]] + rest)[0] == edges[0];
        assert ([edges[0]] + rest)[1..] == rest;
      }
    }
  }

  /** remove_follower keeps the table valid and the pair no longer follows. */
  lemma {:induction false} DropFollowRowValid(edges: seq<FollowEdge>, follower: UserId, followee: UserId)
    requires FollowTableValid(edges)
    ensures FollowTableValid(DropFollowRow(edges, follower, followee))
    ensures !Follows(DropFollowRow(edges, follower, followee), follower, followee)
  {
    if edges != [] {
      assert forall x :: x in edges[1..] ==> x in edges;
      DropFollowRowValid(edges[1..], follower, followee);
    }
  }
}
