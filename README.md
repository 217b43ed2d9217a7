# Social-graph relationship engine

A Dafny model of the relationship engine in `UserDetail/models.py` of a small
Django social network. The engine keeps three tables:

- **FriendshipRequest** rows `(from_user, to_user, message, created, rejected?, viewed?)`,
  unique per ordered pair;
- **Friend** rows `(from_user, to_user, created)`, meaning "from_user is a friend of
  to_user". They are unique per ordered pair and never self-loops, and they are
  always written in mirrored pairs;
- **Follow** rows `(follower, followee, created)`, unique per ordered pair and never
  self-loops, with no implied reverse row.

Module layout:

- `types.dfy` (`Types`) holds user ids (`nat`), timestamps (`int`), `Option` for
  nullable columns, and the `Error` kinds the source raises:
  `ValidationError` becomes `SelfRelation` or `OnlyPictureAllowed`, and
  `IntegrityError` becomes `AlreadyFriends`, `DuplicateRequest` or `DuplicateFollow`.
- `requests.dfy` (`FriendshipRequests`) holds the request table. It has the
  FriendshipManager request queries and the two table transitions of the request
  lifecycle: deleting the request of a pair, and stamping `rejected` or `viewed`.
- `friends.dfy` (`FriendGraph`) holds the Friend table, `are_friends`, `friends`,
  `Friend.save`, and the inserts and deletes done by `accept` and `remove_friend`.
- `follows.dfy` (`FollowGraph`) holds the Follow table, `Follow.save` and
  FollowingManager's queries.
- `posts.dfy` (`Posts`) holds PostManager's `wall_post` and `profile_post`, and the
  image check of `UserProfile.save`.
- `engine.dfy` (`Relationships`) holds the class `RelationshipStore`. It has the three
  tables as `seq` fields (so query results keep insertion order), and the mutating
  operations as methods. `Valid()` is the store's invariant: unique pairs in each
  table, no self-relation in any table, and every Friend row mirrored. Each method
  keeps `Valid()`. Each method states its new state exactly, as a function of the
  old tables, and states the query-level effect the source promises.
- `scenarios.dfy` (`Scenarios`) holds two client runs. They use only the methods'
  contracts: request, view, accept; then follow, unfollow.

The queries are pure functions over a table, not methods of the store, so lemmas
can relate them.

Three behaviours of the code are kept as written:

- `mark_viewed` sets `viewed` to the current time on every call (`models.py:65-67`).
  It is not a set-once stamp.
- `accept` does not look at `rejected`, so a rejected request can still be accepted.
- `are_friends(u1, u2)` reads only the row with `to_user = u1` and `from_user = u2`
  (`models.py:187`). `FriendGraph.AreFriendsSymmetric` proves that this one-row
  check is symmetric under the mirrored-row invariant.

## Model

| member | source | states |
|---|---|---|
| `FriendshipRequests.UniqueRequests` | UserDetail/models.py:26-29 | unique_together on (from_user, to_user): no two stored requests share an ordered pair |
| `FriendshipRequests.NoSelfRequests` | UserDetail/models.py:146-147 | add_friend refuses equal users, so no user has a request with themselves |
| `FriendshipRequests.Query` | UserDetail/models.py:80-142 | a request query returns exactly the stored rows that meet its filter (recipient or sender, plus viewed/rejected null or set), and never more rows than the table |
| `FriendshipRequests.QueryAppend` | UserDetail/models.py:80-142 | queries keep table order: querying two concatenated tables gives the two results concatenated |
| `FriendshipRequests.QueryCount` | UserDetail/models.py:104-110 | the `.count()` form of a query equals the length of the list the same query returns |
| `FriendshipRequests.Requests` | UserDetail/models.py:80-86 | requests(user) holds exactly the rows whose to_user is user |
| `FriendshipRequests.SentRequests` | UserDetail/models.py:88-93 | sent_requests(user) holds exactly the rows whose from_user is user |
| `FriendshipRequests.UnreadRequests` | UserDetail/models.py:95-102 | unread_requests(user) holds exactly the received rows with null viewed |
| `FriendshipRequests.UnreadRequestCount` | UserDetail/models.py:104-110 | unread_request_count(user) equals the length of unread_requests(user) |
| `FriendshipRequests.ReadRequests` | UserDetail/models.py:112-119 | read_requests(user) holds exactly the received rows with non-null viewed |
| `FriendshipRequests.RejectedRequests` | UserDetail/models.py:121-127 | rejected_requests(user) holds exactly the received rows with non-null rejected |
| `FriendshipRequests.UnrejectedRequests` | UserDetail/models.py:129-135 | unrejected_requests(user) holds exactly the received rows with null rejected |
| `FriendshipRequests.UnrejectedRequestCount` | UserDetail/models.py:137-142 | unrejected_request_count(user) equals the length of unrejected_requests(user) |
| `FriendshipRequests.QueryPartition` | UserDetail/models.py:95-135 | for both complementary filter pairs, the multisets of the two lists add up to the multiset of requests(user) |
| `FriendshipRequests.ReadUnreadPartition` | UserDetail/models.py:80-119 | unread and read requests partition requests(user): as multisets; in length; every received row is in one of them; no row is in both |
| `FriendshipRequests.RejectedUnrejectedPartition` | UserDetail/models.py:121-135 | unrejected and rejected requests partition requests(user) in the same four senses |
| `FriendshipRequests.DropRequest` | UserDetail/models.py:46-52 | deleting a pair's requests keeps exactly the rows of other pairs |
| `FriendshipRequests.DropAbsentRequest` | UserDetail/models.py:49-52 | deleting the reverse request when there is none leaves the table unchanged |
| `FriendshipRequests.DropRequestRemovesOne` | UserDetail/models.py:60-63 | under unique_together, deleting a stored request removes exactly one row |
| `FriendshipRequests.DropRequestValid` | UserDetail/models.py:26-29 | deleting requests keeps pairs unique and keeps every request between two distinct users |
| `FriendshipRequests.DropRequestBothWays` | UserDetail/models.py:46-52 | accept's two deletes (the request, then any reverse request) keep the table valid, leave no request between the pair in either direction, and keep every other request |
| `FriendshipRequests.DropRequestKeepsOrder` | UserDetail/models.py:60-63 | a delete keeps the order of the rows that remain: every request query over the smaller table is the old result with the deleted pair's rows taken out |
| `FriendshipRequests.AppendRequestValid` | UserDetail/models.py:144-161 | appending a request with distinct ends and a new pair keeps the table valid |
| `FriendshipRequests.StampRequest` | UserDetail/models.py:55-67 | stamping sets `rejected` or `viewed` to now on the pair's row; every other row is untouched; the table keeps its rows in place |
| `FriendshipRequests.StampKeepsPairs` | UserDetail/models.py:55-67 | stamping a row changes no (from_user, to_user) pair in the table |
| `FriendshipRequests.StampRequestValid` | UserDetail/models.py:55-67 | stamping keeps the request table valid |
| `FriendshipRequests.RejectEffect` | UserDetail/models.py:55-58 | after reject the request is listed by rejected_requests(to_user) with rejected = now; no row of the pair is in unrejected_requests(to_user); rows of other pairs are unchanged |
| `FriendshipRequests.ViewedEffect` | UserDetail/models.py:65-68 | after mark_viewed the request is listed by read_requests(to_user) with viewed = now; no row of the pair is in unread_requests(to_user); rows of other pairs are unchanged |
| `FriendGraph.UniqueFriendRows` | UserDetail/models.py:201-204 | unique_together on (from_user, to_user): no two Friend rows share an ordered pair |
| `FriendGraph.NoSelfFriendRows` | UserDetail/models.py:209-213 | Friend.save refuses a row with equal ends, so no user is on their own friends list |
| `FriendGraph.SymmetricFriendRows` | UserDetail/models.py:34-44 | accept writes each friendship as two mirrored rows; every row mirrored is the same as are_friends answering alike in both directions |
| `FriendGraph.AreFriends` | UserDetail/models.py:184-190 | are_friends(user1, user2) is true iff the row from_user = user2, to_user = user1 is stored |
| `FriendGraph.Friends` | UserDetail/models.py:74-78 | friends(user) holds exactly the from_users of the rows into user |
| `FriendGraph.FriendsAppend` | UserDetail/models.py:74-78 | friends(user) keeps insertion order: appending rows appends their contribution at the end |
| `FriendGraph.AreFriendsSymmetric` | UserDetail/models.py:184-190 | with mirrored rows, are_friends(a, b) == are_friends(b, a) |
| `FriendGraph.FriendListsMutual` | UserDetail/models.py:74-78 | with mirrored rows, b is in friends(a) iff a is in friends(b) |
| `FriendGraph.RowCount` | UserDetail/models.py:201-204 | the number of rows stored for an ordered pair is positive iff the row exists |
| `FriendGraph.UniqueRowCount` | UserDetail/models.py:201-204 | under unique_together a pair is stored at most once (count 1 if present, 0 if absent) |
| `FriendGraph.AppendFriendRowUnique` | UserDetail/models.py:36-44 | inserting a row whose pair is not stored keeps pairs unique |
| `FriendGraph.SaveFriendRow` | UserDetail/models.py:209-213 | Friend.save succeeds iff the ends differ and the pair is not stored; equal ends give SelfRelation, a stored pair gives AlreadyFriends; on success the row is appended |
| `FriendGraph.SaveFriendRowKeepsRows` | UserDetail/models.py:209-213 | a row Friend.save accepts keeps pairs unique and every row between two distinct users |
| `FriendGraph.AcceptSaves` | UserDetail/models.py:36-44 | in a valid table without the row from→to, both of accept's saves succeed and together append the mirrored pair |
| `FriendGraph.AddMirroredRowsSymmetric` | UserDetail/models.py:36-44 | inserting a row together with its mirror keeps every row mirrored |
| `FriendGraph.AddRowsNoSelf` | UserDetail/models.py:209-213 | appending two rows with distinct ends keeps every user off their own friends list |
| `FriendGraph.FriendsOfMirroredRows` | UserDetail/models.py:36-44 | the two rows written by accept put a on b's friends list and b on a's |
| `FriendGraph.FriendsAfterMirroredRows` | UserDetail/models.py:36-44 | after accept's rows, are_friends holds both ways and each user is appended to the end of the other's friends list |
| `FriendGraph.AddFriendPairValid` | UserDetail/models.py:34-44 | accept's inserts keep the Friend table valid (unique, no self-loop, mirrored), make are_friends hold both ways, and append each user to the end of the other's friends list |
| `FriendGraph.DropFriendPair` | UserDetail/models.py:171-177 | remove_friend's delete keeps exactly the rows that do not join a and b in either direction |
| `FriendGraph.DropAbsentFriendPair` | UserDetail/models.py:176-180 | when no row joins a and b, the table is unchanged |
| `FriendGraph.DropFriendPairCount` | UserDetail/models.py:171-177 | the rows deleted are exactly those stored for (a, b) plus those stored for (b, a) |
| `FriendGraph.FriendshipIsTwoRows` | UserDetail/models.py:168-178 | in a valid table a friendship is exactly two rows, and remove_friend deletes both |
| `FriendGraph.DropFriendPairUnique` | UserDetail/models.py:201-204 | deleting rows keeps pairs unique |
| `FriendGraph.DropFriendPairValid` | UserDetail/models.py:168-182 | remove_friend keeps the Friend table valid and leaves are_friends false in both directions |
| `FriendGraph.DropFriendPairKeepsOrder` | UserDetail/models.py:168-182 | remove_friend(a, b) leaves the friends list of every other user unchanged, order included |
| `FollowGraph.UniqueFollowRows` | UserDetail/models.py:269-272 | unique_together on (follower, followee): no two Follow rows share an ordered pair |
| `FollowGraph.NoSelfFollowRows` | UserDetail/models.py:277-281 | Follow.save refuses a row with equal ends, so no user follows themselves |
| `FollowGraph.Follows` | UserDetail/models.py:251-258 | follows(follower, followee) is true iff that row is stored |
| `FollowGraph.Followers` | UserDetail/models.py:219-223 | followers(user) holds exactly the followers of the rows into user |
| `FollowGraph.Following` | UserDetail/models.py:225-229 | following(user) holds exactly the followees of the rows out of user |
| `FollowGraph.FollowersAppend` | UserDetail/models.py:219-223 | followers(user) keeps insertion order over appended rows |
| `FollowGraph.FollowingAppend` | UserDetail/models.py:225-229 | following(user) keeps insertion order over appended rows |
| `FollowGraph.AppendFollowValid` | UserDetail/models.py:231-240 | a new edge with distinct ends keeps the Follow table valid; it appends the follower to followers(followee) and the followee to following(follower); it leaves follows(followee, follower) unchanged |
| `FollowGraph.SaveFollowRow` | UserDetail/models.py:277-281 | Follow.save succeeds iff the ends differ and the pair is not stored; equal ends give SelfRelation, a stored pair gives DuplicateFollow; on success the row is appended |
| `FollowGraph.SaveFollowRowKeepsRows` | UserDetail/models.py:277-281 | a row Follow.save accepts keeps the Follow table valid |
| `FollowGraph.DropFollowRow` | UserDetail/models.py:242-247 | deleting the edge keeps exactly the rows of other pairs |
| `FollowGraph.DropAbsentFollowRow` | UserDetail/models.py:248-249 | deleting an edge that is not stored leaves the table unchanged |
| `FollowGraph.DropFollowRowRemovesOne` | UserDetail/models.py:244-247 | under unique_together, deleting a stored edge removes exactly one row |
| `FollowGraph.DropFollowRowValid` | UserDetail/models.py:242-249 | remove_follower keeps the Follow table valid and follows(follower, followee) becomes false |
| `FollowGraph.DropFollowRowKeepsOrder` | UserDetail/models.py:242-249 | remove_follower leaves the followers list of every other followee and the following list of every other follower unchanged, order included |
| `Posts.PostsOwnedBy` | UserDetail/models.py:289 | `filter(owner__in=owners)` holds exactly the posts whose owner is listed |
| `Posts.WallPosts` | UserDetail/models.py:285-289 | wall_post(user) holds exactly the posts owned by user or by someone in friends(user) |
| `Posts.ProfilePosts` | UserDetail/models.py:291-292 | profile_post(user) holds exactly the posts owned by user |
| `Posts.FriendPostsOnWalls` | UserDetail/models.py:285-292 | with mirrored rows, the posts of two friends appear on both friends' walls |
| `Posts.ValidateProfileImages` | UserDetail/models.py:362-368 | a profile is accepted iff its cover and profile pictures, when set, are picture posts; otherwise the result is OnlyPictureAllowed |
| `Relationships.MessageOrEmpty` | UserDetail/models.py:152-153 | the stored message is empty exactly when none or an empty one was given, and otherwise is the given one |
| `Relationships.RelationshipStore.Valid` | UserDetail/models.py:201-213 | the store invariant (unique pairs, no self rows, mirrored Friend rows) implies that no user has a request with, is a friend of, or follows themselves, and that are_friends is symmetric |
| `Relationships.RelationshipStore.constructor` | UserDetail/models.py:26-29 | the empty store: all three tables empty, satisfying the invariant |
| `Relationships.RelationshipStore.AddFriend` | UserDetail/models.py:144-166 | SelfRelation if equal users; else AlreadyFriends if are_friends(from, to); else DuplicateRequest if a request of the pair is stored (rejected or not); every error leaves the store unchanged; otherwise appends exactly one request with the message or "", created = now and null stamps, which is then unread for to_user and sent by from_user; the Friend and Follow tables are untouched; validity is kept |
| `Relationships.RelationshipStore.Accept` | UserDetail/models.py:34-53 | saves rows from→to and to→from through Friend.save and deletes the request and any reverse request; all other requests are unchanged; afterwards are_friends holds both ways, each user ends the other's friends list, and no request is left between the pair; if row from→to already exists, AlreadyFriends and nothing changes; validity is kept |
| `Relationships.RelationshipStore.Reject` | UserDetail/models.py:55-58 | stamps rejected = now on the request and keeps it; it is then in rejected_requests(to_user) and not in unrejected_requests(to_user); validity is kept |
| `Relationships.RelationshipStore.Cancel` | UserDetail/models.py:60-63 | deletes the pair's request (exactly one row when it exists), changes nothing else and returns true |
| `Relationships.RelationshipStore.MarkViewed` | UserDetail/models.py:65-68 | restamps viewed = now on every call; the request is then in read_requests(to_user) and not in unread_requests(to_user); returns true |
| `Relationships.RelationshipStore.RemoveFriend` | UserDetail/models.py:168-182 | deletes every row joining a and b (two rows for a friendship) and keeps all others; returns true iff such a row existed; afterwards are_friends is false both ways |
| `Relationships.RelationshipStore.AddFollower` | UserDetail/models.py:231-240 | SelfRelation if equal users; else DuplicateFollow if the edge exists; an error changes nothing; otherwise appends the one edge, updates followers/following lists at their ends, and does not change follows(followee, follower) |
| `Relationships.RelationshipStore.RemoveFollower` | UserDetail/models.py:242-249 | deletes the edge (exactly one row) and returns whether it existed; afterwards follows is false |
| `Scenarios.FriendshipScenario` | UserDetail/models.py:34-68 | after add_friend(a, b, "hi"), b has exactly one unread request, from a, with message "hi"; after mark_viewed it is read, not unread; after accept, friends(a) = [b], friends(b) = [a], and no request is left |
| `Scenarios.FollowScenario` | UserDetail/models.py:219-258 | after add_follower(a, b): followers(b) = [a], following(a) = [b], follows(a, b) holds and follows(b, a) does not; after remove_follower both lists are empty |

## Left out

- HTTP views, serializers and URL routing (`UserDetail/views.py`, `UserDetail/serializers.py`, `facebook/urls.py`) only dispatch into the engine and render results. This includes the 404 on an unknown request id.
- Django ORM mechanics (`select_related`, `distinct`, `get_or_create` races, unique constraints under concurrency) are left out. The model is sequential, and each unique constraint is part of `Valid()`.
- `timezone.now()` is a `now` parameter of each operation. `accept` uses one `now` for both Friend rows, while the source reads the clock twice.
- Query results are in table (insertion) order. The source's querysets have no `ORDER BY`, so the database does not promise any order there.
- Requests are named by their ordered pair, which unique_together makes a key, rather than by primary key. `Accept`, `Reject` and `MarkViewed` require that the request is stored, because in the source they are methods of a stored row.
- The two `Friend.objects.create` calls of `accept` are not atomic in the source. The model makes `accept` one atomic step. When the from→to row already exists, the first insert raises and nothing changes (`AlreadyFriends`). In a valid store the second insert cannot then fail, because its row is the mirror of the first.
- `Friend.save` and `Follow.save` are modelled for inserts only (`SaveFriendRow`, `SaveFollowRow`), because the engine never updates a Friend or Follow row. `accept` and `add_follower` insert through them. `add_follower` rejects equal users before its save, so that guard of `Follow.save` is never reached from the store.
- `add_friend` in the source creates the row with an empty message and then saves the message in a second write. The model writes the final row in one step.
- `are_friends` and `follows` use `get`, which would raise on duplicate rows. The model leaves this out: uniqueness rules duplicates out.
- `remove_friend`'s `except Friend.DoesNotExist` branch is left out, because a filter never raises it.
- `FacebookPost` media, URL and file fields, `PostAction`, `PostManager.post_detail` and the `__unicode__` strings are plain storage or display. Posts are reduced to owner, message and type.
- For `UserProfile.save`, only the image check is modelled, not the save. Both failing checks raise the same message in the source, and the model gives both one error kind.
