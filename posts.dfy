/** PostManager's feeds over the FacebookPost table and the image check that
    UserProfile.save performs before storing a profile. */
module Posts {
  import opened Types
  import opened FriendGraph

  /** The TYPE choices of a post: 'PIC', 'VID' and 'URL'. */
  datatype PostType = Picture | Video | Url

  /** A stored post, reduced to what the feeds and the profile check read. */
  datatype FacebookPost = FacebookPost(owner: UserId, message: string, postType: PostType)

  /** filter(owner__in=owners), in table order. */
  function PostsOwnedBy(posts: seq<FacebookPost>, owners: seq<UserId>): (r: seq<FacebookPost>)
    ensures forall p :: p in r <==> p in posts && p.owner in owners
    ensures |r| <= |posts|
  {
    if posts == [] then []
    else if posts[0].owner in owners then [posts[0]] + PostsOwnedBy(posts[1..], owners)
    else PostsOwnedBy(posts[1..], owners)
  }

  /** wall_post(user): the posts of `user` and of everyone in friends(user). */
  function WallPosts(posts: seq<FacebookPost>, edges: seq<FriendEdge>, user: UserId): (r: seq<FacebookPost>)
    ensures forall p :: p in r <==> p in posts && (p.owner == user || HasFriendRow(edges, p.owner, user))
  {
    PostsOwnedBy(posts, Friends(edges, user) + [user])
  }

  /** profile_post(user): the posts owned by `user`. */
  function ProfilePosts(posts: seq<FacebookPost>, user: UserId): (r: seq<FacebookPost>)
    ensures forall p :: p in r <==> p in posts && p.owner == user
  {
    PostsOwnedBy(posts, [user])
  }

  /** A user's own posts are on their wall, and with mirrored Friend rows two
      friends see each other's posts on their walls. */
  lemma FriendPostsOnWalls(posts: seq<FacebookPost>, edges: seq<FriendEdge>, a: UserId, b: UserId)
    requires SymmetricFriendRows(edges)
    requires AreFriends(edges, a, b)
    ensures forall p :: p in ProfilePosts(posts, a) ==> p in WallPosts(posts, edges, a) && p in WallPosts(posts, edges, b)
    ensures forall p :: p in ProfilePosts(posts, b) ==> p in WallPosts(posts, edges, a) && p in WallPosts(posts, edges, b)
  {
  }

  /** UserProfile.save: a cover or profile picture, when set, must be a picture post. */
  function ValidateProfileImages(coverPic: Option<FacebookPost>, profilePic: Option<FacebookPost>): (r: Result<()>)
    ensures r.Ok? <==>
      (coverPic.None? || coverPic.value.postType == Picture) &&
      (profilePic.None? || profilePic.value.postType == Picture)
    ensures r.Err? ==> r.error == OnlyPictureAllowed
  {
    if coverPic.Some? && coverPic.value.postType != Picture then Err(OnlyPictureAllowed)
    else if profilePic.Some? && profilePic.value.postType != Picture then Err(OnlyPictureAllowed)
    else Ok(())
  }
}
