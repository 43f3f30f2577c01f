/**
 * The public profile handlers (backend/src/controllers/user.controller.js): a user looked
 * up by username (the schema's `trim` setter applies to the query), shown without e-mail
 * or password hash, and that user's posts, most recent first, each in the `formatPost`
 * projection with the author filled in.
 */
module UserController {
  import opened Options
  import opened Text
  import opened Results
  import opened PostModel
  import opened UserModel
  import PostController

  /** The populated `author` of a formatted post. */
  datatype AuthorView = AuthorView(id: string, username: string, avatarUrl: string)

  /** The shape `formatPost` gives a post. */
  datatype FormattedPost = FormattedPost(
    id: string,
    content: string,
    author: AuthorView,
    media: Option<MediaInfo>,
    likesCount: nat,
    commentsCount: nat,
    createdAt: nat,
    updatedAt: nat)

  /** The public profile: the fields `getPublicProfile` selects. */
  datatype PublicProfile = PublicProfile(id: string, username: string, avatarUrl: string, bio: string, createdAt: nat)

  datatype UserPosts = UserPosts(posts: seq<FormattedPost>, count: nat)

  /**
   * `formatPost`: the post with its author populated; `media` only when the stored media
   * has a non-empty URL, and then its four fields; the arrays replaced by their lengths.
   */
  function FormatPost(p: Post, author: User): (f: FormattedPost)
    ensures f.media.Some? <==> p.media.Some? && p.media.value.url != []
    ensures f.media.Some? ==> f.media.value == p.media.value
    ensures f.likesCount == |p.likes| && f.commentsCount == |p.comments|
  {
    FormattedPost(
      p.id, p.content, AuthorView(author.id, author.username, author.avatarUrl),
      if p.media.Some? && p.media.value.url != [] then p.media else None,
      |p.likes|, |p.comments|, p.createdAt, p.updatedAt)
  }

  /** A formatted post carries the same id, text, counts and times as the feed's summary of it. */
  lemma FormatAgreesWithSummary(p: Post, author: User)
    ensures var f, s := FormatPost(p, author), PostController.Summary(p);
      && f.id == s.id && f.content == s.content
      && f.likesCount == s.likesCount && f.commentsCount == s.commentsCount
      && f.createdAt == s.createdAt && f.updatedAt == s.updatedAt
  {
  }

  /** `User.findOne({ username })`: the first user whose username is the trimmed parameter. */
  function FindUser(users: seq<User>, username: string): (r: Option<nat>)
    ensures r.Some? ==> r.value < |users| && users[r.value].username == Trim(username)
    ensures r.None? <==> forall k :: 0 <= k < |users| ==> users[k].username != Trim(username)
  {
    FindFrom(users, Trim(username), 0)
  }

  function FindFrom(users: seq<User>, name: string, i: nat): (r: Option<nat>)
    requires i <= |users|
    requires forall k :: 0 <= k < i ==> users[k].username != name
    ensures r.Some? ==> r.value < |users| && users[r.value].username == name
    ensures r.None? <==> forall k :: 0 <= k < |users| ==> users[k].username != name
    decreases |users| - i
  {
    if i == |users| then None
    else if users[i].username == name then Some(i)
    else FindFrom(users, name, i + 1)
  }

  function ProfileOf(u: User): PublicProfile {
    PublicProfile(u.id, u.username, u.avatarUrl, u.bio, u.createdAt)
  }

  /** `getPublicProfile`: 404 for an unknown username, otherwise the public fields. */
  function GetPublicProfile(users: seq<User>, username: string): (r: Result<PublicProfile>)
    ensures r.Err? <==> forall k :: 0 <= k < |users| ==> users[k].username != Trim(username)
    ensures r.Err? ==> r == Err(404, "User not found")
    ensures r.Ok? ==> exists k :: 0 <= k < |users| && users[k].username == Trim(username) && r.value == ProfileOf(users[k])
  {
    var found := FindUser(users, username);
    if found.None? then Err(404, "User not found") else Ok(ProfileOf(users[found.value]))
  }

  /** Changing a user's e-mail or password hash never changes any public profile. */
  lemma ProfileHidesSecrets(users: seq<User>, k: nat, email: string, passwordHash: string, username: string)
    requires k < |users|
    ensures GetPublicProfile(users[k := users[k].(email := email, passwordHash := passwordHash)], username)
         == GetPublicProfile(users, username)
  {
    var changed := users[k := users[k].(email := email, passwordHash := passwordHash)];
    assert forall j :: 0 <= j < |users| ==> changed[j].username == users[j].username;
    FindSameNames(changed, users, Trim(username), 0);
  }

  /** Lookups by username only see usernames. */
  lemma {:induction false} FindSameNames(a: seq<User>, b: seq<User>, name: string, i: nat)
    requires |a| == |b| && forall j :: 0 <= j < |a| ==> a[j].username == b[j].username
    requires i <= |a| && forall k :: 0 <= k < i ==> a[k].username != name
    ensures FindFrom(a, name, i) == FindFrom(b, name, i)
    decreases |a| - i
  {
    if i < |a| && a[i].username != name {
      FindSameNames(a, b, name, i + 1);
    }
  }

  /** `Post.find({ author: id })`: the posts by one author, in collection order. */
  function PostsBy(posts: seq<Post>, id: string): (r: seq<Post>)
    ensures forall i :: 0 <= i < |r| ==> r[i].author == id
    ensures forall p :: multiset(r)[p] == if p.author == id then multiset(posts)[p] else 0
  {
    if posts == [] then []
    else
      var rest := PostsBy(posts[1..], id);
      assert posts == [posts[0]] + posts[1..];
      if posts[0].author == id then [posts[0]] + rest else rest
  }

  /**
   * What `getUserPostsByUsername` lists for a user: their posts, most recent first, each
   * formatted with that user as the populated author.
   */
  function Listing(posts: seq<Post>, user: User): (listed: seq<FormattedPost>)
    ensures forall i, j :: 0 <= i < j < |listed| ==> listed[i].createdAt >= listed[j].createdAt
  {
    var mine := PostsBy(posts, user.id);
    var sorted := PostController.SortNewestFirst(mine);
    assert PostController.NewestFirst(sorted);
    var listed := seq(|sorted|, i requires 0 <= i < |sorted| => FormatPost(sorted[i], user));
    assert forall i, j :: 0 <= i < j < |listed| ==> listed[i].createdAt >= listed[j].createdAt by {
      forall i, j | 0 <= i < j < |listed| ensures listed[i].createdAt >= listed[j].createdAt {
        assert listed[i].createdAt == sorted[i].createdAt && listed[j].createdAt == sorted[j].createdAt;
      }
    }
    listed
  }

  /**
   * `getUserPostsByUsername`: 404 for an unknown username; otherwise that user's listing
   * and `count` the number of posts in it.
   */
  function GetUserPostsByUsername(users: seq<User>, posts: seq<Post>, username: string): (r: Result<UserPosts>)
    ensures r.Err? <==> forall k :: 0 <= k < |users| ==> users[k].username != Trim(username)
    ensures r.Err? ==> r == Err(404, "User not found")
    ensures r.Ok? ==> r.value.count == |r.value.posts|
    ensures r.Ok? ==> exists k :: 0 <= k < |users| && users[k].username == Trim(username) && r.value.posts == Listing(posts, users[k])
  {
    var found := FindUser(users, username);
    if found.None? then Err(404, "User not found")
    else
      var listed := Listing(posts, users[found.value]);
      Ok(UserPosts(listed, |listed|))
  }

  /**
   * `listed` shows the posts of `sorted`, in that order, formatted with `user`, and `sorted`
   * holds exactly the user's posts of `posts`, as many copies of each as are stored.
   */
  ghost predicate ShowsAuthorsPosts(listed: seq<FormattedPost>, sorted: seq<Post>, posts: seq<Post>, user: User) {
    && |sorted| == |listed|
    && (forall p :: multiset(sorted)[p] == if p.author == user.id then multiset(posts)[p] else 0)
    && (forall i :: 0 <= i < |sorted| ==> sorted[i].author == user.id && listed[i] == FormatPost(sorted[i], user))
  }

  /** A listing holds exactly the user's posts, each formatted with that user. */
  lemma ListingIsTheAuthors(posts: seq<Post>, user: User)
    ensures exists sorted :: ShowsAuthorsPosts(Listing(posts, user), sorted, posts, user)
  {
    var sorted := PostController.SortNewestFirst(PostsBy(posts, user.id));
    SortedKeepsAuthor(PostsBy(posts, user.id), user.id);
    SortedCounts(posts, user.id);
    ListingFormats(posts, user);
    assert ShowsAuthorsPosts(Listing(posts, user), sorted, posts, user);
  }

  lemma SortedCounts(posts: seq<Post>, id: string)
    ensures var sorted := PostController.SortNewestFirst(PostsBy(posts, id));
      forall p :: multiset(sorted)[p] == if p.author == id then multiset(posts)[p] else 0
  {
  }

  lemma ListingFormats(posts: seq<Post>, user: User)
    ensures var sorted := PostController.SortNewestFirst(PostsBy(posts, user.id));
      var listed := Listing(posts, user);
      |sorted| == |listed| && forall i :: 0 <= i < |sorted| ==> listed[i] == FormatPost(sorted[i], user)
  {
  }

  /** Sorting one author's posts keeps them that author's, as many of each as before. */
  lemma SortedKeepsAuthor(mine: seq<Post>, id: string)
    requires forall i :: 0 <= i < |mine| ==> mine[i].author == id
    ensures var sorted := PostController.SortNewestFirst(mine);
      forall i :: 0 <= i < |sorted| ==> sorted[i].author == id
  {
    var sorted := PostController.SortNewestFirst(mine);
    forall i | 0 <= i < |sorted| ensures sorted[i].author == id {
      assert sorted[i] in multiset(mine);
    }
  }

  /** An unknown username gets the same 404 from the profile and from the posts endpoint. */
  lemma UnknownUserBothEndpoints(users: seq<User>, posts: seq<Post>, username: string)
    requires forall k :: 0 <= k < |users| ==> users[k].username != Trim(username)
    ensures GetPublicProfile(users, username) == Err(404, "User not found")
    ensures GetUserPostsByUsername(users, posts, username) == Err(404, "User not found")
  {
  }
}
