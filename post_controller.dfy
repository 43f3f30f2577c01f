/**
 * The post handlers (backend/src/controllers/post.controller.js) over an in-memory copy of
 * the `posts` collection.  Each mutating handler validates its input first, then loads the
 * post (a malformed id makes the load throw, which the handler turns into 500), checks
 * existence (404) before ownership (403), changes the loaded document and saves it.  Like
 * toggles and new comments are announced to connected clients; a missing socket server is
 * swallowed and changes neither the reply nor the saved post.
 */
module PostController {
  import opened Options
  import opened Text
  import ObjectIds
  import opened PostModel
  import opened Results

  /** The body of a like toggle reply, also the payload of `post:liked`. */
  datatype LikeReply = LikeReply(likesCount: nat, liked: bool)

  /** What `io.emit` sent to every connected client. */
  datatype Event =
    | PostLiked(postId: string, likesCount: nat, liked: bool)
    | PostCommented(postId: string, commentsCount: nat)

  /** A comment as `addComment` and `getComments` return it. */
  datatype CommentView = CommentView(id: string, text: string, authorId: string, createdAt: nat)

  datatype CommentList = CommentList(comments: seq<CommentView>, count: nat)

  /** A post as the public feed returns it: counts instead of the arrays. */
  datatype PostSummary = PostSummary(
    id: string, content: string, authorId: string,
    likesCount: nat, commentsCount: nat, createdAt: nat, updatedAt: nat)

  datatype Feed = Feed(posts: seq<PostSummary>, count: nat)

  /** How `Post.findById(id)` ends: a cast error, no document, or the document at `index`. */
  datatype Lookup = BadId | Missing | Found(index: nat)

  predicate NoDuplicates<T(==)>(s: seq<T>) {
    forall i, j :: 0 <= i < j < |s| ==> s[i] != s[j]
  }

  predicate UniqueIds(posts: seq<Post>) {
    forall i, j :: 0 <= i < j < |posts| ==> posts[i].id != posts[j].id
  }

  /** `Array.prototype.findIndex` with `===`: the first position of `x`, or -1. */
  function FindIndex<T(==)>(s: seq<T>, x: T): (k: int)
    ensures -1 <= k < |s|
    ensures k == -1 <==> x !in s
    ensures k >= 0 ==> s[k] == x && forall i :: 0 <= i < k ==> s[i] != x
  {
    if s == [] then -1
    else if s[0] == x then 0
    else var k := FindIndex(s[1..], x); if k == -1 then -1 else k + 1
  }

  /** `Post.findById(id)` over the collection. */
  function Locate(posts: seq<Post>, id: string): (r: Lookup)
    ensures r.Found? ==> r.index < |posts| && posts[r.index].id == ObjectIds.Canonical(id)
    ensures r == BadId <==> !ObjectIds.IsValid(id)
    ensures r == Missing <==> ObjectIds.IsValid(id) && forall i :: 0 <= i < |posts| ==> posts[i].id != ObjectIds.Canonical(id)
  {
    if !ObjectIds.IsValid(id) then BadId
    else
      var ids := seq(|posts|, i requires 0 <= i < |posts| => posts[i].id);
      assert forall i :: 0 <= i < |posts| ==> ids[i] == posts[i].id;
      var k := FindIndex(ids, ObjectIds.Canonical(id));
      if k == -1 then Missing else Found(k)
  }

  /** The validation both `createPost` and `updatePost` run before touching the database. */
  function ContentError(content: Option<string>): (err: Option<string>)
    ensures err.None? <==> content.Some? && Trim(content.value) != [] && |content.value| <= MaxContentLength
  {
    if content.None? || Trim(content.value) == [] then Some("Post content is required")
    else if |content.value| > MaxContentLength then Some("Post content must not exceed 280 characters")
    else None
  }

  /** Content the handlers let through always passes the schema's own validators. */
  lemma AdmittedContentIsValid(id: string, author: string, content: Option<string>, now: nat)
    requires ObjectIds.IsCanonical(id) && ObjectIds.IsCanonical(author)
    requires ContentError(content).None?
    ensures CastPost(id, Some(author), content.value, now).Valid?
  {
  }

  /**
   * The `likes.findIndex` / `splice` / `push` step of `likePost`: an absent user is
   * appended, a present one is removed at its first position.
   */
  function ToggleLike(likes: seq<string>, user: string): (r: seq<string>)
    ensures user !in likes ==> r == likes + [user]
    ensures user in likes ==> |r| == |likes| - 1
  {
    var k := FindIndex(likes, user);
    if k == -1 then likes + [user] else likes[..k] + likes[k + 1..]
  }

  /** The reply's `liked` is true exactly when the user had not liked the post. */
  lemma ToggleLikeCount(likes: seq<string>, user: string)
    requires NoDuplicates(likes)
    ensures user in ToggleLike(likes, user) <==> user !in likes
    ensures |ToggleLike(likes, user)| == if user in likes then |likes| - 1 else |likes| + 1
    ensures forall v :: v != user ==> (v in ToggleLike(likes, user) <==> v in likes)
  {
    var k := FindIndex(likes, user);
    if k != -1 {
      var r := ToggleLike(likes, user);
      assert r == likes[..k] + likes[k + 1..];
      assert forall i :: 0 <= i < |r| ==> r[i] == (if i < k then likes[i] else likes[i + 1]);
      forall v | v != user ensures v in r <==> v in likes {
        if v in likes {
          var j :| 0 <= j < |likes| && likes[j] == v;
          assert j != k;
          assert r[if j < k then j else j - 1] == v;
        }
      }
    }
  }

  /** A like list without repeats stays without repeats after a toggle. */
  lemma ToggleKeepsNoDuplicates(likes: seq<string>, user: string)
    requires NoDuplicates(likes)
    ensures NoDuplicates(ToggleLike(likes, user))
  {
    var k := FindIndex(likes, user);
    var r := ToggleLike(likes, user);
    if k != -1 {
      assert forall i :: 0 <= i < |r| ==> r[i] == (if i < k then likes[i] else likes[i + 1]);
    }
  }

  /**
   * Two toggles by the same user give back the same likes as a set and the same count; when
   * the user had not liked the post, they give back the very same list.
   */
  lemma ToggleTwice(likes: seq<string>, user: string)
    requires NoDuplicates(likes)
    ensures var back := ToggleLike(ToggleLike(likes, user), user);
      && |back| == |likes|
      && (forall v :: v in back <==> v in likes)
      && (user !in likes ==> back == likes)
  {
    var once := ToggleLike(likes, user);
    ToggleLikeCount(likes, user);
    ToggleKeepsNoDuplicates(likes, user);
    ToggleLikeCount(once, user);
    if user !in likes {
      var k := FindIndex(once, user);
      assert once[|likes|] == user;
      assert k == |likes|;
      assert once[..k] == likes;
    }
  }

  /** `post.content = content.trim()` and save: `updatedAt` moves only if the text changed. */
  function Edited(p: Post, content: string, now: nat): (q: Post)
    ensures q.content == Trim(content)
    ensures q == p.(content := q.content, updatedAt := q.updatedAt)
    ensures q.updatedAt == (if Trim(content) == p.content then p.updatedAt else now)
  {
    var t := Trim(content);
    p.(content := t, updatedAt := if t == p.content then p.updatedAt else now)
  }

  function ViewOf(c: Comment): CommentView {
    CommentView(c.id, c.text, c.author, c.createdAt)
  }

  /** `getAllPosts`'s projection of one post. */
  function Summary(p: Post): (s: PostSummary)
    ensures s.id == p.id && s.content == p.content && s.authorId == p.author
    ensures s.likesCount == |p.likes| && s.commentsCount == |p.comments|
    ensures s.createdAt == p.createdAt && s.updatedAt == p.updatedAt
  {
    PostSummary(p.id, p.content, p.author, |p.likes|, |p.comments|, p.createdAt, p.updatedAt)
  }

  /** Most recent first: the order of `.sort({ createdAt: -1 })`. */
  predicate NewestFirst(s: seq<Post>) {
    forall i, j :: 0 <= i < j < |s| ==> s[i].createdAt >= s[j].createdAt
  }

  function InsertByDate(p: Post, s: seq<Post>): (r: seq<Post>)
    requires NewestFirst(s)
    ensures NewestFirst(r)
    ensures multiset(r) == multiset(s) + multiset{p}
    ensures |r| == |s| + 1 && (r[0] == p || (s != [] && r[0] == s[0]))
  {
    if s == [] || p.createdAt >= s[0].createdAt then [p] + s
    else
      var rest := InsertByDate(p, s[1..]);
      assert multiset(s) == multiset{s[0]} + multiset(s[1..]) by { assert s == [s[0]] + s[1..]; }
      assert rest[0].createdAt <= s[0].createdAt;
      [s[0]] + rest
  }

  /** The query's sort: the same posts, most recent first. */
  function SortNewestFirst(s: seq<Post>): (r: seq<Post>)
    ensures NewestFirst(r)
    ensures multiset(r) == multiset(s)
    ensures |r| == |s|
  {
    if s == [] then []
    else
      assert s == [s[0]] + s[1..];
      InsertByDate(s[0], SortNewestFirst(s[1..]))
  }

  /** Every post passes the schema, its likes have no repeats, and no two share an id. */
  predicate Consistent(posts: seq<Post>) {
    && UniqueIds(posts)
    && forall i :: 0 <= i < |posts| ==> ValidPost(posts[i]) && NoDuplicates(posts[i].likes)
  }

  /** Replacing a post by a consistent one with the same id keeps the collection consistent. */
  lemma ReplaceKeepsConsistent(posts: seq<Post>, i: nat, q: Post)
    requires Consistent(posts) && i < |posts|
    requires q.id == posts[i].id && ValidPost(q) && NoDuplicates(q.likes)
    ensures Consistent(posts[i := q])
  {
  }

  /** Removing a post keeps the collection consistent. */
  lemma RemoveKeepsConsistent(posts: seq<Post>, i: nat)
    requires Consistent(posts) && i < |posts|
    ensures Consistent(posts[..i] + posts[i + 1..])
  {
    var r := posts[..i] + posts[i + 1..];
    assert forall k :: 0 <= k < |r| ==> r[k] == posts[if k < i then k else k + 1];
  }

  /** Appending a consistent post with a new id keeps the collection consistent. */
  lemma AppendKeepsConsistent(posts: seq<Post>, q: Post)
    requires Consistent(posts) && ValidPost(q) && NoDuplicates(q.likes)
    requires forall k :: 0 <= k < |posts| ==> posts[k].id != q.id
    ensures Consistent(posts + [q])
  {
  }

  /** The post after `likePost` saved it: the like toggled, `updatedAt` moved to now. */
  function LikeToggled(p: Post, user: string, now: nat): Post {
    p.(likes := ToggleLike(p.likes, user), updatedAt := now)
  }

  /** A toggle by a stored user keeps a consistent post consistent. */
  lemma ToggleKeepsValid(p: Post, user: string, now: nat)
    requires ValidPost(p) && NoDuplicates(p.likes) && ObjectIds.IsCanonical(user)
    ensures var q := LikeToggled(p, user, now); ValidPost(q) && NoDuplicates(q.likes) && q.id == p.id
    ensures user in LikeToggled(p, user, now).likes <==> user !in p.likes
  {
    ToggleLikeCount(p.likes, user);
    ToggleKeepsNoDuplicates(p.likes, user);
    ToggleKeepsCanonical(p.likes, user);
    LikesOnlyChanged(p, LikeToggled(p, user, now));
  }

  /** A toggle by a stored user leaves only canonical ids in the list. */
  lemma ToggleKeepsCanonical(likes: seq<string>, user: string)
    requires ObjectIds.IsCanonical(user) && forall i :: 0 <= i < |likes| ==> ObjectIds.IsCanonical(likes[i])
    ensures var r := ToggleLike(likes, user); forall i :: 0 <= i < |r| ==> ObjectIds.IsCanonical(r[i])
  {
    var r := ToggleLike(likes, user);
    var k := FindIndex(likes, user);
    if k != -1 {
      assert forall i :: 0 <= i < |r| ==> r[i] == (if i < k then likes[i] else likes[i + 1]);
    }
  }

  /** A post that differs from a valid one only in canonical likes and its timestamps is valid. */
  lemma LikesOnlyChanged(p: Post, q: Post)
    requires ValidPost(p) && q.id == p.id && q.author == p.author && q.content == p.content && q.comments == p.comments
    requires forall i :: 0 <= i < |q.likes| ==> ObjectIds.IsCanonical(q.likes[i])
    ensures ValidPost(q)
  {
  }

  /** The in-memory `posts` collection and the socket server's outbox. */
  class PostStore {
    var posts: seq<Post>
    var events: seq<Event>

    /** Every stored post passes the schema, its likes have no repeats, and ids are unique. */
    ghost predicate Valid()
      reads this
    {
      Consistent(posts)
    }

    constructor ()
      ensures Valid() && posts == [] && events == []
    {
      posts, events := [], [];
    }

    /** `createPost`: validate, then insert the trimmed content with empty likes and comments. */
    method CreatePost(actor: string, content: Option<string>, newId: string, now: nat) returns (r: Result<Post>)
      requires Valid()
      requires ObjectIds.IsCanonical(actor) && ObjectIds.IsCanonical(newId)
      modifies this
      ensures Valid() && events == old(events)
      ensures ContentError(content).Some? ==> r == Err(400, ContentError(content).value) && posts == old(posts)
      ensures ContentError(content).None? && Locate(old(posts), newId).Found? ==>
        r == Err(500, "Server error while creating post") && posts == old(posts)
      ensures r.Ok? <==> ContentError(content).None? && !Locate(old(posts), newId).Found?
      ensures r.Ok? ==>
        && r.value == Post(newId, actor, Trim(content.value), None, [], [], now, now)
        && posts == old(posts) + [r.value]
    {
      var err := ContentError(content);
      if err.Some? {
        return Err(400, err.value);
      }
      ObjectIds.CanonicalProperties(newId);
      if Locate(posts, newId).Found? {
        // inserting a second document with the same _id fails
        return Err(500, "Server error while creating post");
      }
      AdmittedContentIsValid(newId, actor, content, now);
      var cast := CastPost(newId, Some(actor), content.value, now);
      var post := cast.value;
      AppendKeepsConsistent(posts, post);
      posts := posts + [post];
      r := Ok(post);
    }

    /** `updatePost`: validate, 404, 403, then replace the content with its trim. */
    method UpdatePost(actor: string, id: string, content: Option<string>, now: nat) returns (r: Result<Post>)
      requires Valid()
      modifies this
      ensures Valid() && events == old(events)
      ensures r.Err? ==> posts == old(posts)
      ensures ContentError(content).Some? ==> r == Err(400, ContentError(content).value)
      ensures ContentError(content).None? ==>
        match Locate(old(posts), id)
        case BadId => r == Err(500, "Server error while updating post")
        case Missing => r == Err(404, "Post not found")
        case Found(i) =>
          if old(posts)[i].author != actor then r == Err(403, "You are not authorized to edit this post")
          else r == Ok(Edited(old(posts)[i], content.value, now)) && posts == old(posts)[i := r.value]
    {
      var err := ContentError(content);
      if err.Some? {
        return Err(400, err.value);
      }
      var found := Locate(posts, id);
      if found == BadId {
        return Err(500, "Server error while updating post");
      }
      if found == Missing {
        return Err(404, "Post not found");
      }
      var i := found.index;
      var post := posts[i];
      if post.author != actor {
        return Err(403, "You are not authorized to edit this post");
      }
      post := Edited(post, content.value, now);
      assert Consistent(posts[i := post]) by {
        TrimIdempotent(content.value);
        assert ValidPost(post);
        ReplaceKeepsConsistent(posts, i, post);
      }
      posts := posts[i := post];
      r := Ok(post);
    }

    /** `deletePost`: 404, 403, then remove the post (with its likes and comments). */
    method DeletePost(actor: string, id: string) returns (r: Result<()>)
      requires Valid()
      modifies this
      ensures Valid() && events == old(events)
      ensures r.Err? ==> posts == old(posts)
      ensures match Locate(old(posts), id)
        case BadId => r == Err(500, "Server error while deleting post")
        case Missing => r == Err(404, "Post not found")
        case Found(i) =>
          if old(posts)[i].author != actor then r == Err(403, "You are not authorized to delete this post")
          else r == Ok(()) && posts == old(posts)[..i] + old(posts)[i + 1..]
    {
      var found := Locate(posts, id);
      if found == BadId {
        return Err(500, "Server error while deleting post");
      }
      if found == Missing {
        return Err(404, "Post not found");
      }
      var i := found.index;
      if posts[i].author != actor {
        return Err(403, "You are not authorized to delete this post");
      }
      var rest := posts[..i] + posts[i + 1..];
      assert Consistent(rest) by {
        RemoveKeepsConsistent(posts, i);
      }
      posts := rest;
      r := Ok(());
    }

    /**
     * `likePost`: any signed-in user toggles their own like; the reply and the event carry
     * the new count, and `liked` says whether the user is now among the likes.
     */
    method LikePost(actor: string, id: string, now: nat, socketUp: bool) returns (r: Result<LikeReply>)
      requires Valid() && ObjectIds.IsCanonical(actor)
      modifies this
      ensures Valid()
      ensures r.Err? ==> posts == old(posts) && events == old(events)
      ensures match Locate(old(posts), id)
        case BadId => r == Err(500, "Server error while liking post")
        case Missing => r == Err(404, "Post not found")
        case Found(i) =>
          var q := LikeToggled(old(posts)[i], actor, now);
          && r == Ok(LikeReply(|q.likes|, actor in q.likes))
          && posts == old(posts)[i := q]
          && events == old(events) + (if socketUp then [PostLiked(id, |q.likes|, actor in q.likes)] else [])
    {
      var found := Locate(posts, id);
      if found == BadId {
        return Err(500, "Server error while liking post");
      }
      if found == Missing {
        return Err(404, "Post not found");
      }
      var i := found.index;
      var likes := posts[i].likes;
      var likeIndex := FindIndex(likes, actor);
      var liked: bool;
      if likeIndex > -1 {
        likes := likes[..likeIndex] + likes[likeIndex + 1..];
        liked := false;
      } else {
        likes := likes + [actor];
        liked := true;
      }
      var post := LikeToggled(posts[i], actor, now);
      assert likes == post.likes && liked == (actor in post.likes) && Consistent(posts[i := post]) by {
        ToggleKeepsValid(posts[i], actor, now);
        ReplaceKeepsConsistent(posts, i, post);
      }
      posts := posts[i := post];
      if socketUp {
        events := events + [PostLiked(id, |likes|, liked)];
      }
      r := Ok(LikeReply(|post.likes|, liked));
    }

    /**
     * `addComment`: a blank text is refused before the lookup; otherwise the trimmed text is
     * appended with the actor as author.  A text longer than 500 after trimming fails the
     * schema on save and is reported as a server error, with nothing stored.
     */
    method AddComment(actor: string, id: string, text: Option<string>, newCommentId: string, now: nat, socketUp: bool)
      returns (r: Result<CommentView>)
      requires Valid() && ObjectIds.IsCanonical(actor)
      modifies this
      ensures Valid()
      ensures r.Err? ==> posts == old(posts) && events == old(events)
      ensures text.None? || Trim(text.value) == [] ==> r == Err(400, "Comment text is required")
      ensures text.Some? && Trim(text.value) != [] ==>
        match Locate(old(posts), id)
        case BadId => r == Err(500, "Server error while adding comment")
        case Missing => r == Err(404, "Post not found")
        case Found(i) =>
          var p := old(posts)[i];
          var c := Comment(newCommentId, actor, Trim(text.value), now);
          if |Trim(text.value)| > MaxCommentLength then r == Err(500, "Server error while adding comment")
          else
            && r == Ok(ViewOf(c))
            && posts == old(posts)[i := p.(comments := p.comments + [c], updatedAt := now)]
            && events == old(events) + (if socketUp then [PostCommented(id, |p.comments| + 1)] else [])
    {
      if text.None? || Trim(text.value) == [] {
        return Err(400, "Comment text is required");
      }
      var found := Locate(posts, id);
      if found == BadId {
        return Err(500, "Server error while adding comment");
      }
      if found == Missing {
        return Err(404, "Post not found");
      }
      var i := found.index;
      var post := posts[i];
      var cast := CastComment(newCommentId, Some(actor), text.value, now);
      if cast.Invalid? {
        // post.save() rejects the document; nothing is written
        return Err(500, "Server error while adding comment");
      }
      var comment := cast.value;
      post := post.(comments := post.comments + [comment], updatedAt := now);
      assert Consistent(posts[i := post]) by {
        assert ValidPost(post);
        ReplaceKeepsConsistent(posts, i, post);
      }
      posts := posts[i := post];
      if socketUp {
        events := events + [PostCommented(id, |post.comments|)];
      }
      r := Ok(ViewOf(comment));
    }

    /** `getComments`: every comment of the post, in stored order, and their number. */
    method GetComments(id: string) returns (r: Result<CommentList>)
      ensures match Locate(posts, id)
        case BadId => r == Err(500, "Server error while fetching comments")
        case Missing => r == Err(404, "Post not found")
        case Found(i) =>
          && r.Ok?
          && r.value.count == |r.value.comments| == |posts[i].comments|
          && forall k :: 0 <= k < |posts[i].comments| ==> r.value.comments[k] == ViewOf(posts[i].comments[k])
    {
      var found := Locate(posts, id);
      if found == BadId {
        return Err(500, "Server error while fetching comments");
      }
      if found == Missing {
        return Err(404, "Post not found");
      }
      var comments := posts[found.index].comments;
      var views := seq(|comments|, k requires 0 <= k < |comments| => ViewOf(comments[k]));
      r := Ok(CommentList(views, |views|));
    }

    /**
     * `getAllPosts`: every stored post once, most recent first, with its like and comment
     * counts, and `count` the number of posts returned.
     */
    method GetAllPosts() returns (feed: Feed)
      ensures feed.count == |feed.posts| == |posts|
      ensures forall i, j :: 0 <= i < j < |feed.posts| ==> feed.posts[i].createdAt >= feed.posts[j].createdAt
      ensures exists sorted: seq<Post> ::
        && multiset(sorted) == multiset(posts)
        && |sorted| == |feed.posts|
        && forall k :: 0 <= k < |sorted| ==> feed.posts[k] == Summary(sorted[k])
    {
      var sorted := SortNewestFirst(posts);
      var summaries := seq(|sorted|, k requires 0 <= k < |sorted| => Summary(sorted[k]));
      feed := Feed(summaries, |summaries|);
      assert forall k :: 0 <= k < |sorted| ==> feed.posts[k] == Summary(sorted[k]);
    }
  }
}
