/**
 * The post document and its embedded comments (backend/src/models/Post.js): the fields a
 * post and a comment carry and the constraints the schema enforces when a document is
 * saved (required fields, `trim`, `maxlength`).  `likes` is a plain array of user ids and
 * `comments` an ordered array of comment subdocuments; the schema itself enforces nothing
 * about duplicates among the likes.
 */
module PostModel {
  import opened Options
  import opened Text
  import ObjectIds

  const MaxContentLength := 280
  const MaxCommentLength := 500

  /** The media descriptor the profile projection reads from `post.media`. */
  datatype MediaInfo = MediaInfo(url: string, mimeType: string, originalName: string, size: nat)

  /** A comment subdocument: its id, author, text and creation time. */
  datatype Comment = Comment(id: string, author: string, text: string, createdAt: nat)

  /**
   * A post document.  Times are abstract clock readings; `updatedAt` is maintained by the
   * schema's `timestamps` option.  The schema declares no `media` path, so every post this
   * model creates has `media == None`.
   */
  datatype Post = Post(
    id: string,
    author: string,
    content: string,
    media: Option<MediaInfo>,
    likes: seq<string>,
    comments: seq<Comment>,
    createdAt: nat,
    updatedAt: nat)

  /** The outcome of running the schema's casts and validators on a new document. */
  datatype Validated<T> = Valid(value: T) | Invalid(message: string)

  /** A stored comment: an author, and a text that is trimmed, non-empty, at most 500 long. */
  predicate ValidComment(c: Comment) {
    && ObjectIds.IsCanonical(c.author)
    && c.text != [] && Trim(c.text) == c.text && |c.text| <= MaxCommentLength
  }

  /** A stored post: an author, trimmed non-empty content of at most 280, valid comments. */
  predicate ValidPost(p: Post) {
    && ObjectIds.IsCanonical(p.id)
    && ObjectIds.IsCanonical(p.author)
    && p.content != [] && Trim(p.content) == p.content && |p.content| <= MaxContentLength
    && (forall i :: 0 <= i < |p.likes| ==> ObjectIds.IsCanonical(p.likes[i]))
    && (forall i :: 0 <= i < |p.comments| ==> ValidComment(p.comments[i]))
  }

  /**
   * Saving a new comment subdocument: the author is required, the text is trimmed, then it
   * must be non-empty and at most 500 characters; `createdAt` defaults to now.
   */
  function CastComment(id: string, author: Option<string>, text: string, now: nat): (r: Validated<Comment>)
    requires author.Some? ==> ObjectIds.IsCanonical(author.value)
    ensures r.Valid? <==> author.Some? && Trim(text) != [] && |Trim(text)| <= MaxCommentLength
    ensures r.Valid? ==> ValidComment(r.value)
    ensures r.Valid? ==> r.value == Comment(id, author.value, Trim(text), now)
  {
    var t := Trim(text);
    TrimIdempotent(text);
    if author.None? then Invalid("Path `author` is required.")
    else if t == [] then Invalid("Comment text is required")
    else if |t| > MaxCommentLength then Invalid("Comment must not exceed 500 characters")
    else Valid(Comment(id, author.value, t, now))
  }

  /**
   * Saving a new post: the author is required, the content is trimmed, then it must be
   * non-empty and at most 280 characters; likes and comments start empty, and `createdAt`
   * and `updatedAt` are both the creation time.
   */
  function CastPost(id: string, author: Option<string>, content: string, now: nat): (r: Validated<Post>)
    requires ObjectIds.IsCanonical(id)
    requires author.Some? ==> ObjectIds.IsCanonical(author.value)
    ensures r.Valid? <==> author.Some? && Trim(content) != [] && |Trim(content)| <= MaxContentLength
    ensures r.Valid? ==> ValidPost(r.value)
    ensures r.Valid? ==> r.value == Post(id, author.value, Trim(content), None, [], [], now, now)
  {
    var t := Trim(content);
    TrimIdempotent(content);
    if author.None? then Invalid("Post author is required")
    else if t == [] then Invalid("Post content is required")
    else if |t| > MaxContentLength then Invalid("Post must not exceed 280 characters")
    else Valid(Post(id, author.value, t, None, [], [], now, now))
  }

  /** The schema alone lets a user id appear twice among the likes. */
  lemma SchemaAllowsRepeatedLikes(p: Post, u: string)
    requires ValidPost(p) && ObjectIds.IsCanonical(u)
    ensures ValidPost(p.(likes := [u, u]))
    ensures var q := p.(likes := [u, u]); q.likes[0] == q.likes[1]
  {
  }
}
