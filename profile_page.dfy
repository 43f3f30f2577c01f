/**
 * The profile page's own logic (frontend/src/pages/Profile.jsx): the three updates it applies
 * to the list of posts it shows, the checks on a chosen avatar picture before it goes to the
 * cropper, and whether the page shows the signed-in user's own profile.
 */
module ProfilePage {
  import opened Options
  import UserController
  import MulterConfig

  type Post = UserController.FormattedPost

  const AllowedAvatarTypes: seq<string> :=
    ["image/jpeg", "image/jpg", "image/png", "image/webp", "image/heic", "image/heif"]
  const InvalidAvatarTypeMessage := "Invalid file type. Supported: JPG, PNG, WEBP, HEIC, HEIF."
  const AvatarTooLargeMessage := "File size too large. Maximum size is 5MB."
  const MaxAvatarSize := 5 * 1024 * 1024
  /** The type the cropper gives the picture it exports. */
  const CroppedType := "image/jpeg"

  /** `handlePostCreated`: the new post first, then the list as it was. */
  function Prepend(posts: seq<Post>, created: Post): (r: seq<Post>)
    ensures |r| == |posts| + 1 && r[0] == created
    ensures forall i :: 0 <= i < |posts| ==> r[i + 1] == posts[i]
  {
    [created] + posts
  }

  /** `handlePostDeleted`: `posts.filter(post => post.id !== postId)`. */
  function RemoveById(posts: seq<Post>, id: string): (r: seq<Post>)
    ensures |r| <= |posts|
    ensures forall i :: 0 <= i < |r| ==> r[i].id != id
  {
    if posts == [] then []
    else
      var rest := RemoveById(posts[1..], id);
      if posts[0].id == id then rest else [posts[0]] + rest
  }

  /** Deletion drops every copy of a post with that id and keeps every copy of every other post. */
  lemma {:induction false} RemoveCounts(posts: seq<Post>, id: string)
    ensures forall p :: multiset(RemoveById(posts, id))[p] == if p.id == id then 0 else multiset(posts)[p]
  {
    if posts != [] {
      assert posts == [posts[0]] + posts[1..];
      RemoveCounts(posts[1..], id);
    }
  }

  /** `handlePostUpdated`: `posts.map(post => post.id === updated.id ? updated : post)`. */
  function ReplaceById(posts: seq<Post>, updated: Post): (r: seq<Post>)
    ensures |r| == |posts|
    ensures forall i :: 0 <= i < |posts| && posts[i].id != updated.id ==> r[i] == posts[i]
    ensures forall i :: 0 <= i < |posts| && posts[i].id == updated.id ==> r[i] == updated
  {
    seq(|posts|, i requires 0 <= i < |posts| => if posts[i].id == updated.id then updated else posts[i])
  }

  /** Deletion keeps the order of what it keeps: it works piece by piece over a split list. */
  lemma {:induction false} RemoveDistributes(a: seq<Post>, b: seq<Post>, id: string)
    ensures RemoveById(a + b, id) == RemoveById(a, id) + RemoveById(b, id)
  {
    if a == [] {
      assert a + b == b;
    } else {
      assert (a + b)[1..] == a[1..] + b;
      RemoveDistributes(a[1..], b, id);
    }
  }

  /** Deleting an id that no post has leaves the list as it is. */
  lemma {:induction false} RemoveAbsent(posts: seq<Post>, id: string)
    requires forall i :: 0 <= i < |posts| ==> posts[i].id != id
    ensures RemoveById(posts, id) == posts
  {
    if posts != [] {
      RemoveAbsent(posts[1..], id);
    }
  }

  /** Deleting the post just created gives the list as it would be without it. */
  lemma PrependThenRemove(posts: seq<Post>, created: Post)
    ensures RemoveById(Prepend(posts, created), created.id) == RemoveById(posts, created.id)
  {
    assert Prepend(posts, created)[1..] == posts;
  }

  /** Deleting after an update is deleting: the update leaves no trace once its id is gone. */
  lemma {:induction false} ReplaceThenRemove(posts: seq<Post>, updated: Post)
    ensures RemoveById(ReplaceById(posts, updated), updated.id) == RemoveById(posts, updated.id)
  {
    if posts != [] {
      assert ReplaceById(posts, updated)[1..] == ReplaceById(posts[1..], updated);
      ReplaceThenRemove(posts[1..], updated);
    }
  }

  /** Applying the same update twice is applying it once. */
  lemma ReplaceIdempotent(posts: seq<Post>, updated: Post)
    ensures ReplaceById(ReplaceById(posts, updated), updated) == ReplaceById(posts, updated)
  {
  }

  /** An update for a post the list does not show changes nothing. */
  lemma ReplaceAbsent(posts: seq<Post>, updated: Post)
    requires forall i :: 0 <= i < |posts| ==> posts[i].id != updated.id
    ensures ReplaceById(posts, updated) == posts
  {
  }

  /** `handleFileSelect`'s checks on a chosen picture: its type first, then its size. */
  function AvatarFileError(mimetype: string, size: nat): (e: Option<string>)
    ensures e.None? <==> mimetype in AllowedAvatarTypes && size <= MaxAvatarSize
    ensures mimetype !in AllowedAvatarTypes ==> e == Some(InvalidAvatarTypeMessage)
    ensures mimetype in AllowedAvatarTypes && size > MaxAvatarSize ==> e == Some(AvatarTooLargeMessage)
  {
    if mimetype !in AllowedAvatarTypes then Some(InvalidAvatarTypeMessage)
    else if size > MaxAvatarSize then Some(AvatarTooLargeMessage)
    else None
  }

  /**
   * The page lets HEIC pictures through that the server's filter refuses; they reach the
   * server only after the cropper has turned them into JPEG, which the filter admits.
   */
  lemma HeicReachesServerAsJpeg(size: nat, croppedSize: nat)
    requires size <= MaxAvatarSize && croppedSize <= MulterConfig.MaxFileSize
    ensures AvatarFileError("image/heic", size).None?
    ensures MulterConfig.Admit("image/heic", size).Some?
    ensures MulterConfig.Admit(CroppedType, croppedSize).None?
  {
    assert AllowedAvatarTypes[4] == "image/heic";
    MulterConfig.HeicRefused(size);
    assert MulterConfig.AllowedTypes[0] == CroppedType;
  }

  /**
   * `isOwnProfile`: no `username` in the route (an empty one counts as none), or a signed-in
   * user with that username.
   */
  function IsOwnProfile(routeUsername: Option<string>, signedIn: Option<string>): (own: bool)
    ensures routeUsername.None? ==> own
    ensures routeUsername == Some([]) ==> own
    ensures routeUsername.Some? && routeUsername.value != [] ==>
      (own <==> signedIn.Some? && signedIn.value == routeUsername.value)
  {
    routeUsername.None? || routeUsername.value == [] || (signedIn.Some? && routeUsername.value == signedIn.value)
  }

  /** Someone signed out viewing a named profile never sees it as their own. */
  lemma SignedOutSeesOthers(name: string)
    requires name != []
    ensures !IsOwnProfile(Some(name), None)
  {
  }
}
