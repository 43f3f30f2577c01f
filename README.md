# A verified model of a small social network's core

The system is a microblogging service: an Express/Mongoose backend with users, short posts,
likes, comments and media stored in GridFS, and a React frontend. This project models the
parts of it that carry its rules, in Dafny, and proves properties of the model.

- **Media range gateway** (`MediaController`). `GET /api/media/:id` checks the id, looks the
  file up, and answers with 200, 206, 400, 404 or 416. It sets the file headers and interprets
  a `Range: bytes=<first>-<last>` header. `Serve` is the reply as a function.
  `StreamMedia` sets the status, headers and body on a `ServerResponse` object step by step,
  and is proved to end in exactly `Serve`'s reply.
- **Post content tree** (`PostModel`, `PostController`). The post and comment schema and its
  validators. The post handlers run over an in-memory `posts` collection held by the
  `PostStore` class: create, update, delete, the like toggle, comments, and the feed.
  The socket server's emits are recorded in an `events` list.
- **Accounts** (`UserModel`, `AuthController`, `UserController`). The user schema with its
  setters, validators and unique indexes. Registration, login, and the avatar upload over the
  `UserStore` class. Public profiles and a user's own post listing.
- **Upload filter** (`MulterConfig`): the MIME whitelist and the 5 MiB limit.
- **Frontend checks**:
  - the post composer (`PostComposer.Composer`): attachment checks, the submit guard and the
    `localStorage` draft rule;
  - the profile page's list updates and avatar file checks (`ProfilePage`);
  - the registration form's password meter and field checks (`RegisterPage.RegisterForm`);
  - the avatar cropper's clamp and its data-URL fallback (`ImageCropper`).

Shared modules:
- `Options` and `Results` hold the reply shapes.
- `Text` models JavaScript white space, `trim`, ASCII case mapping, decimal numerals and
  searching.
- `ObjectIds` models the 24-hex-digit ids and their canonical lower-case form.
- `Bytes` and `Base64` model the standard base 64 alphabet with `=` padding, as in section 4
  of RFC 4648.

Stored documents are values in sequences, kept in insertion order. Every time is an abstract
clock reading passed in. Fresh ids, password hashing, the socket server being up, and the
outcome of frontend requests are all parameters.

## Model

| member | source | states |
|---|---|---|
| MediaController.ContentTypeOf | backend/src/controllers/media.controller.js:38 | the stored content type, or `application/octet-stream` when it is empty |
| ObjectIds.IsValid | backend/src/controllers/media.controller.js:25 | defines `ObjectId.isValid` on strings: exactly 24 hexadecimal digits |
| MediaController.SafeFilename | backend/src/controllers/media.controller.js:39 | the filename contains no `"`; an empty name becomes `media` |
| MediaController.SafeFilenameKeeps | backend/src/controllers/media.controller.js:39 | a given name keeps every character other than `"` as often as it had it |
| MediaController.FileHeaders | backend/src/controllers/media.controller.js:41-43 | exactly the three headers `Content-Type`, `Content-Disposition` and `Accept-Ranges`, the first the content type and the last `bytes` |
| MediaController.DispositionQuoted | backend/src/controllers/media.controller.js:39-42 | `Content-Disposition` is `inline; filename="…"` around the safe filename, so the quotes are its only `"` |
| MediaController.ParseRange | backend/src/controllers/media.controller.js:47 | defines the range parser: case-insensitive `bytes=`, a non-empty digit run, `-`, an optional digit run; its language is pinned by ParseRangeMatchesSyntax |
| MediaController.Satisfiable | backend/src/controllers/media.controller.js:55 | defines the 416 test: satisfiable iff first < length and, when a last position is given, first ≤ last |
| MediaController.ContentRange | backend/src/controllers/media.controller.js:62 | `bytes <first>-<last>/<length>` in decimal |
| MediaController.NotSatisfiable | backend/src/controllers/media.controller.js:48-49 | the 416 reply: file headers plus `Content-Range: bytes */<length>`, no body |
| MediaController.EffectiveLast | backend/src/controllers/media.controller.js:53 | an omitted last position is `length - 1`; a given one is clamped to `length - 1` and never exceeds what was asked |
| MediaController.ReadSpan | backend/src/controllers/media.controller.js:65 | the download of `[start, end)` has `end - start` bytes |
| MediaController.ServeFile | backend/src/controllers/media.controller.js:37-85 | status is 200, 206 or 416, and the three file headers are always present |
| MediaController.Serve | backend/src/controllers/media.controller.js:21-85 | 400 iff the id is not a valid ObjectId; 404 iff it is valid but no file has it; otherwise `Accept-Ranges: bytes` |
| MediaController.InvalidIdBeforeLookup | backend/src/controllers/media.controller.js:25-27 | an invalid id gets `400 Invalid media id` whatever the bucket holds |
| MediaController.IdCaseInsensitive | backend/src/controllers/media.controller.js:25-32 | ids differing only in hex-letter case get the same reply |
| MediaController.WholeObject | backend/src/controllers/media.controller.js:76-85 | without a range: 200, `Content-Length` is the size, the body is the whole file, and there is no `Content-Range` |
| MediaController.MalformedRange | backend/src/controllers/media.controller.js:47-50 | a header outside `^bytes=(\d+)-(\d*)$` gets 416 with `Content-Range: bytes */<length>` |
| MediaController.UnsatisfiableRange | backend/src/controllers/media.controller.js:52-57 | a well-formed range with first > last or first ≥ length gets the same 416 reply |
| MediaController.EmptyObjectRefusesRanges | backend/src/controllers/media.controller.js:53-57 | every range request on an empty file gets 416 |
| MediaController.PartialContent | backend/src/controllers/media.controller.js:59-72 | a satisfiable range gets 206 and `Content-Range: bytes first-last/length` with `last` clamped to the object; the body is exactly bytes first..last |
| MediaController.PartialLength | backend/src/controllers/media.controller.js:59-72 | the 206 reply's `Content-Length` is the decimal numeral of the body's size and reads back as that size |
| MediaController.ParseRangeMatchesSyntax | backend/src/controllers/media.controller.js:47 | the parser accepts exactly the pattern's language (with the `i` flag) and reads its two captures |
| MediaController.DashPosition | backend/src/controllers/media.controller.js:47 | in a header of the pattern's shape, the first `-` after `bytes=` separates two digit runs |
| MediaController.RangeRoundTrip | backend/src/controllers/media.controller.js:47-53 | `bytes=<first>-<last>` written in decimal parses back to the same positions |
| MediaController.FirstHundredOfFiveHundred | backend/src/controllers/media.controller.js:52-65 | `bytes=0-99` on 500 bytes gives 206, `bytes 0-99/500`, length 100 and the first 100 bytes |
| MediaController.PastTheEndOfFiveHundred | backend/src/controllers/media.controller.js:55-56 | `bytes=600-` on 500 bytes gives 416 with `bytes */500` |
| MediaController.ServerResponse.Status | backend/src/controllers/media.controller.js:61 | `res.status` changes only the status |
| MediaController.ServerResponse.SetHeader | backend/src/controllers/media.controller.js:41-43 | `res.setHeader` sets one header and nothing else |
| MediaController.ServerResponse.SendJson | backend/src/controllers/media.controller.js:26 | `res.json` sets only the body |
| MediaController.ServerResponse.Pipe | backend/src/controllers/media.controller.js:72 | piping sets only the body, to the stream's bytes |
| MediaController.StreamMedia | backend/src/controllers/media.controller.js:21-85 | the handler's effects on the response leave it holding exactly `Serve`'s reply |
| PostModel.CastComment | backend/src/models/Post.js:8-24 | a comment saves iff it has an author and its trimmed text is non-empty and at most 500 long; the saved comment holds the trimmed text and is valid |
| PostModel.ValidComment | backend/src/models/Post.js:8-19 | a stored comment: an author id, a trimmed non-empty text of at most 500 characters |
| PostModel.CastPost | backend/src/models/Post.js:26-49 | a post saves iff it has an author and its trimmed content is non-empty and at most 280 long; it starts with no likes or comments and both timestamps equal the creation time |
| PostModel.ValidPost | backend/src/models/Post.js:26-42 | a stored post: author id, trimmed non-empty content of at most 280 characters, id-valued likes and valid comments |
| PostModel.SchemaAllowsRepeatedLikes | backend/src/models/Post.js:38-41 | the schema alone accepts the same user twice among the likes |
| PostController.FindIndex | backend/src/controllers/post.controller.js:217 | the first position of the element, or -1 exactly when it is absent |
| PostController.Locate | backend/src/controllers/post.controller.js:118-124 | a malformed id is a cast error; otherwise the post with the canonical id, or missing iff none has it |
| PostController.ContentError | backend/src/controllers/post.controller.js:52-62 | content passes iff it is present, not blank, and at most 280 long |
| PostController.AdmittedContentIsValid | backend/src/controllers/post.controller.js:52-68 | content the handler lets through always passes the schema |
| PostController.ToggleLike | backend/src/controllers/post.controller.js:217-228 | an absent user is appended; a present one is removed and the list shrinks by one |
| PostController.ToggleLikeCount | backend/src/controllers/post.controller.js:216-228 | on likes without repeats, the user is in the result iff they were not before; the count moves by one; nobody else is added or removed |
| PostController.ToggleKeepsNoDuplicates | backend/src/controllers/post.controller.js:216-228 | a toggle keeps the likes free of repeats |
| PostController.ToggleTwice | backend/src/controllers/post.controller.js:216-228 | two toggles restore the same likers and count, and the very same list when the user had not liked |
| PostController.ToggleKeepsValid | backend/src/controllers/post.controller.js:216-231 | the saved post stays valid and repeat-free and keeps its id; `liked` is true iff the user had not liked |
| PostController.Edited | backend/src/controllers/post.controller.js:133-135 | only the content (now trimmed) and `updatedAt` change; `updatedAt` moves only when the text changed |
| PostController.Summary | backend/src/controllers/post.controller.js:19-31 | the feed entry carries the post's id, text, author, like and comment counts and times |
| PostController.InsertByDate | backend/src/controllers/post.controller.js:15-16 | inserting into a newest-first list keeps it newest first and adds exactly that post |
| PostController.SortNewestFirst | backend/src/controllers/post.controller.js:15-16 | `.sort({ createdAt: -1 })` gives a permutation of the posts, most recent first |
| PostController.ReplaceKeepsConsistent | backend/src/controllers/post.controller.js:134-135 | saving a valid post under its own id keeps the collection valid, repeat-free and with unique ids |
| PostController.RemoveKeepsConsistent | backend/src/controllers/post.controller.js:187 | deleting a post keeps the collection consistent |
| PostController.AppendKeepsConsistent | backend/src/controllers/post.controller.js:65-68 | inserting a valid post under a new id keeps the collection consistent |
| PostController.PostStore.CreatePost | backend/src/controllers/post.controller.js:47-93 | 400 with the validation message; otherwise the trimmed post is appended with empty likes and comments; no event |
| PostController.PostStore.UpdatePost | backend/src/controllers/post.controller.js:99-160 | validation 400, then 500 (bad id), 404, 403 for a non-author; otherwise only that post's content is replaced by its trim |
| PostController.PostStore.DeletePost | backend/src/controllers/post.controller.js:166-196 | 500, 404, or 403 for a non-author, with nothing removed; otherwise exactly that post is removed |
| PostController.PostStore.LikePost | backend/src/controllers/post.controller.js:202-253 | 500/404 change nothing; otherwise the like is toggled, the reply and the `post:liked` event carry the new count and `liked`, and the event is sent only when the socket server is up |
| PostController.PostStore.AddComment | backend/src/controllers/post.controller.js:259-326 | a blank text is 400 before the lookup; an over-long one fails the save (500) with nothing stored; otherwise the trimmed comment is appended and `post:commented` carries the new count |
| PostController.PostStore.GetComments | backend/src/controllers/post.controller.js:332-365 | every comment of the post, in stored order, with `count` equal to their number; 500/404 otherwise |
| PostController.PostStore.GetAllPosts | backend/src/controllers/post.controller.js:13-41 | the feed is a newest-first permutation of all posts, each as its summary, with `count` equal to their number |
| UserModel.NormalEmail | backend/src/models/User.js:21-22 | the `lowercase` and `trim` setters: empty iff the input is blank; no upper case and no outer white space |
| UserModel.NormalEmailTrimmed | backend/src/models/User.js:21-22 | the normal form is its own trim |
| UserModel.NormalSlice | backend/src/models/User.js:21-22 | the normal form is the lower case of the input between its leading and trailing white space, and only white space lies outside |
| UserModel.NormalOfUnspaced | backend/src/models/User.js:21-22 | an address without white space is normalised by lower-casing alone |
| UserModel.EmailPattern | backend/src/models/User.js:23 | defines `^\S+@\S+\.\S+$`: no white space, and an `@` and a later `.` each with a character before and after |
| UserModel.NormalEmailIdempotent | backend/src/models/User.js:21-22 | normalising an address twice is normalising it once |
| UserModel.CastUser | backend/src/models/User.js:8-44 | a user saves iff the trimmed username is 3–30 long, the normalised address matches `^\S+@\S+\.\S+$`, and the hash is present; the saved user has the default avatar and bio |
| UserModel.ValidUser | backend/src/models/User.js:9-37 | a stored user: trimmed username of 3 to 30, lower-case address matching the pattern, a hash, a bio of at most 200 |
| UserModel.NewUserValid | backend/src/models/User.js:8-41 | what passes the validators, with the defaults filled in, satisfies every field constraint |
| UserModel.AddKeepsUnique | backend/src/models/User.js:9-24 | adding a user whose id, username and address are all new keeps the unique indexes satisfied |
| UserModel.DefaultBioFits | backend/src/models/User.js:33-37 | the default bio is non-empty and fits the 200-character limit |
| UserController.FormatPost | backend/src/controllers/user.controller.js:9-29 | `media` is present iff the stored media has a non-empty URL, and then it is copied; the counts are the array lengths |
| UserController.FormatAgreesWithSummary | backend/src/controllers/user.controller.js:9-29 | the profile projection agrees with the feed's on id, text, counts and times |
| UserController.FindUser | backend/src/controllers/user.controller.js:39 | finds a user whose username is the trimmed parameter, or none iff no user has it |
| UserController.GetPublicProfile | backend/src/controllers/user.controller.js:35-59 | 404 iff the username is unknown; otherwise the public fields of a user with that name |
| UserController.ProfileOf | backend/src/controllers/user.controller.js:46-53 | the public fields: id, username, avatar URL, bio and creation time |
| UserController.ProfileHidesSecrets | backend/src/controllers/user.controller.js:39-54 | changing a user's e-mail or password hash never changes any public profile |
| UserController.PostsBy | backend/src/controllers/user.controller.js:74 | only that author's posts, each as often as stored |
| UserController.Listing | backend/src/controllers/user.controller.js:74-78 | the listing is most recent first |
| UserController.GetUserPostsByUsername | backend/src/controllers/user.controller.js:65-88 | 404 iff the username is unknown; otherwise that user's listing, with `count` its length |
| UserController.ListingIsTheAuthors | backend/src/controllers/user.controller.js:74-78 | the listing holds exactly the author's posts, as often as stored, each formatted with that author |
| UserController.UnknownUserBothEndpoints | backend/src/controllers/user.controller.js:39-72 | an unknown username gets the same 404 from both endpoints |
| AuthController.DuplicateKeyMessage | backend/src/controllers/auth.controller.js:80-85 | the field name with its first letter upper-cased, then ` already in use` |
| AuthController.DuplicateKeyMessages | backend/src/controllers/auth.controller.js:80-85 | the two unique paths give `Username already in use` and `Email already in use` |
| AuthController.FindByNameOrEmail | backend/src/controllers/auth.controller.js:32-34 | the first user whose username or address matches, or none iff no user matches |
| AuthController.Conflict | backend/src/controllers/auth.controller.js:31-43 | a conflict is reported only when some user has that address or username, as `Email already in use` or `Username already taken`; `Email already in use` only when some user has the address, `Username already taken` only when some user has the username under another address |
| AuthController.ConflictExact | backend/src/controllers/auth.controller.js:31-43 | for normalised input, a conflict is reported iff a user has the address or the username; the address wins when one user has both; a username held by someone while nobody has the address gives `Username already taken` |
| AuthController.Login | backend/src/controllers/auth.controller.js:95-153 | 400 without a password or without both username and address; succeeds iff a matching user's hash verifies; past the 400 check every refusal is `401 Invalid credentials`; the reply never carries the hash |
| AuthController.ViewOf | backend/src/controllers/auth.controller.js:66-75 | the user as replies show it: id, username, e-mail, avatar URL and creation time, never the hash |
| AuthController.FindByLogin | backend/src/controllers/auth.controller.js:107-112 | no user found iff none has the trimmed username or the normalised address; a found user has one of them |
| AuthController.LoginRefusalsAlike | backend/src/controllers/auth.controller.js:114-127 | a wrong password gets exactly the reply an account unknown to any store gets: `401 Invalid credentials` |
| AuthController.DataUrlRoundTrip | backend/src/controllers/auth.controller.js:206-208 | the stored avatar URL reads back as exactly the uploaded type and bytes |
| AuthController.DataUrl | backend/src/controllers/auth.controller.js:207-208 | defines the stored avatar URL `data:<mimetype>;base64,<encoding>`; DataUrlRoundTrip reads it back |
| AuthController.ParseDataUrl | backend/src/controllers/auth.controller.js:208 | reads a data URL back into its type and bytes, splitting at the last `;`; DataUrlRoundTrip shows it inverts DataUrl |
| AuthController.AvatarKeepsUsersValid | backend/src/controllers/auth.controller.js:211-215 | a new avatar keeps every user valid and the unique indexes satisfied |
| AuthController.UserStore.Register | backend/src/controllers/auth.controller.js:14-89 | 400 for a missing field or a short password, 409 for a conflict, 500 when the schema refuses, 409 from a unique index; otherwise exactly the new user is appended |
| AuthController.UserStore.UploadAvatar | backend/src/controllers/auth.controller.js:198-237 | 400 without a file, 404 for an unknown user; otherwise only that user's `avatarUrl` becomes the file's `data:` URL |
| Base64.Encode | backend/src/controllers/auth.controller.js:207 | the text is empty iff the bytes are |
| Base64.EncodedLength | backend/src/controllers/auth.controller.js:207 | the text is 4·⌈n/3⌉ characters long, a multiple of four |
| Base64.EncodeAlphabet | backend/src/controllers/auth.controller.js:207 | every character is in the alphabet `A-Z a-z 0-9 + /` or is the padding `=` |
| Base64.DecodeEncode | backend/src/controllers/auth.controller.js:207 | decoding the encoding gives back the bytes |
| Base64.EncodeHasNoSemicolon | backend/src/controllers/auth.controller.js:208 | the encoding contains no `;` and no `,`, so it cannot be confused with the URL's separators |
| MulterConfig.FileFilter | backend/src/config/multer.js:11-19 | accept iff the type is one of the four allowed; there is an error iff the file is refused |
| MulterConfig.Admit | backend/src/config/multer.js:22-28 | an upload is admitted iff its type is allowed and it is at most 5 MiB; the type is judged first |
| MulterConfig.HeicRefused | backend/src/config/multer.js:12-18 | HEIC and HEIF pictures are refused as an invalid type |
| MulterConfig.TypeCheckedFirst | backend/src/config/multer.js:11-28 | for a refused type, the refusal does not depend on the size |
| MulterConfig.LimitIsInclusive | backend/src/config/multer.js:25-27 | exactly 5 MiB passes; one byte more does not |
| PostComposer.RemainingChars | frontend/src/components/post/PostComposer.jsx:49-50 | `520 - length`, negative exactly when the text is too long |
| PostComposer.CanSubmit | frontend/src/components/post/PostComposer.jsx:87 | defines the submit guard: not blank and at most 520 characters |
| PostComposer.SubmitDisabled | frontend/src/components/post/PostComposer.jsx:245 | defines the button's `disabled`: submitting, blank, or over the limit; ButtonMatchesGuard relates it to the guard |
| PostComposer.ButtonMatchesGuard | frontend/src/components/post/PostComposer.jsx:245 | when no request runs, the button is enabled iff `handleSubmit`'s guard passes |
| PostComposer.AttachmentError | frontend/src/components/post/PostComposer.jsx:56-66 | accepted iff the type starts with `image/` or `video/` and the size is at most 5 MiB; the type is checked first, with `Invalid attachment type…`; an allowed type over 5 MiB gets `File size too large. Maximum size is 5MB.` |
| PostComposer.DraftFor | frontend/src/components/post/PostComposer.jsx:32-38 | the draft is stored iff the text is not blank, and then as typed |
| PostComposer.FailureMessage | frontend/src/components/post/PostComposer.jsx:123 | the server's message when non-empty, otherwise `Failed to create post` |
| PostComposer.ComposerAndServerLimits | frontend/src/components/post/PostComposer.jsx:85-114 | text the composer sends passes the server's check iff it is at most 280 long; from 281 to 520 the server refuses it |
| PostComposer.Composer.constructor | frontend/src/components/post/PostComposer.jsx:24-38 | a non-empty stored draft becomes the text, and storage then follows the draft rule |
| PostComposer.Composer.Edit | frontend/src/components/post/PostComposer.jsx:31-38 | the text changes and storage follows the draft rule |
| PostComposer.Composer.SelectMedia | frontend/src/components/post/PostComposer.jsx:52-75 | a refused file sets the error and keeps the old attachment; an accepted one replaces it and clears the error |
| PostComposer.Composer.RemoveMedia | frontend/src/components/post/PostComposer.jsx:77-83 | the attachment is dropped and nothing else changes |
| PostComposer.Composer.Submit | frontend/src/components/post/PostComposer.jsx:85-127 | a request is sent iff the guard holds and the user is signed in, carrying the untrimmed text and the attachment; signed out opens the prompt; a sent request leaves the prompt as it was; success clears text, attachment and draft; failure shows the message |
| ProfilePage.Prepend | frontend/src/pages/Profile.jsx:76-78 | the new post comes first and the others follow in their order |
| ProfilePage.RemoveById | frontend/src/pages/Profile.jsx:80-82 | no post with that id remains |
| ProfilePage.RemoveCounts | frontend/src/pages/Profile.jsx:80-82 | every copy of a post with that id goes; every copy of every other post stays |
| ProfilePage.RemoveDistributes | frontend/src/pages/Profile.jsx:80-82 | deletion works piece by piece over a split list, so the kept posts keep their order |
| ProfilePage.RemoveAbsent | frontend/src/pages/Profile.jsx:80-82 | deleting an id no post has changes nothing |
| ProfilePage.PrependThenRemove | frontend/src/pages/Profile.jsx:76-82 | deleting the post just created gives the list without that id |
| ProfilePage.ReplaceById | frontend/src/pages/Profile.jsx:84-88 | same length; matching positions hold the update; all other positions are unchanged |
| ProfilePage.ReplaceThenRemove | frontend/src/pages/Profile.jsx:80-88 | deleting after an update is the same as deleting |
| ProfilePage.ReplaceIdempotent | frontend/src/pages/Profile.jsx:84-88 | applying an update twice is applying it once |
| ProfilePage.ReplaceAbsent | frontend/src/pages/Profile.jsx:84-88 | an update for an id not shown changes nothing |
| ProfilePage.AvatarFileError | frontend/src/pages/Profile.jsx:90-107 | accepted iff the type is one of the six and the size is at most 5 MiB; the type is checked first |
| ProfilePage.HeicReachesServerAsJpeg | frontend/src/pages/Profile.jsx:95-100 | the page accepts HEIC, which the server's filter refuses, but the cropper's JPEG output is admitted |
| ProfilePage.IsOwnProfile | frontend/src/pages/Profile.jsx:31 | own profile iff the username route parameter is missing or empty, or equals the signed-in user's |
| ProfilePage.SignedOutSeesOthers | frontend/src/pages/Profile.jsx:31 | a signed-out visitor never sees a named profile as their own |
| RegisterPage.StrengthScore | frontend/src/pages/Register.jsx:47-54 | the score is at most 4 |
| RegisterPage.PasswordStrength | frontend/src/pages/Register.jsx:46-55 | the counter raised test by test and capped at 4 equals the five-criteria score |
| RegisterPage.StrengthMonotone | frontend/src/pages/Register.jsx:48-54 | typing one more character never lowers the score |
| RegisterPage.StrongIsLongEnough | frontend/src/pages/Register.jsx:48-54 | a score of 4 needs at least six characters |
| RegisterPage.StrengthExamples | frontend/src/pages/Register.jsx:48-54 | the empty password scores 0; `Abcdefgh12` scores 4 |
| RegisterPage.StrengthLabel | frontend/src/pages/Register.jsx:122-127 | 0 → empty, 1–2 → Weak, 3 → Good, 4 → Strong, each iff |
| RegisterPage.StrengthColor | frontend/src/pages/Register.jsx:115-120 | grey, red, yellow and green exactly where the label is empty, Weak, Good and Strong |
| RegisterPage.BlurError | frontend/src/pages/Register.jsx:58-82 | blank gives `<Field> is required`; then an address outside `^[^\s@]+@[^\s@]+\.[^\s@]+$` is flagged; then a password under 6; otherwise the error is left alone |
| RegisterPage.RequiredMessage | frontend/src/pages/Register.jsx:66-70 | a blank e-mail field reads `Email is required` |
| RegisterPage.SubmitError | frontend/src/pages/Register.jsx:89-97 | passes iff all fields are non-empty (untrimmed) and the password has at least 6 characters; an empty field gets `All fields are required`, otherwise a short password gets `Password must be at least 6 characters` |
| RegisterPage.SubmitMatchesServerChecks | frontend/src/pages/Register.jsx:89-97 | the form sends exactly what passes the server's first two checks in `register` |
| RegisterPage.ClientEmailPassesSchema | frontend/src/pages/Register.jsx:71 | an address the form accepts also passes the user schema's pattern once normalised |
| RegisterPage.LowerKeepsEmailShape | frontend/src/pages/Register.jsx:71 | lower-casing an address the form accepts keeps it inside the schema's pattern |
| RegisterPage.ClientEmailPattern | frontend/src/pages/Register.jsx:71 | defines `^[^\s@]+@[^\s@]+\.[^\s@]+$`: no white space, exactly one `@`, and a later `.`, each with a character before and after |
| RegisterPage.RegisterForm.constructor | frontend/src/pages/Register.jsx:12-29 | every field empty, untouched and error-free; strength 0 |
| RegisterPage.RegisterForm.Change | frontend/src/pages/Register.jsx:31-56 | stores the value and clears that field's error; the meter follows the password |
| RegisterPage.RegisterForm.Blur | frontend/src/pages/Register.jsx:58-82 | marks the field touched and sets its error exactly when a check fails |
| RegisterPage.RegisterForm.Submit | frontend/src/pages/Register.jsx:84-113 | sends iff the checks pass; navigates iff registered; shows the server's message, `Registration failed`, or the generic error |
| ImageCropper.Clamp | frontend/src/components/common/ImageCropper.jsx:14-26 | size ≥ 64; size ≤ min(w, h) when that is ≥ 64; 0 ≤ x ≤ max(0, w − size) and 0 ≤ y ≤ max(0, h − size) |
| ImageCropper.ClampIdempotent | frontend/src/components/common/ImageCropper.jsx:14-26 | a clamp's result is within the bounds, and clamping it again changes nothing |
| ImageCropper.ClampFixes | frontend/src/components/common/ImageCropper.jsx:14-26 | every crop inside the bounds is left unchanged |
| ImageCropper.ClampNearest | frontend/src/components/common/ImageCropper.jsx:22-23 | a given corner coordinate is kept inside `[0, max(0, extent - size)]`, and lands on the nearer bound outside it |
| ImageCropper.Fallbacks | frontend/src/components/common/ImageCropper.jsx:18-23 | with every value NaN, or with a zero size and NaN positions, the crop falls back to `{0, 0, 64}` |
| ImageCropper.InitialSize | frontend/src/components/common/ImageCropper.jsx:39-40 | with b = min(w, h): 64 when 0.85·b < 64, otherwise ⌊0.85·b⌋; at least 64, and within the picture when the picture is at least 64 |
| ImageCropper.InitialCrop | frontend/src/components/common/ImageCropper.jsx:39-45 | defines the starting crop: the initial size centred on both axes, then clamped; InitialCropCentred states the result |
| ImageCropper.WithAxis | frontend/src/components/common/ImageCropper.jsx:75 | defines `{ ...crop, [axis]: value }`: only the named axis is replaced |
| ImageCropper.InitialCropCentred | frontend/src/components/common/ImageCropper.jsx:38-45 | the initial crop has the initial size and is centred on both axes |
| ImageCropper.MoveXKeepsRest | frontend/src/components/common/ImageCropper.jsx:71-78 | moving x on a clamped crop keeps y and the size |
| ImageCropper.MoveYKeepsRest | frontend/src/components/common/ImageCropper.jsx:71-78 | moving y on a clamped crop keeps x and the size |
| ImageCropper.ZoomInKeepsCorner | frontend/src/components/common/ImageCropper.jsx:71-78 | a smaller size never moves the corner |
| ImageCropper.Cropper.constructor | frontend/src/components/common/ImageCropper.jsx:9-12 | starts at `{0, 0, 200}` with no picture |
| ImageCropper.Cropper.Loaded | frontend/src/components/common/ImageCropper.jsx:35-49 | the picture is kept and the crop becomes the initial crop, which is clamped |
| ImageCropper.Cropper.Failed | frontend/src/components/common/ImageCropper.jsx:31-34 | the picture is marked not loaded, with the load error |
| ImageCropper.Cropper.ChangeAxis | frontend/src/components/common/ImageCropper.jsx:71-78 | nothing without a picture; otherwise the crop with that one axis replaced, clamped |
| ImageCropper.SecondPart | frontend/src/components/common/ImageCropper.jsx:90-92 | `split(',')[1]`: present iff there is a comma; then the text from just after the first comma up to the next comma or the end, holding no comma |
| ImageCropper.FirstPart | frontend/src/components/common/ImageCropper.jsx:90-91 | `split(',')[0]`: the text up to the first comma, or all of it, holding no comma |
| ImageCropper.MatchMime | frontend/src/components/common/ImageCropper.jsx:91 | `/:(.*?);/`: the capture holds no `;` and no line terminator; MimeOfHeader shows what it reads from a canvas header |
| ImageCropper.Atob | frontend/src/components/common/ImageCropper.jsx:92 | every character of the binary string is below 256 |
| ImageCropper.AtobEncode | frontend/src/components/common/ImageCropper.jsx:92-94 | `atob` accepts any base 64 encoding, and the character codes of its result are the encoded bytes |
| ImageCropper.CharCodesOfBinary | frontend/src/components/common/ImageCropper.jsx:93-94 | copying the character codes of a binary string gives back the bytes it was built from |
| ImageCropper.CopyCharCodes | frontend/src/components/common/ImageCropper.jsx:93-94 | the array has the string's length and each element is the low eight bits of the character code |
| ImageCropper.BlobFromDataUrl | frontend/src/components/common/ImageCropper.jsx:87-95 | the fallback's step-by-step result equals `FallbackBlob` |
| ImageCropper.MimeOfHeader | frontend/src/components/common/ImageCropper.jsx:91 | `/:(.*?);/` reads the type back from `data:<type>;base64` |
| ImageCropper.FallbackRoundTrip | frontend/src/components/common/ImageCropper.jsx:87-95 | a data URL `data:<m>;base64,<encoding>` comes back as the bytes, typed as the `Blob` constructor normalises `m` |
| ImageCropper.FallbackBlob | frontend/src/components/common/ImageCropper.jsx:87-98 | defines the fallback's result: `None` without a payload or when `atob` throws, else the bytes typed by the captured type or the requested one; BlobFromDataUrl and FallbackRoundTrip state it |
| ImageCropper.BlobType | frontend/src/components/common/ImageCropper.jsx:95 | defines the `Blob` constructor's type: empty when a character lies outside U+0020 to U+007E, else lower-cased |
| ImageCropper.BlobTypeIdempotent | frontend/src/components/common/ImageCropper.jsx:95 | normalising a type twice is normalising it once |
| ImageCropper.PlainTypeKept | frontend/src/components/common/ImageCropper.jsx:95 | a printable type is kept unchanged iff it has no upper-case letter |
| ImageCropper.JpegRoundTrip | frontend/src/components/common/ImageCropper.jsx:89-95 | the `image/jpeg` data URL the cropper asks for comes back as `image/jpeg` and the same bytes |
| Text.Trim | backend/src/controllers/post.controller.js:52 | `trim()`: a slice of the input starting after its leading white space, neither starting nor ending with white space, empty iff the input is blank |
| Text.TrimIsMaximal | backend/src/controllers/post.controller.js:52 | only white space lies on either side of what `trim()` keeps |
| Text.TrimChars | backend/src/controllers/post.controller.js:52 | each kept character is the input's character at the same offset after the leading white space |
| Text.Lower | backend/src/models/User.js:21 | same length, each character lower-cased (ASCII) |
| Text.RemoveAll | backend/src/controllers/media.controller.js:39 | `replace(/c/g, '')`: no `c` remains, the result is no longer than the input, and a string without `c` is unchanged |
| Text.RemoveAllCounts | backend/src/controllers/media.controller.js:39 | every character other than `c` keeps its count |
| Text.RemoveAllDistributes | backend/src/controllers/media.controller.js:39 | removal distributes over concatenation, so the kept characters stay in order |

## Left out

- GridFS storage, streaming and stream errors: a bucket is a map from id to file, and the stream is its bytes. The 500 reply of a failing stream is not modelled.
- `Number()` on very long digit strings in the `Range` header loses precision in JavaScript. Positions here are exact naturals.
- Populated authors: posts carry the author's id. Only `formatPost` fills in the author record.
- The socket server is reduced to a flag saying whether `getIO` succeeds. Emitted events are appended to a list.
- Concurrency between requests is not modelled. Each handler runs alone on the collection.
- bcrypt, JWT and cookies are left out. Hashing and checking are function parameters, and tokens and cookies are absent.
- `getCurrentUser` and `logout` return or clear what the middleware provides. They are not modelled.
- Any exception in a handler is caught and answered with 500. Only the failures the model can cause are modelled: a malformed id and a save the schema refuses.
- Case mapping, `trim` and `\s` follow JavaScript only for ASCII letters and the ECMAScript white-space set. Non-ASCII case folding is left out.
- PostController.ContentError, PostController.PostStore.CreatePost, PostController.PostStore.UpdatePost, PostController.PostStore.AddComment, PostModel.CastPost, PostModel.CastComment, UserModel.CastUser, UserModel.DefaultBioFits, PostComposer.RemainingChars, PostComposer.CanSubmit, AuthController.UserStore.Register, RegisterPage.StrengthScore, RegisterPage.BlurError and RegisterPage.SubmitError: a string's length is its number of Unicode characters, whereas JavaScript's `.length` counts UTF-16 code units, two for each character outside the Basic Multilingual Plane. So text with such characters is measured shorter here: 150 × U+1F600 is 150 long here and 300 in JavaScript, and the model admits it as a post while the server answers 400. The limits 280, 500, 30, 200, 520, 6 and 10 hold exactly for text inside the Basic Multilingual Plane. The default bio's emoji fits either way.
- Ties in `createdAt` are sorted by insertion order here. MongoDB does not promise an order for them.
- ObjectIds.IsValid: reads `ObjectId.isValid` on a string as exactly 24 hexadecimal digits, the check of current bson releases. Older releases also accept any 12-character string; such an id gets 400 here where those releases would look it up and answer 404.
- AuthController.FindByNameOrEmail, AuthController.FindByLogin and AuthController.Conflict take the first matching user in collection order. `User.findOne` with `$or` promises no order when two different users match, one by username and one by e-mail.
- AuthController.UserStore.Register: a duplicate-key error is reported for `username` before `email`, following the schema's declaration order, when both collide.
- AuthController.UserStore.Register: a schema validation failure answers 500 with the generic message. Mongoose's combined validation message is not modelled.
- The `media` path of a post is read by `formatPost` but is not part of the post schema. Posts are created without media.
- ImageCropper.InitialSize: `0.85` is taken as the exact fraction 85/100. The double nearest 0.85 could floor differently on some sizes.
- ImageCropper.Clamp: infinite and negative-zero inputs are not modelled. `NaN` is `None`.
- ImageCropper.Atob: this follows the strict decoder. `atob` also accepts missing padding and strips ASCII white space.
- Drawing on the canvas, `canvas.toBlob`, object URLs and the upload's `FormData` are left out, and so is `handleSave` with its `Could not export cropped image` message.
- `localStorage` is a field of the composer. The three-second timers that clear error lines are left out.
- The profile page's loading effect, bio editing and navigation are left out. Only the list updates, the file checks and `isOwnProfile` are modelled.
