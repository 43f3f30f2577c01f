/**
 * The post composer (frontend/src/components/post/PostComposer.jsx): its text, optional
 * attachment, error line and sign-in prompt as component state, the draft it keeps in
 * `localStorage` under `postDraft`, and the checks it applies before sending a post.  The
 * request itself is a parameter: the server's answer is passed in.
 */
module PostComposer {
  import opened Options
  import opened Text
  import PostController
  import PostModel

  const MaxLength := 520
  const MaxAttachmentSize := 5 * 1024 * 1024
  const InvalidAttachmentMessage := "Invalid attachment type. Please choose an image or a video."
  const AttachmentTooLargeMessage := "File size too large. Maximum size is 5MB."
  const DefaultFailureMessage := "Failed to create post"

  /** A chosen file: its `type` and `size`. */
  datatype Attachment = Attachment(mimeType: string, size: nat)

  /** What `handleSubmit` posts: the text as typed and, as multipart form data, the attachment if any. */
  datatype Request = Request(content: string, media: Option<Attachment>)

  /** How the create request ended: created, or failed with the server's message if any. */
  datatype Outcome = Created | Failed(serverMessage: Option<string>)

  predicate StartsWith(s: string, prefix: string) {
    |prefix| <= |s| && s[..|prefix|] == prefix
  }

  /** `maxLength - content.length`; negative once the text is too long. */
  function RemainingChars(content: string): (n: int)
    ensures n < 0 <==> |content| > MaxLength
    ensures n + |content| == MaxLength
  {
    MaxLength - |content|
  }

  /** The guard at the top of `handleSubmit`. */
  predicate CanSubmit(content: string) {
    Trim(content) != [] && |content| <= MaxLength
  }

  /** The submit button's `disabled` expression. */
  predicate SubmitDisabled(submitting: bool, content: string) {
    submitting || Trim(content) == [] || RemainingChars(content) < 0
  }

  /** When no request is running, the button is enabled exactly when the handler would send. */
  lemma ButtonMatchesGuard(content: string)
    ensures !SubmitDisabled(false, content) <==> CanSubmit(content)
  {
  }

  /** `handleMediaSelect`'s checks: the type first (an image or a video), then the size. */
  function AttachmentError(file: Attachment): (e: Option<string>)
    ensures e.None? <==>
      (StartsWith(file.mimeType, "image/") || StartsWith(file.mimeType, "video/")) && file.size <= MaxAttachmentSize
    ensures !(StartsWith(file.mimeType, "image/") || StartsWith(file.mimeType, "video/")) ==>
      e == Some(InvalidAttachmentMessage)
    ensures (StartsWith(file.mimeType, "image/") || StartsWith(file.mimeType, "video/")) && file.size > MaxAttachmentSize ==>
      e == Some(AttachmentTooLargeMessage)
  {
    if !(StartsWith(file.mimeType, "image/") || StartsWith(file.mimeType, "video/")) then Some(InvalidAttachmentMessage)
    else if file.size > MaxAttachmentSize then Some(AttachmentTooLargeMessage)
    else None
  }

  /** What the draft effect leaves in storage for a given text. */
  function DraftFor(content: string): (d: Option<string>)
    ensures d.Some? <==> !IsBlank(content)
    ensures d.Some? ==> d.value == content
  {
    if Trim(content) != [] then Some(content) else None
  }

  /** `err.response?.data?.message || 'Failed to create post'`. */
  function FailureMessage(serverMessage: Option<string>): (m: string)
    ensures m != []
    ensures serverMessage.Some? && serverMessage.value != [] ==> m == serverMessage.value
    ensures !(serverMessage.Some? && serverMessage.value != []) ==> m == DefaultFailureMessage
  {
    if serverMessage.Some? && serverMessage.value != [] then serverMessage.value else DefaultFailureMessage
  }

  /**
   * Text the composer sends and the server's own check: it passes when at most 280
   * characters long, and between 281 and 520 characters the composer sends what the
   * server refuses with 400.
   */
  lemma ComposerAndServerLimits(content: string)
    requires CanSubmit(content)
    ensures |content| <= PostModel.MaxContentLength ==> PostController.ContentError(Some(content)).None?
    ensures |content| > PostModel.MaxContentLength ==>
      PostController.ContentError(Some(content)) == Some("Post content must not exceed 280 characters")
  {
  }

  class Composer {
    var content: string
    var attachment: Option<Attachment>
    var error: Option<string>
    var showAuthModal: bool
    /** The `postDraft` entry of `localStorage`. */
    var storedDraft: Option<string>

    /** Once the effects have run, storage holds the draft rule's verdict on the text. */
    ghost predicate Valid()
      reads this
    {
      storedDraft == DraftFor(content)
    }

    /**
     * Mounting: a stored non-empty draft becomes the text, then the draft effect writes the
     * text back or removes the entry.
     */
    constructor (saved: Option<string>)
      ensures Valid()
      ensures content == if saved.Some? && saved.value != [] then saved.value else []
      ensures attachment.None? && error.None? && !showAuthModal
    {
      var text := [];
      if saved.Some? && saved.value != [] {
        text := saved.value;
      }
      content := text;
      attachment := None;
      error := None;
      showAuthModal := false;
      storedDraft := DraftFor(text);
    }

    /** Typing: the text changes and the draft effect follows it. */
    method Edit(text: string)
      modifies this
      ensures Valid() && content == text
      ensures attachment == old(attachment) && error == old(error) && showAuthModal == old(showAuthModal)
    {
      content := text;
      if Trim(content) != [] {
        storedDraft := Some(content);
      } else {
        storedDraft := None;
      }
    }

    /** `handleMediaSelect`: a refused file only sets the error; an accepted one replaces the attachment and clears it. */
    method SelectMedia(file: Option<Attachment>)
      requires Valid()
      modifies this
      ensures Valid() && content == old(content) && showAuthModal == old(showAuthModal)
      ensures file.None? ==> attachment == old(attachment) && error == old(error)
      ensures file.Some? && AttachmentError(file.value).Some? ==>
        attachment == old(attachment) && error == AttachmentError(file.value)
      ensures file.Some? && AttachmentError(file.value).None? ==> attachment == file && error.None?
    {
      if file.None? {
        return;
      }
      var f := file.value;
      if !(StartsWith(f.mimeType, "image/") || StartsWith(f.mimeType, "video/")) {
        error := Some(InvalidAttachmentMessage);
        return;
      }
      if f.size > MaxAttachmentSize {
        error := Some(AttachmentTooLargeMessage);
        return;
      }
      error := None;
      attachment := file;
    }

    /** `handleRemoveMedia`: the attachment is dropped and nothing else changes. */
    method RemoveMedia()
      modifies this
      ensures attachment.None?
      ensures content == old(content) && error == old(error) && showAuthModal == old(showAuthModal)
      ensures storedDraft == old(storedDraft)
    {
      attachment := None;
    }

    /**
     * `handleSubmit`: nothing happens unless the guard holds; a signed-out user gets the
     * sign-in prompt and no request; otherwise the text is sent as typed (untrimmed), and a
     * created post clears the text, the attachment and the stored draft.
     */
    method Submit(signedIn: bool, outcome: Outcome) returns (sent: Option<Request>)
      requires Valid()
      modifies this
      ensures Valid()
      ensures sent.Some? <==> CanSubmit(old(content)) && signedIn
      ensures sent.Some? ==> sent.value == Request(old(content), old(attachment))
      ensures sent.Some? ==> showAuthModal == old(showAuthModal)
      ensures !CanSubmit(old(content)) ==>
        content == old(content) && attachment == old(attachment) && error == old(error) && showAuthModal == old(showAuthModal)
      ensures CanSubmit(old(content)) && !signedIn ==>
        showAuthModal && content == old(content) && attachment == old(attachment) && error == old(error)
      ensures sent.Some? && outcome == Created ==>
        content == [] && attachment.None? && storedDraft.None? && error.None?
      ensures sent.Some? && outcome.Failed? ==>
        content == old(content) && attachment == old(attachment) && error == Some(FailureMessage(outcome.serverMessage))
    {
      if Trim(content) == [] || |content| > MaxLength {
        return None;
      }
      if !signedIn {
        showAuthModal := true;
        return None;
      }
      error := None;
      sent := Some(Request(content, attachment));
      match outcome
      case Created =>
        content := [];
        attachment := None;
        storedDraft := None;
      case Failed(message) =>
        error := Some(FailureMessage(message));
    }
  }
}
