/**
 * MongoDB ObjectId strings as the controllers meet them: a route parameter is a valid id
 * when it is 24 hexadecimal digits (either case); two spellings that differ only in the
 * case of the hex letters name the same 12-byte id, whose canonical spelling is lower case.
 */
module ObjectIds {
  import opened Text

  predicate IsHexDigit(c: char) {
    IsDigit(c) || ('a' <= c <= 'f') || ('A' <= c <= 'F')
  }

  /** `ObjectId.isValid(s)` for a string, and the test a Mongoose cast to ObjectId applies. */
  predicate IsValid(s: string) {
    |s| == 24 && forall i :: 0 <= i < |s| ==> IsHexDigit(s[i])
  }

  /** The spelling `new ObjectId(s).toString()` gives back: lower-case hex. */
  function Canonical(s: string): (r: string)
    ensures |r| == |s|
    ensures IsValid(s) ==> IsValid(r)
  {
    Lower(s)
  }

  /** A stored id, as the database hands ids out: valid and lower case. */
  predicate IsCanonical(s: string) {
    IsValid(s) && forall i :: 0 <= i < |s| ==> !IsUpper(s[i])
  }

  /** Canonical spellings are canonical, and canonical ids are their own spelling. */
  lemma CanonicalProperties(s: string)
    requires IsValid(s)
    ensures IsCanonical(Canonical(s))
    ensures IsCanonical(s) ==> Canonical(s) == s
  {
  }
}
