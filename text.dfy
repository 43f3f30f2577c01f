/**
 * The pieces of JavaScript string behaviour the application relies on: white space as
 * `String.prototype.trim` and the regular-expression class `\s` see it, `trim()` itself,
 * ASCII case mapping, and decimal digit strings (regex `\d`, `Number(...)` on a digit
 * string, and a number written into a header).  A JavaScript string's `.length` counts
 * UTF-16 code units; here a string is a `seq<char>` and its length is `|s|`.
 */
module Text {

  /** ECMAScript WhiteSpace and LineTerminator: what `trim()` strips and `\s` matches. */
  predicate IsSpace(c: char) {
    || c == '\t' || c == '\n' || c == '\U{000B}' || c == '\U{000C}' || c == '\r'
    || c == ' ' || c == '\U{00A0}' || c == '\U{1680}'
    || ('\U{2000}' <= c <= '\U{200A}')
    || c == '\U{2028}' || c == '\U{2029}' || c == '\U{202F}' || c == '\U{205F}'
    || c == '\U{3000}' || c == '\U{FEFF}'
  }

  /** Every character is white space (so `s.trim()` is the empty, falsy string). */
  predicate IsBlank(s: string) {
    forall i :: 0 <= i < |s| ==> IsSpace(s[i])
  }

  /** No character is white space (regex `^\S*$`). */
  predicate NoSpace(s: string) {
    forall i :: 0 <= i < |s| ==> !IsSpace(s[i])
  }

  /** The number of white-space characters at the start of `s`. */
  function LeadingSpaces(s: string): (n: nat)
    ensures n <= |s|
    ensures forall i :: 0 <= i < n ==> IsSpace(s[i])
    ensures n == |s| || !IsSpace(s[n])
  {
    if s == [] || !IsSpace(s[0]) then 0 else 1 + LeadingSpaces(s[1..])
  }

  /** The number of white-space characters at the end of `s`. */
  function TrailingSpaces(s: string): (n: nat)
    ensures n <= |s|
    ensures forall i :: |s| - n <= i < |s| ==> IsSpace(s[i])
    ensures n == |s| || !IsSpace(s[|s| - 1 - n])
  {
    if s == [] || !IsSpace(s[|s| - 1]) then 0 else 1 + TrailingSpaces(s[..|s| - 1])
  }

  /** `s.trim()`: `s` without its leading and trailing white space. */
  function Trim(s: string): (r: string)
    ensures LeadingSpaces(s) + |r| <= |s|
    ensures r == s[LeadingSpaces(s)..LeadingSpaces(s) + |r|]
    ensures r == [] <==> IsBlank(s)
    ensures Unpadded(r)
  {
    var t := s[LeadingSpaces(s)..];
    t[..|t| - TrailingSpaces(t)]
  }

  /** The characters of `trim`'s result, read off the input. */
  lemma TrimChars(s: string)
    ensures forall i :: 0 <= i < |Trim(s)| ==> Trim(s)[i] == s[LeadingSpaces(s) + i]
  {
    var t, k := Trim(s), LeadingSpaces(s);
    assert t == s[k..k + |t|];
  }

  /** `trim` removes all the outer white space: only white space lies on either side of the result. */
  lemma TrimIsMaximal(s: string)
    ensures IsBlank(s[..LeadingSpaces(s)]) && IsBlank(s[LeadingSpaces(s) + |Trim(s)|..])
  {
    var k := LeadingSpaces(s);
    var t := s[k..];
    var m := |t| - TrailingSpaces(t);
    assert IsBlank(s[..k]) by {
      LeadingBlank(s);
    }
    assert |Trim(s)| == m by {
      assert Trim(s) == t[..m];
    }
    assert IsBlank(s[k + m..]) by {
      TrailingBlank(t);
      SuffixOfSuffix(s, k, m);
    }
  }

  /** Dropping `k` and then `m` characters drops `k + m`. */
  lemma SuffixOfSuffix(s: string, k: nat, m: nat)
    requires k + m <= |s|
    ensures s[k..][m..] == s[k + m..]
  {
  }

  /** The prefix `LeadingSpaces` counts is all white space. */
  lemma LeadingBlank(s: string)
    ensures IsBlank(s[..LeadingSpaces(s)])
  {
    var head := s[..LeadingSpaces(s)];
    assert forall j :: 0 <= j < |head| ==> head[j] == s[j];
  }

  /** The suffix `TrailingSpaces` counts is all white space. */
  lemma TrailingBlank(t: string)
    ensures IsBlank(t[|t| - TrailingSpaces(t)..])
  {
    var n := TrailingSpaces(t);
    var tail := t[|t| - n..];
    assert forall j :: 0 <= j < |tail| ==> tail[j] == t[|t| - n + j];
  }

  /** Neither starts nor ends with white space: what `trim()` leaves. */
  predicate Unpadded(s: string) {
    s == [] || (!IsSpace(s[0]) && !IsSpace(s[|s| - 1]))
  }

  /** A string that neither starts nor ends with white space is its own trim. */
  lemma {:induction false} TrimUnpadded(s: string)
    requires Unpadded(s)
    ensures Trim(s) == s
  {
    if s != [] {
      assert LeadingSpaces(s) == 0;
      assert s[0..] == s;
      assert TrailingSpaces(s) == 0;
    }
  }

  /** Trimming twice is trimming once (the schemas' `trim: true` re-trims trimmed input). */
  lemma TrimIdempotent(s: string)
    ensures Trim(Trim(s)) == Trim(s)
  {
    TrimUnpadded(Trim(s));
  }

  /** A string without any white space is its own trim. */
  lemma TrimNoSpace(s: string)
    requires NoSpace(s)
    ensures Trim(s) == s
  {
    TrimUnpadded(s);
  }

  predicate IsUpper(c: char) { 'A' <= c <= 'Z' }
  predicate IsLower(c: char) { 'a' <= c <= 'z' }
  predicate IsDigit(c: char) { '0' <= c <= '9' }

  /** `toLowerCase()` restricted to ASCII letters. */
  function LowerChar(c: char): (d: char)
    ensures IsUpper(c) ==> IsLower(d) && d as int == c as int + 32
    ensures !IsUpper(c) ==> d == c
  {
    if IsUpper(c) then (c as int + 32) as char else c
  }

  /** `toUpperCase()` restricted to ASCII letters. */
  function UpperChar(c: char): (d: char)
    ensures IsLower(c) ==> IsUpper(d) && d as int + 32 == c as int
    ensures !IsLower(c) ==> d == c
  {
    if IsLower(c) then (c as int - 32) as char else c
  }

  /** `s.toLowerCase()` on ASCII letters, every other character kept. */
  function Lower(s: string): (r: string)
    ensures |r| == |s|
    ensures forall i :: 0 <= i < |s| ==> r[i] == LowerChar(s[i])
  {
    seq(|s|, i requires 0 <= i < |s| => LowerChar(s[i]))
  }

  /** Lower-casing a run of characters read off `s` at `k` lower-cases them in place. */
  lemma LowerOfInfix(s: string, k: nat, t: string)
    requires k + |t| <= |s| && forall i :: 0 <= i < |t| ==> t[i] == s[k + i]
    ensures forall i :: 0 <= i < |Lower(t)| ==> Lower(t)[i] == LowerChar(s[k + i])
  {
  }

  /** `s.charAt(0).toUpperCase() + s.slice(1)`. */
  function Capitalize(s: string): (r: string)
    ensures |r| == |s|
    ensures s != [] ==> r[0] == UpperChar(s[0]) && r[1..] == s[1..]
  {
    if s == [] then [] else [UpperChar(s[0])] + s[1..]
  }

  /** A word whose first letter is the capital of `name`'s and whose rest is `name`'s rest. */
  lemma CapitalizedName(name: string, shown: string)
    requires name != [] && |shown| == |name| && shown[0] == UpperChar(name[0]) && shown[1..] == name[1..]
    ensures Capitalize(name) == shown
  {
    var r := Capitalize(name);
    assert r == [r[0]] + r[1..];
    assert shown == [shown[0]] + shown[1..];
  }

  /** A string without ASCII capitals is its own lower case. */
  lemma LowerOfLower(s: string)
    requires forall i :: 0 <= i < |s| ==> !IsUpper(s[i])
    ensures Lower(s) == s
  {
  }

  /** Lower-casing only touches ASCII capitals, so white space, `@` and `.` stay where they are. */
  lemma LowerKeepsMarks(s: string, i: int)
    requires 0 <= i < |s|
    ensures IsSpace(Lower(s)[i]) <==> IsSpace(s[i])
    ensures Lower(s)[i] == '@' <==> s[i] == '@'
    ensures Lower(s)[i] == '.' <==> s[i] == '.'
  {
  }

  predicate AllDigits(s: string) {
    forall i :: 0 <= i < |s| ==> IsDigit(s[i])
  }

  function DigitValue(c: char): (d: nat)
    requires IsDigit(c)
    ensures d < 10
  {
    c as int - '0' as int
  }

  function DigitChar(d: nat): (c: char)
    requires d < 10
    ensures IsDigit(c) && DigitValue(c) == d
  {
    ('0' as int + d) as char
  }

  /** The value of a decimal digit string (`Number(match[k])` for a `\d+` capture). */
  function ParseDigits(s: string): (n: nat)
    requires AllDigits(s)
    ensures s == [] ==> n == 0
  {
    if s == [] then 0 else 10 * ParseDigits(s[..|s| - 1]) + DigitValue(s[|s| - 1])
  }

  /** A natural number written in decimal, as `${n}` or a numeric header value prints it. */
  function NatToString(n: nat): (s: string)
    ensures s != [] && AllDigits(s)
    ensures n == 0 <==> s == "0"
  {
    if n < 10 then [DigitChar(n)] else NatToString(n / 10) + [DigitChar(n % 10)]
  }

  /** Reading back a written number gives the number. */
  lemma {:induction false} ParseNatToString(n: nat)
    ensures ParseDigits(NatToString(n)) == n
  {
    if n >= 10 {
      var s := NatToString(n);
      assert s[..|s| - 1] == NatToString(n / 10);
      ParseNatToString(n / 10);
    }
  }

  /** Writing different numbers gives different strings. */
  lemma NatToStringInjective(m: nat, n: nat)
    requires NatToString(m) == NatToString(n)
    ensures m == n
  {
    ParseNatToString(m);
    ParseNatToString(n);
  }

  /** The index of the first occurrence of `c` in `s`. */
  function IndexOf(s: string, c: char): (k: nat)
    requires c in s
    ensures k < |s| && s[k] == c
    ensures forall i :: 0 <= i < k ==> s[i] != c
  {
    if s[0] == c then 0 else 1 + IndexOf(s[1..], c)
  }

  /** The index of the last occurrence of `c` in `s`. */
  function LastIndexOf(s: string, c: char): (k: nat)
    requires c in s
    ensures k < |s| && s[k] == c
    ensures forall i :: k < i < |s| ==> s[i] != c
  {
    if s[|s| - 1] == c then |s| - 1
    else
      assert c in s[..|s| - 1] by {
        var j :| 0 <= j < |s| && s[j] == c;
        assert s[..|s| - 1][j] == c;
      }
      LastIndexOf(s[..|s| - 1], c)
  }

  /** `s.replace(/c/g, '')`: `s` with every `c` removed. */
  function RemoveAll(s: string, c: char): (r: string)
    ensures c !in r
    ensures |r| <= |s|
    ensures c !in s ==> r == s
  {
    if s == [] then [] else (if s[0] == c then [] else [s[0]]) + RemoveAll(s[1..], c)
  }

  /** Removal keeps every other character as often as the string had it. */
  lemma {:induction false} RemoveAllCounts(s: string, c: char)
    ensures forall x :: x != c ==> multiset(RemoveAll(s, c))[x] == multiset(s)[x]
  {
    if s != [] {
      assert s == [s[0]] + s[1..];
      RemoveAllCounts(s[1..], c);
    }
  }

  /** Removal works piece by piece over a split string, so what it keeps stays in order. */
  lemma {:induction false} RemoveAllDistributes(a: string, b: string, c: char)
    ensures RemoveAll(a + b, c) == RemoveAll(a, c) + RemoveAll(b, c)
  {
    if a == [] {
      assert a + b == b;
    } else {
      var h := if a[0] == c then [] else [a[0]];
      var x, y := RemoveAll(a[1..], c), RemoveAll(b, c);
      assert RemoveAll(a + b, c) == h + (x + y) by {
        var ab := a + b;
        assert ab[0] == a[0] && ab[1..] == a[1..] + b;
        RemoveAllDistributes(a[1..], b, c);
      }
      assert RemoveAll(a, c) == h + x;
      assert h + (x + y) == (h + x) + y;
    }
  }
}
