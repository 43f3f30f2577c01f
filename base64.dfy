/**
 * `buffer.toString('base64')` in Node.js: the base 64 encoding of section 4 of RFC 4648
 * (alphabet `A-Z a-z 0-9 + /`, `=` padding), and the decoding that undoes it.  The avatar
 * handler stores an uploaded picture as a `data:` URL built from this encoding.
 */
module Base64 {
  import opened Options
  import opened Text
  import opened Bytes

  /** The character that stands for the 6-bit value `i`. */
  function IndexChar(i: nat): (c: char)
    requires i < 64
  {
    if i < 26 then ('A' as int + i) as char
    else if i < 52 then ('a' as int + i - 26) as char
    else if i < 62 then ('0' as int + i - 52) as char
    else if i == 62 then '+'
    else '/'
  }

  predicate IsBase64Char(c: char) {
    IsUpper(c) || IsLower(c) || IsDigit(c) || c == '+' || c == '/'
  }

  /** The 6-bit value a character of the alphabet stands for. */
  function CharIndex(c: char): (i: nat)
    requires IsBase64Char(c)
    ensures i < 64 && IndexChar(i) == c
  {
    if IsUpper(c) then c as int - 'A' as int
    else if IsLower(c) then c as int - 'a' as int + 26
    else if IsDigit(c) then c as int - '0' as int + 52
    else if c == '+' then 62
    else 63
  }

  /** Every 6-bit value is written with a character of the alphabet, read back unchanged. */
  lemma IndexCharRoundTrip(i: nat)
    requires i < 64
    ensures IsBase64Char(IndexChar(i)) && CharIndex(IndexChar(i)) == i
  {
  }

  /** Three bytes as four characters. */
  function Quad(b0: byte, b1: byte, b2: byte): (s: string)
    ensures |s| == 4 && forall k :: 0 <= k < 4 ==> IsBase64Char(s[k])
  {
    IndexCharRoundTrip(b0 as nat / 4);
    IndexCharRoundTrip((b0 as nat % 4) * 16 + b1 as nat / 16);
    IndexCharRoundTrip((b1 as nat % 16) * 4 + b2 as nat / 64);
    IndexCharRoundTrip(b2 as nat % 64);
    [IndexChar(b0 as nat / 4), IndexChar((b0 as nat % 4) * 16 + b1 as nat / 16),
     IndexChar((b1 as nat % 16) * 4 + b2 as nat / 64), IndexChar(b2 as nat % 64)]
  }

  /** A last group of one byte: two characters and `==`. */
  function LastOne(b0: byte): (s: string)
    ensures |s| == 4 && IsBase64Char(s[0]) && IsBase64Char(s[1]) && s[2] == '=' && s[3] == '='
  {
    IndexCharRoundTrip(b0 as nat / 4);
    IndexCharRoundTrip((b0 as nat % 4) * 16);
    [IndexChar(b0 as nat / 4), IndexChar((b0 as nat % 4) * 16), '=', '=']
  }

  /** A last group of two bytes: three characters and `=`. */
  function LastTwo(b0: byte, b1: byte): (s: string)
    ensures |s| == 4 && IsBase64Char(s[0]) && IsBase64Char(s[1]) && IsBase64Char(s[2]) && s[3] == '='
  {
    IndexCharRoundTrip(b0 as nat / 4);
    IndexCharRoundTrip((b0 as nat % 4) * 16 + b1 as nat / 16);
    IndexCharRoundTrip((b1 as nat % 16) * 4);
    [IndexChar(b0 as nat / 4), IndexChar((b0 as nat % 4) * 16 + b1 as nat / 16), IndexChar((b1 as nat % 16) * 4), '=']
  }

  /** `Buffer.from(b).toString('base64')`. */
  function Encode(b: seq<byte>): (s: string)
    ensures s == [] <==> b == []
  {
    if |b| == 0 then []
    else if |b| == 1 then LastOne(b[0])
    else if |b| == 2 then LastTwo(b[0], b[1])
    else Quad(b[0], b[1], b[2]) + Encode(b[3..])
  }

  /** The encoding is written with the alphabet and `=` only. */
  predicate Base64Text(s: string) {
    forall k :: 0 <= k < |s| ==> IsBase64Char(s[k]) || s[k] == '='
  }

  /** Every character of an encoding is in the alphabet or is padding. */
  lemma {:induction false} EncodeAlphabet(b: seq<byte>)
    ensures Base64Text(Encode(b))
    decreases |b|
  {
    if |b| > 2 {
      EncodeAlphabet(b[3..]);
      var group, rest := Quad(b[0], b[1], b[2]), Encode(b[3..]);
      assert Encode(b) == group + rest;
      assert forall k :: 0 <= k < |group + rest| ==> (group + rest)[k] == if k < 4 then group[k] else rest[k - 4];
    }
  }

  /** Every three bytes, and a last one or two, take four characters. */
  lemma {:induction false} EncodedLength(b: seq<byte>)
    ensures |Encode(b)| == 4 * ((|b| + 2) / 3)
    decreases |b|
  {
    if |b| > 3 {
      EncodedLength(b[3..]);
      assert |Encode(b)| == 4 + |Encode(b[3..])|;
      assert (|b| + 2) / 3 == 1 + (|b[3..]| + 2) / 3;
    }
  }

  /** The bytes of one group of four characters, the last group possibly padded. */
  function DecodeQuad(s: string): (r: Option<seq<byte>>)
    requires |s| == 4
  {
    if !IsBase64Char(s[0]) || !IsBase64Char(s[1]) then None
    else
      var c0, c1 := CharIndex(s[0]), CharIndex(s[1]);
      var b0 := (c0 * 4 + c1 / 16) as byte;
      if s[2] == '=' && s[3] == '=' then Some([b0])
      else if !IsBase64Char(s[2]) then None
      else
        var c2 := CharIndex(s[2]);
        var b1 := ((c1 % 16) * 16 + c2 / 4) as byte;
        if s[3] == '=' then Some([b0, b1])
        else if !IsBase64Char(s[3]) then None
        else Some([b0, b1, ((c2 % 4) * 64 + CharIndex(s[3])) as byte])
  }

  /** Base 64 text back to bytes; `None` when it is not well formed. */
  function Decode(s: string): (r: Option<seq<byte>>)
    decreases |s|
  {
    if s == [] then Some([])
    else if |s| < 4 then None
    else if |s| == 4 then DecodeQuad(s)
    else if '=' in s[..4] then None
    else
      match (DecodeQuad(s[..4]), Decode(s[4..]))
      case (Some(head), Some(tail)) => Some(head + tail)
      case _ => None
  }

  lemma QuadRoundTrip(b0: byte, b1: byte, b2: byte)
    ensures '=' !in Quad(b0, b1, b2)
    ensures DecodeQuad(Quad(b0, b1, b2)) == Some([b0, b1, b2])
  {
    var c0, c1 := b0 as nat / 4, (b0 as nat % 4) * 16 + b1 as nat / 16;
    var c2, c3 := (b1 as nat % 16) * 4 + b2 as nat / 64, b2 as nat % 64;
    IndexCharRoundTrip(c0);
    IndexCharRoundTrip(c1);
    IndexCharRoundTrip(c2);
    IndexCharRoundTrip(c3);
    assert c1 / 16 == b0 as nat % 4 && c1 % 16 == b1 as nat / 16;
    assert c2 / 4 == b1 as nat % 16 && c2 % 4 == b2 as nat / 64;
  }

  /** A last group of one byte decodes to that byte. */
  lemma SingleRoundTrip(b0: byte)
    ensures DecodeQuad(LastOne(b0)) == Some([b0])
  {
    var c1 := (b0 as nat % 4) * 16;
    IndexCharRoundTrip(b0 as nat / 4);
    IndexCharRoundTrip(c1);
    assert c1 / 16 == b0 as nat % 4;
  }

  /** A last group of two bytes decodes to those bytes. */
  lemma PairRoundTrip(b0: byte, b1: byte)
    ensures DecodeQuad(LastTwo(b0, b1)) == Some([b0, b1])
  {
    var c1, c2 := (b0 as nat % 4) * 16 + b1 as nat / 16, (b1 as nat % 16) * 4;
    IndexCharRoundTrip(b0 as nat / 4);
    IndexCharRoundTrip(c1);
    IndexCharRoundTrip(c2);
    assert c1 / 16 == b0 as nat % 4 && c1 % 16 == b1 as nat / 16;
    assert c2 / 4 == b1 as nat % 16;
    assert (c1 % 16) * 16 + c2 / 4 == b1 as nat;
  }

  /** One group of four characters decodes as that group. */
  lemma DecodeOneGroup(s: string)
    requires |s| == 4
    ensures Decode(s) == DecodeQuad(s)
  {
  }

  /** One byte is encoded as one padded group, which decodes back to it. */
  lemma OneByteRoundTrip(b: seq<byte>)
    requires |b| == 1
    ensures Decode(Encode(b)) == Some(b)
  {
    assert Encode(b) == LastOne(b[0]);
    DecodeOneGroup(LastOne(b[0]));
    SingleRoundTrip(b[0]);
    assert b == [b[0]];
  }

  /** Two bytes are encoded as one padded group, which decodes back to them. */
  lemma TwoBytesRoundTrip(b: seq<byte>)
    requires |b| == 2
    ensures Decode(Encode(b)) == Some(b)
  {
    assert Encode(b) == LastTwo(b[0], b[1]);
    DecodeOneGroup(LastTwo(b[0], b[1]));
    PairRoundTrip(b[0], b[1]);
    assert b == [b[0], b[1]];
  }

  /** Three bytes are encoded as one full group, which decodes back to them. */
  lemma ThreeBytesRoundTrip(b: seq<byte>)
    requires |b| == 3
    ensures Decode(Encode(b)) == Some(b)
  {
    assert Encode(b) == Quad(b[0], b[1], b[2]) by {
      assert Encode(b) == Quad(b[0], b[1], b[2]) + Encode(b[3..]);
      assert Encode(b[3..]) == [];
    }
    DecodeOneGroup(Quad(b[0], b[1], b[2]));
    QuadRoundTrip(b[0], b[1], b[2]);
    assert b == [b[0], b[1], b[2]];
  }

  /** Past the first three bytes, the encoding is a full group followed by the rest's. */
  lemma EncodeStep(b: seq<byte>)
    requires |b| > 3
    ensures Encode(b) == Quad(b[0], b[1], b[2]) + Encode(b[3..])
    ensures Encode(b[3..]) != []
  {
  }

  /** Decoding an encoding gives back the bytes. */
  lemma {:induction false} DecodeEncode(b: seq<byte>)
    ensures Decode(Encode(b)) == Some(b)
    decreases |b|
  {
    if |b| == 1 {
      OneByteRoundTrip(b);
    } else if |b| == 2 {
      TwoBytesRoundTrip(b);
    } else if |b| == 3 {
      ThreeBytesRoundTrip(b);
    } else if |b| > 3 {
      DecodeEncode(b[3..]);
      LongRoundTrip(b);
    }
  }

  /** The step of the induction: the first group, then the rest that already round-trips. */
  lemma LongRoundTrip(b: seq<byte>)
    requires |b| > 3 && Decode(Encode(b[3..])) == Some(b[3..])
    ensures Decode(Encode(b)) == Some(b)
  {
    FirstThree(b);
    EncodeStep(b);
    GroupThenRest(b[0], b[1], b[2], Encode(b[3..]), b[3..]);
  }

  lemma FirstThree(b: seq<byte>)
    requires |b| >= 3
    ensures b == [b[0], b[1], b[2]] + b[3..]
  {
  }

  /** A full group in front of a decodable non-empty rest decodes to its bytes in front. */
  lemma GroupThenRest(b0: byte, b1: byte, b2: byte, rest: string, tail: seq<byte>)
    requires rest != [] && Decode(rest) == Some(tail)
    ensures Decode(Quad(b0, b1, b2) + rest) == Some([b0, b1, b2] + tail)
  {
    var q := Quad(b0, b1, b2);
    var s := q + rest;
    QuadRoundTrip(b0, b1, b2);
    assert s[..4] == q && s[4..] == rest;
  }

  /** The encoding never contains `;` (nor `,`), so it cannot be confused with URL syntax. */
  lemma EncodeHasNoSemicolon(b: seq<byte>)
    ensures ';' !in Encode(b) && ',' !in Encode(b)
  {
    var s := Encode(b);
    EncodeAlphabet(b);
    assert forall k :: 0 <= k < |s| ==> s[k] != ';' && s[k] != ',';
  }
}
