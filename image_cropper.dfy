/**
 * The avatar cropper (frontend/src/components/common/ImageCropper.jsx): a square crop
 * `{x, y, size}` kept inside the loaded picture by `clampCrop`, its starting position, the
 * sliders that move one axis at a time, and the fallback that turns the canvas's data URL
 * back into bytes when `canvas.toBlob` is missing.  Drawing on the canvas is left out.
 */
module ImageCropper {
  import opened Options
  import opened Text
  import opened Bytes
  import Base64

  const MinSize: real := 64.0
  const LoadErrorMessage := "Could not load this image for cropping. Try using a JPG/PNG image."

  /** A square crop of the picture, in picture pixels. */
  datatype Crop = Crop(x: real, y: real, size: real)

  /** A proposed crop as `Number(...)` reads it: `None` stands for `NaN`. */
  datatype Proposal = Proposal(x: Option<real>, y: Option<real>, size: Option<real>)

  /** Which slider moved. */
  datatype Axis = X | Y | Size

  function Max(a: real, b: real): real { if a >= b then a else b }
  function Min(a: real, b: real): real { if a <= b then a else b }

  /** `Number(v) || fallback`: `NaN` and zero are falsy. */
  function OrElse(v: Option<real>, fallback: real): real {
    if v.None? || v.value == 0.0 then fallback else v.value
  }

  /** The largest crop the picture holds: `Math.min(img.width, img.height)`. */
  function MaxSize(width: nat, height: nat): real {
    if width <= height then width as real else height as real
  }

  /**
   * `clampCrop`: the size is clamped to `[64, min(width, height)]` (with 64 winning when the
   * picture is smaller), then each corner coordinate to `[0, max(0, extent - size)]`.
   */
  function Clamp(width: nat, height: nat, p: Proposal): (c: Crop)
    ensures c.size >= MinSize
    ensures MaxSize(width, height) >= MinSize ==> c.size <= MaxSize(width, height)
    ensures 0.0 <= c.x <= Max(0.0, width as real - c.size)
    ensures 0.0 <= c.y <= Max(0.0, height as real - c.size)
  {
    var size := Max(MinSize, Min(OrElse(p.size, MinSize), MaxSize(width, height)));
    var maxX := Max(0.0, width as real - size);
    var maxY := Max(0.0, height as real - size);
    Crop(Max(0.0, Min(OrElse(p.x, 0.0), maxX)), Max(0.0, Min(OrElse(p.y, 0.0), maxY)), size)
  }

  /**
   * Each given corner coordinate lands on the nearest point of `[0, max(0, extent - size)]`:
   * kept when inside, the lower bound when below it, the upper bound when above it.
   */
  lemma ClampNearest(width: nat, height: nat, p: Proposal)
    ensures var c := Clamp(width, height, p);
      var hx, hy := Max(0.0, width as real - c.size), Max(0.0, height as real - c.size);
      && (p.x.Some? && 0.0 <= p.x.value <= hx ==> c.x == p.x.value)
      && (p.x.Some? && p.x.value < 0.0 ==> c.x == 0.0)
      && (p.x.Some? && p.x.value > hx ==> c.x == hx)
      && (p.y.Some? && 0.0 <= p.y.value <= hy ==> c.y == p.y.value)
      && (p.y.Some? && p.y.value < 0.0 ==> c.y == 0.0)
      && (p.y.Some? && p.y.value > hy ==> c.y == hy)
  {
  }

  /** The proposal that asks for exactly this crop. */
  function AsProposal(c: Crop): Proposal {
    Proposal(Some(c.x), Some(c.y), Some(c.size))
  }

  /** A crop `clampCrop` produced is one it leaves alone. */
  predicate Clamped(width: nat, height: nat, c: Crop) {
    && c.size >= MinSize
    && (MaxSize(width, height) >= MinSize ==> c.size <= MaxSize(width, height))
    && (MaxSize(width, height) < MinSize ==> c.size == MinSize)
    && 0.0 <= c.x <= Max(0.0, width as real - c.size)
    && 0.0 <= c.y <= Max(0.0, height as real - c.size)
  }

  /** What `clampCrop` returns is clamped, and clamping it again changes nothing. */
  lemma ClampIdempotent(width: nat, height: nat, p: Proposal)
    ensures Clamped(width, height, Clamp(width, height, p))
    ensures Clamp(width, height, AsProposal(Clamp(width, height, p))) == Clamp(width, height, p)
  {
    var c := Clamp(width, height, p);
    ClampFixes(width, height, c);
  }

  /** A clamped crop is a fixed point of `clampCrop`. */
  lemma ClampFixes(width: nat, height: nat, c: Crop)
    requires Clamped(width, height, c)
    ensures Clamp(width, height, AsProposal(c)) == c
  {
  }

  /** A missing or zero size falls back to 64; a missing x or y to 0. */
  lemma Fallbacks(width: nat, height: nat)
    requires MaxSize(width, height) >= MinSize
    ensures Clamp(width, height, Proposal(None, None, None)) == Crop(0.0, 0.0, MinSize)
    ensures Clamp(width, height, Proposal(None, None, Some(0.0))) == Crop(0.0, 0.0, MinSize)
  {
  }

  /** `Math.max(64, Math.floor(min(width, height) * 0.85))`, with 0.85 taken as the exact 85/100. */
  function InitialSize(width: nat, height: nat): (s: nat)
    ensures s >= 64
    ensures MaxSize(width, height) >= MinSize ==> s as real <= MaxSize(width, height)
    ensures var base := if width <= height then width else height;
      && (85 * base < 6400 ==> s == 64)
      && (85 * base >= 6400 ==> 100 * s <= 85 * base < 100 * (s + 1))
  {
    var base := if width <= height then width else height;
    var scaled := (85 * base) / 100;
    if scaled >= 64 then scaled else 64
  }

  /** The `onload` step: the initial size, centred, then clamped. */
  function InitialCrop(width: nat, height: nat): Crop {
    var s := InitialSize(width, height) as real;
    Clamp(width, height, Proposal(Some((width as real - s) / 2.0), Some((height as real - s) / 2.0), Some(s)))
  }

  /** On a picture at least 64 pixels each way, the initial crop is the centred square of the initial size. */
  lemma InitialCropCentred(width: nat, height: nat)
    requires MaxSize(width, height) >= MinSize
    ensures var c, s := InitialCrop(width, height), InitialSize(width, height) as real;
      && c.size == s
      && c.x + s / 2.0 == width as real / 2.0
      && c.y + s / 2.0 == height as real / 2.0
  {
  }

  /** `{ ...crop, [axis]: parseFloat(value) }` */
  function WithAxis(c: Crop, axis: Axis, value: Option<real>): Proposal {
    match axis
    case X => Proposal(value, Some(c.y), Some(c.size))
    case Y => Proposal(Some(c.x), value, Some(c.size))
    case Size => Proposal(Some(c.x), Some(c.y), value)
  }

  /** Moving the x slider on a clamped crop leaves y and the size where they were. */
  lemma MoveXKeepsRest(width: nat, height: nat, c: Crop, value: Option<real>)
    requires Clamped(width, height, c)
    ensures var n := Clamp(width, height, WithAxis(c, X, value)); n.y == c.y && n.size == c.size
  {
  }

  /** Moving the y slider on a clamped crop leaves x and the size where they were. */
  lemma MoveYKeepsRest(width: nat, height: nat, c: Crop, value: Option<real>)
    requires Clamped(width, height, c)
    ensures var n := Clamp(width, height, WithAxis(c, Y, value)); n.x == c.x && n.size == c.size
  {
  }

  /** Zooming in (a smaller size) never moves the corner. */
  lemma ZoomInKeepsCorner(width: nat, height: nat, c: Crop, size: real)
    requires Clamped(width, height, c) && MinSize <= size <= c.size
    ensures Clamp(width, height, WithAxis(c, Size, Some(size))) == Crop(c.x, c.y, size)
  {
  }

  /** The loaded picture's dimensions. */
  datatype Picture = Picture(width: nat, height: nat)

  class Cropper {
    var crop: Crop
    var picture: Option<Picture>
    var imageLoaded: bool
    var loadError: string

    /** Once a picture is loaded, the crop lies inside it. */
    ghost predicate Valid()
      reads this
    {
      imageLoaded ==> picture.Some? && Clamped(picture.value.width, picture.value.height, crop)
    }

    constructor ()
      ensures Valid()
      ensures crop == Crop(0.0, 0.0, 200.0) && picture.None? && !imageLoaded && loadError == []
    {
      crop := Crop(0.0, 0.0, 200.0);
      picture := None;
      imageLoaded := false;
      loadError := [];
    }

    /** `img.onload`: the picture is kept and the initial crop set. */
    method Loaded(p: Picture)
      modifies this
      ensures Valid()
      ensures picture == Some(p) && imageLoaded && loadError == []
      ensures crop == InitialCrop(p.width, p.height)
    {
      picture := Some(p);
      loadError := [];
      var s := InitialSize(p.width, p.height) as real;
      crop := Clamp(p.width, p.height,
        Proposal(Some((p.width as real - s) / 2.0), Some((p.height as real - s) / 2.0), Some(s)));
      ClampIdempotent(p.width, p.height,
        Proposal(Some((p.width as real - s) / 2.0), Some((p.height as real - s) / 2.0), Some(s)));
      imageLoaded := true;
    }

    /** `img.onerror` */
    method Failed()
      modifies this
      ensures Valid()
      ensures !imageLoaded && loadError == LoadErrorMessage
      ensures crop == old(crop) && picture == old(picture)
    {
      imageLoaded := false;
      loadError := LoadErrorMessage;
    }

    /** `handleCropChange`: nothing without a picture, otherwise the changed crop, clamped. */
    method ChangeAxis(axis: Axis, value: Option<real>)
      requires Valid()
      modifies this
      ensures Valid()
      ensures picture == old(picture) && imageLoaded == old(imageLoaded) && loadError == old(loadError)
      ensures old(picture).None? ==> crop == old(crop)
      ensures old(picture).Some? ==>
        crop == Clamp(picture.value.width, picture.value.height, WithAxis(old(crop), axis, value))
    {
      if picture.None? {
        return;
      }
      var p := picture.value;
      crop := Clamp(p.width, p.height, WithAxis(crop, axis, value));
      ClampIdempotent(p.width, p.height, WithAxis(old(crop), axis, value));
    }
  }

  /** What `canvasToBlob` resolves to: a typed byte buffer. */
  datatype Blob = Blob(mimetype: string, data: seq<byte>)

  predicate IsLineTerminator(c: char) {
    c == '\n' || c == '\r' || c == '\U{2028}' || c == '\U{2029}'
  }

  /** The first `;` from `j` on, unless a line terminator comes first (`.` does not match one). */
  function LazyTo(s: string, j: nat): (k: Option<nat>)
    requires j <= |s|
    ensures k.Some? ==> j <= k.value < |s| && s[k.value] == ';'
    ensures k.Some? ==> forall i :: j <= i < k.value ==> s[i] != ';' && !IsLineTerminator(s[i])
    decreases |s| - j
  {
    if j == |s| || IsLineTerminator(s[j]) then None
    else if s[j] == ';' then Some(j)
    else LazyTo(s, j + 1)
  }

  /** `s.match(/:(.*?);/)?.[1]`: the leftmost `:` that a `;` follows on the same line. */
  function MatchMime(s: string, i: nat): (m: Option<string>)
    requires i <= |s|
    ensures m.Some? ==> forall k :: 0 <= k < |m.value| ==> m.value[k] != ';' && !IsLineTerminator(m.value[k])
    decreases |s| - i
  {
    if i == |s| then None
    else if s[i] == ':' && LazyTo(s, i + 1).Some? then
      var k := LazyTo(s, i + 1).value;
      var t := s[i + 1..k];
      assert forall j :: 0 <= j < |t| ==> t[j] == s[i + 1 + j];
      Some(t)
    else MatchMime(s, i + 1)
  }

  /** The second piece of `s.split(',')`, if there is one. */
  function SecondPart(s: string): (part: Option<string>)
    ensures part.Some? <==> ',' in s
    ensures part.Some? ==> ',' !in part.value
    ensures part.Some? ==> var k := IndexOf(s, ',') + 1;
      && k + |part.value| <= |s| && part.value == s[k..k + |part.value|]
      && (k + |part.value| == |s| || s[k + |part.value|] == ',')
  {
    if ',' !in s then None
    else
      var rest := s[IndexOf(s, ',') + 1..];
      if ',' in rest then Some(rest[..IndexOf(rest, ',')]) else Some(rest)
  }

  /** The first piece of `s.split(',')`. */
  function FirstPart(s: string): (part: string)
    ensures ',' !in part
    ensures |part| <= |s| && part == s[..|part|] && (|part| == |s| || s[|part|] == ',')
  {
    if ',' in s then s[..IndexOf(s, ',')] else s
  }

  /** `atob`: the binary string, one character per decoded byte. */
  function Atob(s: string): (binary: Option<string>)
    ensures binary.Some? ==> forall i :: 0 <= i < |binary.value| ==> binary.value[i] as int < 256
  {
    match Base64.Decode(s)
    case None => None
    case Some(data) => Some(BinaryString(data))
  }

  /** A JavaScript binary string: one character per byte, its code the byte's value. */
  function BinaryString(data: seq<byte>): (binary: string)
    ensures |binary| == |data| && forall i :: 0 <= i < |data| ==> binary[i] as int == data[i] as int
  {
    seq(|data|, i requires 0 <= i < |data| => data[i] as int as char)
  }

  /** `charCodeAt` stored into a `Uint8Array`: each code keeps only its low eight bits. */
  function CharCodes(binary: string): (bytes: seq<byte>)
    ensures |bytes| == |binary| && forall i :: 0 <= i < |binary| ==> bytes[i] as int == binary[i] as int % 256
  {
    seq(|binary|, i requires 0 <= i < |binary| => (binary[i] as int % 256) as byte)
  }

  /** The bytes of a binary string are the bytes it was made from. */
  lemma CharCodesOfBinary(data: seq<byte>)
    ensures CharCodes(BinaryString(data)) == data
  {
    var back := CharCodes(BinaryString(data));
    forall i | 0 <= i < |data| ensures back[i] == data[i] {
      assert back[i] as int == data[i] as int % 256;
    }
  }

  /** Every character lies in U+0020 to U+007E. */
  predicate Printable(t: string) {
    forall i :: 0 <= i < |t| ==> ' ' <= t[i] <= '~'
  }

  /**
   * The type a `Blob` keeps, as the File API's `Blob` constructor sets it: a type with a
   * character outside U+0020 to U+007E becomes empty, any other is lower-cased (ASCII only).
   */
  function BlobType(t: string): string {
    if Printable(t) then Lower(t) else []
  }

  /** The constructor's normalisation is idempotent. */
  lemma BlobTypeIdempotent(t: string)
    ensures BlobType(BlobType(t)) == BlobType(t)
  {
    if Printable(t) {
      var l := Lower(t);
      assert Printable(l) by {
        forall i | 0 <= i < |l| ensures ' ' <= l[i] <= '~' {
          assert l[i] == LowerChar(t[i]);
        }
      }
      LowerOfLower(l);
    }
  }

  /** A printable lower-case type is kept as it is, and any other printable one is changed. */
  lemma PlainTypeKept(t: string)
    requires Printable(t)
    ensures BlobType(t) == t <==> forall i :: 0 <= i < |t| ==> !IsUpper(t[i])
  {
    if forall i :: 0 <= i < |t| ==> !IsUpper(t[i]) {
      LowerOfLower(t);
    } else {
      var i :| 0 <= i < |t| && IsUpper(t[i]);
      assert BlobType(t)[i] != t[i];
    }
  }

  /** What the fallback resolves to for a data URL: `null` (`None`) when `atob` throws or there is no payload. */
  function FallbackBlob(dataUrl: string, requested: string): Option<Blob> {
    var head := FirstPart(dataUrl);
    var found := MatchMime(head, 0);
    var mime := BlobType(if found.Some? && found.value != [] then found.value else requested);
    match SecondPart(dataUrl)
    case None => None
    case Some(payload) =>
      match Atob(payload)
      case None => None
      case Some(binary) => Some(Blob(mime, CharCodes(binary)))
  }

  /** The loop that copies `binary.charCodeAt(i)` into a `Uint8Array`, which keeps the low eight bits. */
  method CopyCharCodes(binary: string) returns (arr: array<byte>)
    ensures fresh(arr) && arr.Length == |binary|
    ensures forall i :: 0 <= i < |binary| ==> arr[i] as int == binary[i] as int % 256
  {
    arr := new byte[|binary|];
    var i := 0;
    while i < |binary|
      invariant 0 <= i <= |binary|
      invariant forall k :: 0 <= k < i ==> arr[k] as int == binary[k] as int % 256
    {
      arr[i] := (binary[i] as int % 256) as byte;
      i := i + 1;
    }
  }

  /** The fallback branch of `canvasToBlob`, step by step. */
  method BlobFromDataUrl(dataUrl: string, requested: string) returns (blob: Option<Blob>)
    ensures blob == FallbackBlob(dataUrl, requested)
  {
    var payload := SecondPart(dataUrl);
    if payload.None? {
      return None;
    }
    var found := MatchMime(FirstPart(dataUrl), 0);
    var mime := BlobType(if found.Some? && found.value != [] then found.value else requested);
    var binary := Atob(payload.value);
    if binary.None? {
      return None;
    }
    var arr := CopyCharCodes(binary.value);
    assert arr[..] == CharCodes(binary.value);
    blob := Some(Blob(mime, arr[..]));
  }

  /** The MIME type of `data:<m>;base64` reads back as `m` when `m` is a plain type. */
  lemma MimeOfHeader(m: string)
    requires ':' !in m && ';' !in m && ',' !in m
    requires forall i :: 0 <= i < |m| ==> !IsLineTerminator(m[i])
    ensures MatchMime("data:" + m + ";base64", 0) == Some(m)
  {
    var s := "data:" + m + ";base64";
    HeaderShape(m);
    MatchSkips(s, 0, 4);
    LazyFinds(s, 5, 5 + |m|);
  }

  /** Where the parts of `data:<m>;base64` sit. */
  lemma HeaderShape(m: string)
    ensures var s := "data:" + m + ";base64";
      && |s| == |m| + 12 && s[4] == ':' && s[5 + |m|] == ';' && s[5..5 + |m|] == m
      && (forall i :: 0 <= i < 4 ==> s[i] != ':')
      && (forall i :: 5 <= i < 5 + |m| ==> s[i] == m[i - 5])
  {
    var s := "data:" + m + ";base64";
    assert s[..4] == "data";
    assert forall i :: 5 <= i < 5 + |m| ==> s[i] == m[i - 5];
    assert s[5..5 + |m|] == m;
  }

  lemma {:induction false} MatchSkips(s: string, i: nat, j: nat)
    requires i <= j < |s| && forall k :: i <= k < j ==> s[k] != ':'
    ensures MatchMime(s, i) == MatchMime(s, j)
    decreases j - i
  {
    if i < j {
      MatchSkips(s, i + 1, j);
    }
  }

  lemma {:induction false} LazyFinds(s: string, j: nat, k: nat)
    requires j <= k < |s| && s[k] == ';'
    requires forall i :: j <= i < k ==> s[i] != ';' && !IsLineTerminator(s[i])
    ensures LazyTo(s, j) == Some(k)
    decreases k - j
  {
    if j < k {
      LazyFinds(s, j + 1, k);
    }
  }

  /** A data URL's header and payload come apart at its one comma. */
  lemma SplitDataUrl(head: string, e: string)
    requires ',' !in head && ',' !in e
    ensures FirstPart(head + "," + e) == head
    ensures SecondPart(head + "," + e) == Some(e)
  {
    var url := head + "," + e;
    assert url[|head|] == ',';
    assert forall i :: 0 <= i < |head| ==> url[i] == head[i];
    assert IndexOf(url, ',') == |head|;
    assert url[..|head|] == head;
    assert url[|head| + 1..] == e;
  }

  /** A plain type leaves no comma in `data:<m>;base64`. */
  lemma HeaderHasNoComma(m: string)
    requires ',' !in m
    ensures ',' !in "data:" + m + ";base64"
  {
    var head := "data:" + m + ";base64";
    assert forall i :: 5 <= i < 5 + |m| ==> head[i] == m[i - 5];
    assert forall i :: 5 + |m| <= i < |head| ==> head[i] == ";base64"[i - 5 - |m|];
  }

  /** `atob` undoes base64 encoding, one character per byte. */
  lemma AtobEncode(data: seq<byte>)
    ensures Atob(Base64.Encode(data)).Some?
    ensures CharCodes(Atob(Base64.Encode(data)).value) == data
  {
    Base64.DecodeEncode(data);
    CharCodesOfBinary(data);
  }

  /** Bytes encoded as the canvas would encode them come back unchanged through the fallback. */
  lemma FallbackRoundTrip(m: string, data: seq<byte>)
    requires ':' !in m && ';' !in m && ',' !in m && m != []
    requires forall i :: 0 <= i < |m| ==> !IsLineTerminator(m[i])
    ensures FallbackBlob("data:" + m + ";base64," + Base64.Encode(data), "image/jpeg") == Some(Blob(BlobType(m), data))
  {
    var e := Base64.Encode(data);
    var head := "data:" + m + ";base64";
    assert "data:" + m + ";base64," + e == head + "," + e;
    Base64.EncodeHasNoSemicolon(data);
    HeaderHasNoComma(m);
    SplitDataUrl(head, e);
    MimeOfHeader(m);
    AtobEncode(data);
  }

  /** The JPEG the cropper asks the canvas for comes back through the fallback as the same type and bytes. */
  lemma JpegRoundTrip(data: seq<byte>)
    ensures var m := "image/jpeg";
      FallbackBlob("data:" + m + ";base64," + Base64.Encode(data), m) == Some(Blob(m, data))
  {
    JpegType();
    FallbackRoundTrip("image/jpeg", data);
  }

  /** `image/jpeg` is a plain type that the `Blob` constructor keeps. */
  lemma JpegType()
    ensures var m := "image/jpeg";
      && ':' !in m && ';' !in m && ',' !in m && m != []
      && (forall i :: 0 <= i < |m| ==> !IsLineTerminator(m[i]))
      && BlobType(m) == m
  {
    var m := "image/jpeg";
    assert Printable(m);
    PlainTypeKept(m);
  }
}
