/**
 * The media gateway, `GET /api/media/:id` (backend/src/controllers/media.controller.js):
 * checks the id, finds the GridFS file, and answers with the whole object (200) or, for a
 * `Range: bytes=<first>-<last?>` header, with the requested span (206) or a refusal (416).
 * Only a single `first-last` or `first-` range is understood (a subset of sections 2.1,
 * 4.1, 4.2 and 4.4 of RFC 7233); suffix ranges and multi-range sets are refused with 416.
 *
 * `Serve` is the whole decision as one function of the bucket, the id and the header;
 * `StreamMedia` sets the status, the headers and the body on a response object step by
 * step, as the controller does, and is proved to end in the reply `Serve` describes.
 */
module MediaController {
  import opened Options
  import opened Text
  import ObjectIds
  import opened Bytes

  /**
   * A GridFS file: its bytes and the `contentType` and `filename` fields; an absent or
   * empty field is `""` (both are falsy to the controller's `||`).
   */
  datatype MediaFile = MediaFile(data: seq<byte>, contentType: string, filename: string)

  /** The `postMedia` bucket, keyed by canonical (lower-case hex) ObjectId. */
  type Bucket = map<string, MediaFile>

  datatype Body = NoBody | Json(message: string) | Bytes(data: seq<byte>)

  /** What the client receives: status, the headers the controller sets, and the body. */
  datatype Reply = Reply(status: nat, headers: map<string, string>, body: Body)

  /** The two captures of `^bytes=(\d+)-(\d*)$`; an empty second capture is `None`. */
  datatype RangeSpec = RangeSpec(first: nat, last: Option<nat>)

  const DefaultContentType := "application/octet-stream"
  const DefaultFilename := "media"

  function ContentTypeOf(f: MediaFile): (t: string)
    ensures t != []
    ensures f.contentType != [] ==> t == f.contentType
    ensures f.contentType == [] ==> t == DefaultContentType
  {
    if f.contentType != [] then f.contentType else DefaultContentType
  }

  /** The filename put between the quotes of `Content-Disposition`. */
  function SafeFilename(f: MediaFile): (n: string)
    ensures '"' !in n
    ensures f.filename == [] ==> n == DefaultFilename
  {
    RemoveAll(if f.filename != [] then f.filename else DefaultFilename, '"')
  }

  /** A given filename loses its `"` characters and keeps every other character as often as it had it. */
  lemma SafeFilenameKeeps(f: MediaFile)
    requires f.filename != []
    ensures forall x :: x != '"' ==> multiset(SafeFilename(f))[x] == multiset(f.filename)[x]
  {
    RemoveAllCounts(f.filename, '"');
  }

  /** The three headers set on every response for a file that exists. */
  function FileHeaders(f: MediaFile): (h: map<string, string>)
    ensures h.Keys == {"Content-Type", "Content-Disposition", "Accept-Ranges"}
    ensures h["Content-Type"] == ContentTypeOf(f) && h["Accept-Ranges"] == "bytes"
  {
    map[
      "Content-Type" := ContentTypeOf(f),
      "Content-Disposition" := "inline; filename=\"" + SafeFilename(f) + "\"",
      "Accept-Ranges" := "bytes"
    ]
  }

  /**
   * `Content-Disposition` quotes the safe filename: `inline; filename="…"`, and the quotes
   * are the only `"` in it.
   */
  lemma DispositionQuoted(f: MediaFile)
    ensures var d := FileHeaders(f)["Content-Disposition"];
      && |d| >= 19 && d[..18] == "inline; filename=\"" && d[|d| - 1] == '"'
      && d[18..|d| - 1] == SafeFilename(f) && '"' !in d[18..|d| - 1]
  {
    var n := SafeFilename(f);
    var d := "inline; filename=\"" + n + "\"";
    assert d[18..|d| - 1] == n;
  }

  /**
   * The language of `^bytes=(\d+)-(\d*)$` with the `i` flag: a case-insensitive `bytes=`,
   * then one or more digits, one `-`, and zero or more digits, and nothing else.
   */
  predicate RangeSyntax(h: string) {
    && |h| >= 6 && Lower(h[..6]) == "bytes="
    && exists k :: 7 <= k < |h| && h[k] == '-' && forall j :: 6 <= j < |h| && j != k ==> IsDigit(h[j])
  }

  /** Matches a `Range` header against the pattern and reads its two captures. */
  function ParseRange(h: string): (r: Option<RangeSpec>)
  {
    if |h| < 6 || Lower(h[..6]) != "bytes=" || '-' !in h[6..] then None
    else
      var rest := h[6..];
      var k := IndexOf(rest, '-');
      var a, b := rest[..k], rest[k + 1..];
      if a != [] && AllDigits(a) && AllDigits(b) then
        Some(RangeSpec(ParseDigits(a), if b == [] then None else Some(ParseDigits(b))))
      else None
  }

  /** `end`: an omitted last position means `length - 1`; a larger one is clamped to it. */
  function EffectiveLast(s: RangeSpec, length: nat): (e: int)
    ensures e <= length - 1
    ensures s.last.None? ==> e == length - 1
    ensures s.last.Some? ==> e <= s.last.value && (e == s.last.value || e == length - 1)
  {
    match s.last
    case None => length - 1
    case Some(l) => if l < length - 1 then l else length - 1
  }

  /**
   * Section 2.1 and 4.4 of RFC 7233 for one range: the first position lies inside the
   * object and does not exceed a given last position.
   */
  predicate Satisfiable(s: RangeSpec, length: nat) {
    s.first < length && (s.last.None? || s.first <= s.last.value)
  }

  /** `openDownloadStream(fileId, { start, end })`: the half-open span `[start, end)`. */
  function ReadSpan(f: MediaFile, start: nat, end: nat): (d: seq<byte>)
    requires start <= end <= |f.data|
    ensures |d| == end - start
  {
    f.data[start..end]
  }

  function ContentRange(first: nat, last: nat, length: nat): string {
    "bytes " + NatToString(first) + "-" + NatToString(last) + "/" + NatToString(length)
  }

  function UnsatisfiedRange(length: nat): string {
    "bytes */" + NatToString(length)
  }

  /** The 416 reply: the file headers, `Content-Range: bytes *\/<length>`, no body. */
  function NotSatisfiable(f: MediaFile): Reply {
    Reply(416, FileHeaders(f)["Content-Range" := UnsatisfiedRange(|f.data|)], NoBody)
  }

  /** The reply for a file that exists, given the `Range` header if the request has one. */
  function ServeFile(f: MediaFile, range: Option<string>): (r: Reply)
    ensures r.status in {200, 206, 416}
    ensures forall name :: name in FileHeaders(f) ==> name in r.headers && r.headers[name] == FileHeaders(f)[name]
  {
    var length := |f.data|;
    if range.None? || range.value == [] then
      Reply(200, FileHeaders(f)["Content-Length" := NatToString(length)], Bytes(f.data))
    else
      match ParseRange(range.value)
      case None => NotSatisfiable(f)
      case Some(s) =>
        var last := EffectiveLast(s, length);
        if s.first > last || s.first >= length then NotSatisfiable(f)
        else
          Reply(206,
                FileHeaders(f)["Content-Range" := ContentRange(s.first, last, length)]
                              ["Content-Length" := NatToString(last - s.first + 1)],
                Bytes(ReadSpan(f, s.first, last + 1)))
  }

  /**
   * The whole handler: id check (400), lookup (404), then `ServeFile`.  The 400 and 404
   * replies carry an empty header map: their `Json` body stands for the JSON message and the
   * `Content-Type` header that `res.json` adds with it.
   */
  function Serve(bucket: Bucket, id: string, range: Option<string>): (r: Reply)
    ensures r.status in {200, 206, 400, 404, 416}
    ensures r.status == 400 <==> !ObjectIds.IsValid(id)
    ensures r.status == 404 <==> ObjectIds.IsValid(id) && ObjectIds.Canonical(id) !in bucket
    ensures r.status in {200, 206, 416} ==> "Accept-Ranges" in r.headers && r.headers["Accept-Ranges"] == "bytes"
  {
    if !ObjectIds.IsValid(id) then Reply(400, map[], Json("Invalid media id"))
    else if ObjectIds.Canonical(id) !in bucket then Reply(404, map[], Json("Media not found"))
    else ServeFile(bucket[ObjectIds.Canonical(id)], range)
  }

  /** An invalid id is answered with 400 without looking at the bucket at all. */
  lemma InvalidIdBeforeLookup(b1: Bucket, b2: Bucket, id: string, range: Option<string>)
    requires !ObjectIds.IsValid(id)
    ensures Serve(b1, id, range) == Serve(b2, id, range)
    ensures Serve(b1, id, range) == Reply(400, map[], Json("Invalid media id"))
  {
  }

  /** Ids that differ only in the case of their hex letters name the same file. */
  lemma IdCaseInsensitive(bucket: Bucket, id1: string, id2: string, range: Option<string>)
    requires ObjectIds.IsValid(id1) && ObjectIds.Canonical(id1) == ObjectIds.Canonical(id2)
    ensures Serve(bucket, id1, range) == Serve(bucket, id2, range)
  {
    assert ObjectIds.IsValid(id2) by {
      forall i | 0 <= i < |id2| ensures ObjectIds.IsHexDigit(id2[i]) {
        assert LowerChar(id2[i]) == ObjectIds.Canonical(id1)[i];
      }
    }
  }

  /** Without a (non-empty) `Range` header: 200, the length, and the whole object. */
  lemma WholeObject(f: MediaFile, range: Option<string>)
    requires range.None? || range.value == []
    ensures var r := ServeFile(f, range);
      && r.status == 200
      && r.headers["Content-Length"] == NatToString(|f.data|)
      && r.body == Bytes(f.data)
      && "Content-Range" !in r.headers
  {
  }

  /** A header outside the pattern gets 416, `bytes *\/<length>`, and no body. */
  lemma MalformedRange(f: MediaFile, h: string)
    requires h != [] && !RangeSyntax(h)
    ensures ServeFile(f, Some(h)) == NotSatisfiable(f)
    ensures ServeFile(f, Some(h)).headers["Content-Range"] == "bytes */" + NatToString(|f.data|)
  {
    ParseRangeMatchesSyntax(h);
  }

  /** A well-formed range that cannot be satisfied gets the very same 416 reply. */
  lemma UnsatisfiableRange(f: MediaFile, h: string)
    requires h != [] && ParseRange(h).Some? && !Satisfiable(ParseRange(h).value, |f.data|)
    ensures ServeFile(f, Some(h)) == NotSatisfiable(f)
  {
  }

  /** Every range request on an empty object is refused. */
  lemma EmptyObjectRefusesRanges(f: MediaFile, h: string)
    requires |f.data| == 0 && h != []
    ensures ServeFile(f, Some(h)).status == 416
  {
  }

  /**
   * A satisfiable range: 206, `Content-Range: bytes <first>-<last>/<length>` with `last`
   * clamped to the object, and a body that is exactly the bytes `first..last` of the object.
   */
  lemma PartialContent(f: MediaFile, h: string)
    requires h != [] && ParseRange(h).Some? && Satisfiable(ParseRange(h).value, |f.data|)
    ensures var s := ParseRange(h).value;
      var last := if s.last.Some? && s.last.value < |f.data| then s.last.value else |f.data| - 1;
      var r := ServeFile(f, Some(h));
      && 0 <= s.first <= last < |f.data|
      && r.status == 206
      && r.headers["Content-Range"] == "bytes " + NatToString(s.first) + "-" + NatToString(last) + "/" + NatToString(|f.data|)
      && r.body == Bytes(f.data[s.first..last + 1])
  {
    var s := ParseRange(h).value;
    var last := EffectiveLast(s, |f.data|);
    RangeReply(f, h, s, last);
    PartialHeadersRead(f, s.first, last);
  }

  /** The 206 reply's `Content-Length` is a decimal numeral that reads back as the body's size. */
  lemma PartialLength(f: MediaFile, h: string)
    requires h != [] && ParseRange(h).Some? && Satisfiable(ParseRange(h).value, |f.data|)
    ensures var r := ServeFile(f, Some(h));
      && r.body.Bytes? && "Content-Length" in r.headers
      && r.headers["Content-Length"] == NatToString(|r.body.data|)
      && AllDigits(r.headers["Content-Length"])
      && ParseDigits(r.headers["Content-Length"]) == |r.body.data|
  {
    var s := ParseRange(h).value;
    var last := EffectiveLast(s, |f.data|);
    RangeReply(f, h, s, last);
    PartialHeadersRead(f, s.first, last);
    ParseNatToString(last - s.first + 1);
  }

  /** For a satisfiable range, `ServeFile` gives 206 with the partial headers and the span's bytes. */
  lemma RangeReply(f: MediaFile, h: string, s: RangeSpec, last: nat)
    requires h != [] && ParseRange(h) == Some(s) && last == EffectiveLast(s, |f.data|)
    requires s.first <= last < |f.data|
    ensures ServeFile(f, Some(h)) == Reply(206, PartialHeaders(f, s.first, last), Bytes(f.data[s.first..last + 1]))
  {
  }

  /** The headers of a 206 reply: the file headers, `Content-Range` and `Content-Length`. */
  function PartialHeaders(f: MediaFile, first: nat, last: nat): map<string, string>
    requires first <= last
  {
    FileHeaders(f)["Content-Range" := ContentRange(first, last, |f.data|)]
                  ["Content-Length" := NatToString(last - first + 1)]
  }

  /** The two range headers read back from `PartialHeaders`. */
  lemma PartialHeadersRead(f: MediaFile, first: nat, last: nat)
    requires first <= last
    ensures PartialHeaders(f, first, last)["Content-Range"] == ContentRange(first, last, |f.data|)
    ensures PartialHeaders(f, first, last)["Content-Length"] == NatToString(last - first + 1)
  {
  }

  /** The header parser accepts exactly the pattern's language and reads its captures. */
  lemma ParseRangeMatchesSyntax(h: string)
    ensures ParseRange(h).Some? <==> RangeSyntax(h)
    ensures ParseRange(h).Some? ==>
      var k := 6 + IndexOf(h[6..], '-');
      && 7 <= k < |h| && AllDigits(h[6..k]) && AllDigits(h[k + 1..])
      && ParseRange(h).value.first == ParseDigits(h[6..k])
      && ParseRange(h).value.last == (if k + 1 == |h| then None else Some(ParseDigits(h[k + 1..])))
  {
    if ParseRange(h).Some? {
      var rest := h[6..];
      var k := IndexOf(rest, '-');
      assert rest[..k] == h[6..6 + k];
      assert rest[k + 1..] == h[6 + k + 1..];
      forall j | 6 <= j < |h| && j != 6 + k ensures IsDigit(h[j]) {
        if j < 6 + k { assert h[j] == rest[..k][j - 6]; } else { assert h[j] == rest[k + 1..][j - 7 - k]; }
      }
    }
    if RangeSyntax(h) {
      var k :| 7 <= k < |h| && h[k] == '-' && forall j :: 6 <= j < |h| && j != k ==> IsDigit(h[j]);
      DashPosition(h, k);
    }
  }

  /** In a header of the pattern's shape, the first `-` after `bytes=` is the separator. */
  lemma DashPosition(h: string, k: nat)
    requires 6 <= |h| && 7 <= k < |h| && h[k] == '-'
    requires forall j :: 6 <= j < |h| && j != k ==> IsDigit(h[j])
    ensures '-' in h[6..] && IndexOf(h[6..], '-') == k - 6
    ensures AllDigits(h[6..k]) && AllDigits(h[k + 1..])
  {
    var rest := h[6..];
    assert rest[k - 6] == '-';
    assert forall i :: 0 <= i < |rest| && i != k - 6 ==> IsDigit(rest[i]) by {
      forall i | 0 <= i < |rest| && i != k - 6 ensures IsDigit(rest[i]) { assert rest[i] == h[6 + i]; }
    }
    var m := IndexOf(rest, '-');
    assert m == k - 6;
    assert forall j :: 6 <= j < k ==> IsDigit(h[j]);
    assert forall j :: k + 1 <= j < |h| ==> IsDigit(h[j]);
  }

  /** Writing a range with `bytes=<first>-<last>` and parsing it back gives the positions. */
  lemma RangeRoundTrip(first: nat, last: Option<nat>)
    ensures ParseRange("bytes=" + NatToString(first) + "-" + (if last.Some? then NatToString(last.value) else ""))
         == Some(RangeSpec(first, last))
  {
    var a := NatToString(first);
    var b := if last.Some? then NatToString(last.value) else "";
    ParseWritten(a, b);
    ParseNatToString(first);
    if last.Some? { ParseNatToString(last.value); }
  }

  /** `bytes=<a>-<b>` for digit strings `a` (not empty) and `b` parses to their values. */
  lemma ParseWritten(a: string, b: string)
    requires a != [] && AllDigits(a) && AllDigits(b)
    ensures ParseRange("bytes=" + a + "-" + b) == Some(RangeSpec(ParseDigits(a), if b == [] then None else Some(ParseDigits(b))))
  {
    var rest := a + "-" + b;
    WrittenPrefix(rest);
    assert "bytes=" + a + "-" + b == "bytes=" + rest;
    FirstDash(a, b);
  }

  /** `bytes=` followed by anything: the prefix passes the case-insensitive test, the rest follows it. */
  lemma WrittenPrefix(rest: string)
    ensures var h := "bytes=" + rest; |h| >= 6 && Lower(h[..6]) == "bytes=" && h[6..] == rest
  {
    var h := "bytes=" + rest;
    assert h[..6] == "bytes=";
    LowerOfLower("bytes=");
  }

  /** In `<a>-<b>` with `a` all digits, the first dash is the one after `a`. */
  lemma FirstDash(a: string, b: string)
    requires AllDigits(a)
    ensures var rest := a + "-" + b;
      && '-' in rest && IndexOf(rest, '-') == |a|
      && rest[..|a|] == a && rest[|a| + 1..] == b
  {
    var rest := a + "-" + b;
    assert rest[|a|] == '-';
    assert forall i :: 0 <= i < |a| ==> rest[i] == a[i] && rest[i] != '-';
    assert rest[..|a|] == a;
    assert rest[|a| + 1..] == b;
  }

  /** The decimal strings the two examples below need. */
  lemma ExampleNumerals()
    ensures NatToString(0) == "0" && NatToString(99) == "99" && NatToString(100) == "100"
    ensures NatToString(500) == "500" && NatToString(600) == "600"
    ensures ContentRange(0, 99, 500) == "bytes 0-99/500"
    ensures UnsatisfiedRange(500) == "bytes */500"
  {
    assert NatToString(10) == "10" && NatToString(50) == "50" && NatToString(60) == "60";
  }

  /** The example of a 500-byte object asked for its first hundred bytes. */
  lemma FirstHundredOfFiveHundred(f: MediaFile)
    requires |f.data| == 500
    ensures var r := ServeFile(f, Some("bytes=0-99"));
      && r.status == 206
      && r.headers["Content-Range"] == "bytes 0-99/500"
      && r.headers["Content-Length"] == "100"
      && r.body == Bytes(f.data[..100])
  {
    var h := "bytes=0-99";
    ExampleNumerals();
    assert h == "bytes=" + NatToString(0) + "-" + NatToString(99);
    RangeRoundTrip(0, Some(99));
    PartialContent(f, h);
    PartialLength(f, h);
  }

  /** The example of a 500-byte object asked for bytes from 600 on. */
  lemma PastTheEndOfFiveHundred(f: MediaFile)
    requires |f.data| == 500
    ensures ServeFile(f, Some("bytes=600-")) == NotSatisfiable(f)
    ensures NotSatisfiable(f).headers["Content-Range"] == "bytes */500"
  {
    var h := "bytes=600-";
    ExampleNumerals();
    assert h == "bytes=" + NatToString(600) + "-" + "";
    RangeRoundTrip(600, None);
    UnsatisfiableRange(f, h);
  }

  /** The Express response object, reduced to what the controller sets on it. */
  class ServerResponse {
    var statusCode: nat
    var headers: map<string, string>
    var body: Body

    /** A new response: status 200, no headers, nothing written. */
    constructor ()
      ensures statusCode == 200 && headers == map[] && body == NoBody
    {
      statusCode, headers, body := 200, map[], NoBody;
    }

    function Sent(): Reply
      reads this
    {
      Reply(statusCode, headers, body)
    }

    /** `res.status(code)`. */
    method Status(code: nat)
      modifies this
      ensures statusCode == code && headers == old(headers) && body == old(body)
    {
      statusCode := code;
    }

    /** `res.setHeader(name, value)`. */
    method SetHeader(name: string, value: string)
      modifies this
      ensures headers == old(headers)[name := value]
      ensures statusCode == old(statusCode) && body == old(body)
    {
      headers := headers[name := value];
    }

    /** `res.json({ message })`. */
    method SendJson(message: string)
      modifies this
      ensures body == Json(message) && statusCode == old(statusCode) && headers == old(headers)
    {
      body := Json(message);
    }

    /** `stream.pipe(res)`: the stream's bytes become the body. */
    method Pipe(data: seq<byte>)
      modifies this
      ensures body == Bytes(data) && statusCode == old(statusCode) && headers == old(headers)
    {
      body := Bytes(data);
    }
  }

  /** `streamMedia(req, res)`, step by step; it ends in exactly the reply `Serve` gives. */
  method StreamMedia(bucket: Bucket, id: string, range: Option<string>, res: ServerResponse)
    requires res.statusCode == 200 && res.headers == map[] && res.body == NoBody
    modifies res
    ensures res.Sent() == Serve(bucket, id, range)
  {
    if !ObjectIds.IsValid(id) {
      res.Status(400);
      res.SendJson("Invalid media id");
      return;
    }
    var fileId := ObjectIds.Canonical(id);
    if fileId !in bucket {
      res.Status(404);
      res.SendJson("Media not found");
      return;
    }
    var file := bucket[fileId];
    var contentType := ContentTypeOf(file);
    var filename := SafeFilename(file);
    res.SetHeader("Content-Type", contentType);
    res.SetHeader("Content-Disposition", "inline; filename=\"" + filename + "\"");
    res.SetHeader("Accept-Ranges", "bytes");
    assert res.headers == FileHeaders(file);

    if range.Some? && range.value != [] {
      var spec := ParseRange(range.value);
      if spec.None? {
        res.Status(416);
        res.SetHeader("Content-Range", UnsatisfiedRange(|file.data|));
        assert res.Sent() == NotSatisfiable(file);
        return;
      }
      var start := spec.value.first;
      var end := EffectiveLast(spec.value, |file.data|);
      if start > end || start >= |file.data| {
        res.Status(416);
        res.SetHeader("Content-Range", UnsatisfiedRange(|file.data|));
        assert res.Sent() == NotSatisfiable(file);
        return;
      }
      var chunkSize := end - start + 1;
      res.Status(206);
      res.SetHeader("Content-Range", ContentRange(start, end, |file.data|));
      res.SetHeader("Content-Length", NatToString(chunkSize));
      res.Pipe(ReadSpan(file, start, end + 1));
      assert res.headers == PartialHeaders(file, start, end);
      RangeReply(file, range.value, spec.value, end);
      return;
    }

    res.SetHeader("Content-Length", NatToString(|file.data|));
    res.Pipe(file.data);
  }
}
