/** The decision the stream handler makes (backend/index.js:95-131): which status, which
    headers and which bytes of the file answer `GET /api/sermons/:id/stream`.

    The Range header is read with the unanchored expression `bytes=(\d+)-(\d*)`, a subset
    of the byte-range syntax of section 2.1 of RFC 7233: no suffix ranges, only the first
    range of a list, an end at or past the file size refused rather than clamped, and no
    check that the start is at most the end. An unsatisfiable range is answered with the
    `bytes *\/length` form of Content-Range of section 4.2 of RFC 7233; a satisfiable one
    with 206 and `bytes first-last/length`, as section 4.1 of RFC 7233 describes. */
module Streaming {
  import opened Wrappers
  import opened Text
  import opened Schema
  import opened Store

  /** The two capture groups: the start, and the end unless its digits were empty. */
  datatype RangeSpec = RangeSpec(start: nat, end: Option<nat>)

  /** Length of the run of ASCII digits at the head of `s`; `\d+` and `\d*` are greedy,
      and `\d+` followed by `-` can only match the whole run. */
  function DigitRun(s: string): (n: nat)
    ensures n <= |s| && AllDigits(s[..n])
    ensures n == |s| || !IsDigit(s[n])
  {
    if s != [] && IsDigit(s[0]) then
      var m := DigitRun(s[1..]);
      assert s[..m + 1] == [s[0]] + s[1..][..m];
      1 + m
    else 0
  }

  lemma {:induction false} DigitRunOf(ds: string, u: string)
    requires AllDigits(ds) && (u == [] || !IsDigit(u[0]))
    ensures DigitRun(ds + u) == |ds|
    decreases |ds|
  {
    if ds != [] {
      assert (ds + u)[0] == ds[0];
      assert (ds + u)[1..] == ds[1..] + u;
      DigitRunOf(ds[1..], u);
    } else {
      assert ds + u == u;
    }
  }

  /** `(\d+)-(\d*)` read from the head of `rest`. */
  function MatchDigits(rest: string): Option<RangeSpec> {
    var n := DigitRun(rest);
    if 0 < n < |rest| && rest[n] == '-' then
      var tail := rest[n + 1..];
      var e := DigitRun(tail);
      Some(RangeSpec(DecimalValue(rest[..n]),
                     if e == 0 then None else Some(DecimalValue(tail[..e]))))
    else None
  }

  /** The expression `bytes=(\d+)-(\d*)` tried at position `i` of the header. */
  function MatchAt(h: string, i: nat): Option<RangeSpec> {
    if i + 6 <= |h| && h[i..i + 6] == "bytes=" then MatchDigits(h[i + 6..]) else None
  }

  /** The leftmost position at or after `i` where the expression matches. */
  function FirstMatch(h: string, i: nat): (k: Option<nat>)
    ensures k.Some? ==> i <= k.value && MatchAt(h, k.value).Some?
    ensures forall j :: i <= j && (k.None? || j < k.value) ==> MatchAt(h, j).None?
    decreases |h| - i
  {
    if i + 6 > |h| then None
    else if MatchAt(h, i).Some? then Some(i)
    else FirstMatch(h, i + 1)
  }

  /** `/bytes=(\d+)-(\d*)/.exec(range)`: the match that starts leftmost, or none. */
  function ParseRange(h: string): (m: Option<RangeSpec>)
    ensures m.None? ==> forall k :: MatchAt(h, k).None?
    ensures m.Some? ==> exists k: nat :: MatchAt(h, k) == m && forall j :: 0 <= j < k ==> MatchAt(h, j).None?
  {
    match FirstMatch(h, 0)
    case None => None
    case Some(k) => MatchAt(h, k)
  }

  /** The header a client sends for one range, `bytes=<start>-<end>` or `bytes=<start>-`. */
  function RangeHeader(start: nat, end: Option<nat>): string {
    "bytes=" + Decimal(start) + "-" + (if end.Some? then Decimal(end.value) else "")
  }

  /** Reading a well-formed range header gives back its bounds, whatever follows it,
      as long as it does not continue the last run of digits. */
  lemma {:induction false} ParseRangeHeader(start: nat, end: Option<nat>, t: string)
    requires t == [] || !IsDigit(t[0])
    ensures ParseRange(RangeHeader(start, end) + t) == Some(RangeSpec(start, end))
  {
    var ds := Decimal(start);
    var de := if end.Some? then Decimal(end.value) else "";
    var h := RangeHeader(start, end) + t;
    var rest := ds + ("-" + (de + t));
    assert h == "bytes=" + rest;
    assert h[0..6] == "bytes=" && h[6..] == rest;
    MatchDigitsOf(start, end, t);
    assert MatchAt(h, 0) == Some(RangeSpec(start, end));
  }

  lemma MatchDigitsOf(start: nat, end: Option<nat>, t: string)
    requires t == [] || !IsDigit(t[0])
    ensures var de := if end.Some? then Decimal(end.value) else "";
      MatchDigits(Decimal(start) + ("-" + (de + t))) == Some(RangeSpec(start, end))
  {
    var ds := Decimal(start);
    var de := if end.Some? then Decimal(end.value) else "";
    var rest := ds + ("-" + (de + t));
    DigitRunOf(ds, "-" + (de + t));
    assert rest[|ds|] == '-';
    assert rest[..|ds|] == ds;
    var tail := rest[|ds| + 1..];
    assert tail == de + t;
    DigitRunOf(de, t);
    assert tail[..|de|] == de;
    DecimalRoundTrip(start);
    if end.Some? { DecimalRoundTrip(end.value); }
  }

  /** Only the first range of a list is read: the rest of the header is ignored. */
  lemma OnlyFirstRangeRead(start: nat, end: nat, others: string)
    ensures ParseRange(RangeHeader(start, Some(end)) + "," + others) ==
      Some(RangeSpec(start, Some(end)))
  {
    assert RangeHeader(start, Some(end)) + "," + others ==
      RangeHeader(start, Some(end)) + ("," + others);
    ParseRangeHeader(start, Some(end), "," + others);
  }

  /** A suffix range has no start digits, so the expression does not match it. */
  lemma SuffixRangeUnreadable()
    ensures ParseRange("bytes=-500") == None
  {
    var h := "bytes=-500";
    assert MatchAt(h, 0).None? by { assert h[0..6] == "bytes=" && h[6..][0] == '-'; }
    assert h[1] != 'b' && h[2] != 'b' && h[3] != 'b' && h[4] != 'b';
    assert forall j :: 1 <= j ==> MatchAt(h, j).None? by {
      forall j | 1 <= j ensures MatchAt(h, j).None? {
        if j + 6 <= |h| { assert h[j..j + 6][0] == h[j]; }
      }
    }
  }

  /** What the client receives besides the status and headers. */
  datatype Body =
    | NoBody                                       // res.end()
    | ErrorJson(message: string)                   // res.json({ error: message })
    | WholeFile(path: string)                      // createReadStream(path).pipe(res)
    | FileRange(path: string, start: nat, end: nat) // createReadStream(path, { start, end })
    | ErrorPage                                    // Express's default error handler

  /** Status, the four headers the handler itself sets (None: the handler does not set it,
      or Express's error handler has removed or replaced it), and the body. Headers that
      Express adds on its own (the JSON type of `res.json`, the `Content-Length: 0` of
      `res.end()`) are not recorded. */
  datatype Response = Response(
    status: nat,
    contentType: Option<string>,
    acceptRanges: Option<string>,
    contentRange: Option<string>,
    contentLength: Option<int>,
    body: Body)

  /** `if (range)`: an absent or empty header asks for the whole file. */
  predicate NoRange(range: Option<string>) {
    range.None? || range.value == ""
  }

  /** The last byte asked for: the end given, or the last byte of the file. */
  function EndOf(spec: RangeSpec, size: nat): int {
    if spec.end.Some? then spec.end.value else size - 1
  }

  predicate Satisfiable(spec: RangeSpec, size: nat) {
    spec.start < size && EndOf(spec, size) < size
  }

  /** The handler after its row lookup. `row` is what the SELECT by id returned; the
      size used from here on is the length of the file on disk, never the stored size.
      A range whose start and end both lie inside the file passes the handler's test even
      when the start is past the end; `createReadStream` then throws (its start may not
      exceed its end) before any byte is written, and Express's default error handler
      answers 500 with its own page, dropping Content-Range and replacing the type and
      length. */
  function Respond(row: Option<Record>, disk: Disk, range: Option<string>): (resp: Response)
    ensures row.None? ==> resp.status == 404 && resp.body == ErrorJson("Not found")
    ensures row.Some? && row.value.filepath !in disk ==>
      resp.status == 404 && resp.body == ErrorJson("File missing")
    ensures resp.status == 404 <==> row.None? || row.value.filepath !in disk
    ensures resp.status in {200, 206, 404, 416, 500}
    ensures resp.status in {200, 206, 416} ==>
      resp.contentType == Some(row.value.mimetype) && resp.acceptRanges == Some("bytes")
    ensures resp.status == 200 <==> resp.status != 404 && NoRange(range)
    ensures resp.status == 200 ==>
      && resp.contentLength == Some(|disk[row.value.filepath]|)
      && resp.body == WholeFile(row.value.filepath)
    ensures resp.status == 416 ==> resp.body == NoBody && resp.contentLength.None?
    ensures resp.status == 206 ==>
      && resp.body.FileRange? && resp.body.path == row.value.filepath
      && resp.body.start <= resp.body.end < |disk[row.value.filepath]|
      && resp.contentLength == Some(resp.body.end - resp.body.start + 1)
    ensures resp.status == 500 ==>
      resp.body == ErrorPage && resp.contentRange.None? && resp.contentLength.None?
  {
    match row
    case None => Response(404, None, None, None, None, ErrorJson("Not found"))
    case Some(rec) =>
      if rec.filepath !in disk then
        Response(404, None, None, None, None, ErrorJson("File missing"))
      else
        var size := |disk[rec.filepath]|;
        var contentType, acceptRanges := Some(rec.mimetype), Some("bytes");
        if NoRange(range) then
          Response(200, contentType, acceptRanges, None, Some(size), WholeFile(rec.filepath))
        else
          match ParseRange(range.value)
          case None => Response(416, contentType, acceptRanges, None, None, NoBody)
          case Some(spec) =>
            var start, end := spec.start, EndOf(spec, size);
            if start >= size || end >= size then
              Response(416, contentType, acceptRanges, Some("bytes */" + Decimal(size)), None, NoBody)
            else if start > end then
              Response(500, None, acceptRanges, None, None, ErrorPage)
            else
              Response(206, contentType, acceptRanges,
                       Some("bytes " + Decimal(start) + "-" + Decimal(end) + "/" + Decimal(size)),
                       Some(end - start + 1), FileRange(rec.filepath, start, end))
  }

  /** With a Range header present: 416 without Content-Range when the header does not
      match, 416 with `bytes *\/size` when the start or the end is not inside the file,
      500 when both are inside but the start is past the end, and otherwise 206 for
      exactly the bytes asked for. */
  lemma RangeOutcome(rec: Record, disk: Disk, h: string)
    requires rec.filepath in disk && h != ""
    ensures var size := |disk[rec.filepath]|;
      var resp := Respond(Some(rec), disk, Some(h));
      && (ParseRange(h).None? ==> resp.status == 416 && resp.contentRange.None?)
      && (ParseRange(h).Some? && !Satisfiable(ParseRange(h).value, size) ==>
            resp.status == 416 && resp.contentRange == Some("bytes */" + Decimal(size)))
      && (ParseRange(h).Some? && Satisfiable(ParseRange(h).value, size) &&
          ParseRange(h).value.start > EndOf(ParseRange(h).value, size) ==>
            resp.status == 500 && resp.body == ErrorPage && resp.contentRange.None?)
      && (ParseRange(h).Some? && Satisfiable(ParseRange(h).value, size) &&
          ParseRange(h).value.start <= EndOf(ParseRange(h).value, size) ==>
            var start, end := ParseRange(h).value.start, EndOf(ParseRange(h).value, size);
            && resp.status == 206
            && 0 <= end < size
            && resp.contentRange == Some("bytes " + Decimal(start) + "-" + Decimal(end) + "/" + Decimal(size))
            && resp.contentLength == Some(end - start + 1)
            && resp.body == FileRange(rec.filepath, start, end))
  {
  }

  /** The stored `size` column plays no part in the answer. */
  lemma StoredSizeIgnored(rec: Record, stored: int, disk: Disk, range: Option<string>)
    ensures Respond(Some(rec), disk, range) == Respond(Some(rec.(size := stored)), disk, range)
  {
  }

  /** A zero-byte file satisfies no range at all. */
  lemma EmptyFileRefusesEveryRange(rec: Record, disk: Disk, h: string)
    requires rec.filepath in disk && |disk[rec.filepath]| == 0 && h != ""
    ensures Respond(Some(rec), disk, Some(h)).status == 416
  {
  }

  lemma ParseFirstByte()
    ensures ParseRange("bytes=0-0") == Some(RangeSpec(0, Some(0)))
  {
    assert Decimal(0) == "0";
    assert RangeHeader(0, Some(0)) + "" == "bytes=0-0";
    ParseRangeHeader(0, Some(0), "");
  }

  /** `bytes=0-0` on a non-empty file: 206 for one byte. */
  lemma FirstByteOnly(rec: Record, disk: Disk)
    requires rec.filepath in disk && |disk[rec.filepath]| > 0
    ensures var size := |disk[rec.filepath]|;
      var resp := Respond(Some(rec), disk, Some("bytes=0-0"));
      && resp.status == 206
      && resp.contentRange == Some("bytes 0-0/" + Decimal(size))
      && resp.contentLength == Some(1)
  {
    var size := |disk[rec.filepath]|;
    ParseFirstByte();
    assert EndOf(ParseRange("bytes=0-0").value, size) == 0;
    RangeOutcome(rec, disk, "bytes=0-0");
    assert Decimal(0) == "0";
    assert "bytes " + Decimal(0) + "-" + Decimal(0) + "/" + Decimal(size) ==
      "bytes 0-0/" + Decimal(size);
  }

  /** `bytes=N-N` on an N-byte file: the end equals the size, so 416 with `bytes *\/N`. */
  lemma EndAtSizeRefused(rec: Record, disk: Disk)
    requires rec.filepath in disk
    ensures var size := |disk[rec.filepath]|;
      var resp := Respond(Some(rec), disk, Some(RangeHeader(size, Some(size))));
      resp.status == 416 && resp.contentRange == Some("bytes */" + Decimal(size))
  {
    var size := |disk[rec.filepath]|;
    assert RangeHeader(size, Some(size)) + "" == RangeHeader(size, Some(size));
    ParseRangeHeader(size, Some(size), "");
  }

  /** `bytes=0-` on a non-empty file: 206 for the whole file, as `bytes 0-(N-1)/N`. */
  lemma OpenEndedRange(rec: Record, disk: Disk)
    requires rec.filepath in disk && |disk[rec.filepath]| > 0
    ensures var size := |disk[rec.filepath]|;
      var resp := Respond(Some(rec), disk, Some("bytes=0-"));
      && resp.status == 206
      && resp.contentRange == Some("bytes 0-" + Decimal(size - 1) + "/" + Decimal(size))
      && resp.contentLength == Some(size)
  {
    var size := |disk[rec.filepath]|;
    assert Decimal(0) == "0";
    assert RangeHeader(0, None) + "" == "bytes=0-";
    ParseRangeHeader(0, None, "");
    assert "bytes " + Decimal(0) + "-" + Decimal(size - 1) + "/" + Decimal(size) ==
      "bytes 0-" + Decimal(size - 1) + "/" + Decimal(size);
  }

  /** A start past the end inside the file passes the handler's bounds test, so no 416
      is sent; the stream cannot be opened and the client gets Express's 500 page, with
      no Content-Range and no bytes of the file. */
  lemma StartAfterEndFails(rec: Record, disk: Disk, start: nat, end: nat)
    requires rec.filepath in disk && end < start < |disk[rec.filepath]|
    ensures var resp := Respond(Some(rec), disk, Some(RangeHeader(start, Some(end))));
      && resp.status == 500 && resp.body == ErrorPage && resp.contentRange.None?
      && Payload(resp, disk) == []
  {
    var h := RangeHeader(start, Some(end));
    assert h + "" == h;
    ParseRangeHeader(start, Some(end), "");
    assert EndOf(ParseRange(h).value, |disk[rec.filepath]|) == end;
    RangeOutcome(rec, disk, h);
  }

  /** The bytes of the file that reach the client: all of them for a whole-file body,
      the span a range body names, and none for an error. */
  function Payload(resp: Response, disk: Disk): Bytes {
    match resp.body
    case WholeFile(p) => if p in disk then disk[p] else []
    case FileRange(p, s, e) => if p in disk && s <= e < |disk[p]| then disk[p][s..e + 1] else []
    case _ => []
  }

  /** The bytes sent for a response of the shape `Respond` produces. */
  lemma PayloadOfShape(resp: Response, disk: Disk, path: string)
    requires path in disk
    requires resp.status == 200 ==>
      resp.contentLength == Some(|disk[path]|) && resp.body == WholeFile(path)
    requires resp.status == 206 ==>
      && resp.body.FileRange? && resp.body.path == path
      && resp.body.start <= resp.body.end < |disk[path]|
      && resp.contentLength == Some(resp.body.end - resp.body.start + 1)
    requires resp.status !in {200, 206} ==> !resp.body.WholeFile? && !resp.body.FileRange?
    ensures resp.status in {200, 206} ==> resp.contentLength == Some(|Payload(resp, disk)|)
    ensures resp.status == 206 ==>
      Payload(resp, disk) == disk[path][resp.body.start..resp.body.end + 1]
    ensures resp.status !in {200, 206} ==> Payload(resp, disk) == []
  {
  }

  /** For 200 and 206, Content-Length is exactly the number of bytes sent, and a 206
      sends the file's bytes from start to end; every other answer sends no file bytes. */
  lemma PayloadMatchesHeaders(row: Option<Record>, disk: Disk, range: Option<string>)
    ensures var resp := Respond(row, disk, range);
      && (resp.status in {200, 206} ==> resp.contentLength == Some(|Payload(resp, disk)|))
      && (resp.status == 206 ==>
            Payload(resp, disk) == disk[row.value.filepath][resp.body.start..resp.body.end + 1])
      && (resp.status !in {200, 206} ==> Payload(resp, disk) == [])
  {
    var resp := Respond(row, disk, range);
    if resp.status == 404 {
      assert resp.body.ErrorJson?;
    } else {
      PayloadOfShape(resp, disk, row.value.filepath);
    }
  }

  /** The whole handler: look the id up, then decide. An unknown id and a known id whose
      file is gone are told apart. */
  function Stream(catalog: Catalog, id: string, disk: Disk, range: Option<string>): (resp: Response)
    reads catalog
    requires catalog.Valid()
    ensures resp.body == ErrorJson("Not found") <==> !HasId(catalog.rows, id)
    ensures resp.body == ErrorJson("File missing") <==>
      exists k :: 0 <= k < |catalog.rows| && catalog.rows[k].id == id && catalog.rows[k].filepath !in disk
  {
    Respond(catalog.Find(id), disk, range)
  }
}
