/** The two write-and-list handlers of backend/index.js: the admin upload
    (`POST /api/admin/upload`, lines 21-37 and 138-171) and the listing
    (`GET /api/sermons`, lines 48-85). */
module Server {
  import opened Wrappers
  import opened Text
  import opened Schema
  import opened FileNames
  import opened Query
  import opened Store
  import opened Streaming

  /** `limits: { fileSize: 200 * 1024 * 1024 }`. */
  const MaxFileSize: nat := 200 * 1024 * 1024

  /** The text fields of the multipart body; a field that was not sent is None. */
  datatype Form = Form(title: Option<string>, speaker: Option<string>, date: Option<string>)

  /** The file part: the name the client gave it, its declared type and its bytes. */
  datatype UploadedFile = UploadedFile(originalName: string, mimetype: string, content: Bytes)

  /** The fields once the schema has accepted them. */
  datatype Fields = Fields(title: string, speaker: string, date: string)

  /** The handler's outcomes. The first two are errors multer raises before the handler
      runs; `Conflict` is the INSERT failing on the primary key. */
  datatype UploadResult =
    | FileRejected      // "Only audio files allowed"
    | FileTooLarge      // the 200 MB limit
    | InvalidFields     // 400 { error: "Invalid fields" }
    | MissingFile       // 400 { error: "Missing file" }
    | Conflict          // the INSERT throws
    | Created(id: string)

  /** The status the client sees. Errors handed to Express without a status of their own
      are answered with 500 by its default error handler. */
  function StatusOf(res: UploadResult): (code: nat)
    ensures code == 200 <==> res.Created?
    ensures code == 400 <==> res == InvalidFields || res == MissingFile
    ensures code == 500 <==> res == FileRejected || res == FileTooLarge || res == Conflict
  {
    match res
    case Created(_) => 200
    case InvalidFields => 400
    case MissingFile => 400
    case _ => 500
  }

  /** The file filter: only a declared type starting with `audio/` is let through. */
  predicate AcceptsFile(mimetype: string) {
    StartsWith(mimetype, "audio/")
  }

  /** multer writes the file part to the uploads directory when the filter lets it
      through and it is within the size limit. */
  predicate Stored(file: Option<UploadedFile>) {
    file.Some? && AcceptsFile(file.value.mimetype) && |file.value.content| <= MaxFileSize
  }

  /** The zod schema: title and speaker are strings of at least one character (nothing is
      trimmed), date matches `^\d{4}-\d{2}-\d{2}$`. */
  function ParseFields(form: Form): (r: Option<Fields>)
    ensures r.Some? <==>
      && form.title.Some? && form.speaker.Some? && form.date.Some?
      && |form.title.value| >= 1 && |form.speaker.value| >= 1
      && IsDateShaped(form.date.value)
    ensures r.Some? ==>
      r.value == Fields(form.title.value, form.speaker.value, form.date.value)
  {
    match (form.title, form.speaker, form.date)
    case (Some(t), Some(s), Some(d)) =>
      if |t| >= 1 && |s| >= 1 && IsDateShaped(d) then Some(Fields(t, s, d)) else None
    case _ => None
  }

  /** The schema checks shape only: a blank title, an impossible calendar date and a
      date with one-digit parts are treated as shown. */
  lemma SchemaChecksShapeOnly()
    ensures ParseFields(Form(Some(" "), Some("Ali"), Some("2024-99-99"))).Some?
    ensures ParseFields(Form(Some("Tawheed"), Some("Ali"), Some("2024-1-1"))).None?
    ensures ParseFields(Form(Some(""), Some("Ali"), Some("2024-01-05"))).None?
  {
  }

  /** Why the upload is turned away before the INSERT, if it is. A rejected or oversized
      file stops the request before the handler; then the fields are checked, then the
      presence of a file. */
  function Refusal(form: Form, file: Option<UploadedFile>): (r: Option<UploadResult>)
    ensures r == Some(FileRejected) <==> file.Some? && !AcceptsFile(file.value.mimetype)
    ensures r == Some(FileTooLarge) <==>
      file.Some? && AcceptsFile(file.value.mimetype) && |file.value.content| > MaxFileSize
    ensures r == Some(InvalidFields) <==> (file.None? || Stored(file)) && ParseFields(form).None?
    ensures r == Some(MissingFile) <==> file.None? && ParseFields(form).Some?
    ensures r.None? <==> Stored(file) && ParseFields(form).Some?
  {
    if file.Some? && !AcceptsFile(file.value.mimetype) then Some(FileRejected)
    else if file.Some? && |file.value.content| > MaxFileSize then Some(FileTooLarge)
    else if ParseFields(form).None? then Some(InvalidFields)
    else if file.None? then Some(MissingFile)
    else None
  }

  /** The row the handler inserts: the client's file name, the stored path, the declared
      type, the byte count, no duration. */
  function UploadRecord(fields: Fields, file: UploadedFile, id: string, stamp: nat,
                        now: string, dir: string): Record
  {
    Record(id, fields.title, fields.speaker, fields.date, file.originalName,
           StoredPath(dir, stamp, file.originalName), file.mimetype, |file.content|, None, now)
  }

  /** A stored row keeps what it was given and describes an audio file inside `dir`. */
  lemma UploadRecordDescribesFile(fields: Fields, file: UploadedFile, id: string, stamp: nat,
                                  now: string, dir: string)
    requires AcceptsFile(file.mimetype)
    ensures var r := UploadRecord(fields, file, id, stamp, now, dir);
      && r.id == id && r.title == fields.title && r.speaker == fields.speaker
      && r.date == fields.date && r.filename == file.originalName
      && StartsWith(r.mimetype, "audio/") && r.size == |file.content|
      && r.durationSeconds.None? && r.createdAt == now
      && StartsWith(r.filepath, dir + "/") && AllSafe(r.filepath[|dir| + 1..])
  {
  }

  /** The whole upload request. `id`, `stamp` and `now` are what `nanoid()`, `Date.now()`
      and `new Date().toISOString()` returned; `disk` is the file system before the
      request and `after` the file system once multer has written the file, which stays
      there whatever the handler decides. */
  method Upload(catalog: Catalog, disk: Disk, form: Form, file: Option<UploadedFile>,
                id: string, stamp: nat, now: string, dir: string)
    returns (res: UploadResult, after: Disk)
    requires catalog.Valid()
    modifies catalog
    ensures catalog.Valid()
    ensures after == if Stored(file) then disk[StoredPath(dir, stamp, file.value.originalName) := file.value.content]
                     else disk
    ensures Refusal(form, file).Some? ==>
      res == Refusal(form, file).value && catalog.rows == old(catalog.rows)
    ensures Refusal(form, file).None? && HasId(old(catalog.rows), id) ==>
      res == Conflict && catalog.rows == old(catalog.rows)
    ensures Refusal(form, file).None? && !HasId(old(catalog.rows), id) ==>
      && res == Created(id)
      && catalog.rows ==
           old(catalog.rows) + [UploadRecord(ParseFields(form).value, file.value, id, stamp, now, dir)]
  {
    after := disk;
    if Stored(file) {
      after := after[StoredPath(dir, stamp, file.value.originalName) := file.value.content];
    }
    var refusal := Refusal(form, file);
    if refusal.Some? {
      res := refusal.value;
      return;
    }
    var fields := ParseFields(form).value;
    var ok := catalog.Insert(UploadRecord(fields, file.value, id, stamp, now, dir));
    res := if ok then Created(id) else Conflict;
  }

  /** What a successful upload leaves behind can be played back at once: streaming the
      new id without a Range header answers 200 with the uploaded bytes. */
  lemma UploadThenStream(rows: seq<Record>, disk: Disk, fields: Fields, file: UploadedFile,
                         id: string, stamp: nat, now: string, dir: string)
    requires !HasId(rows, id)
    ensures var r := UploadRecord(fields, file, id, stamp, now, dir);
      var after := disk[r.filepath := file.content];
      var resp := Respond(FindRow(rows + [r], id), after, None);
      && resp.status == 200
      && resp.contentType == Some(file.mimetype)
      && resp.contentLength == Some(|file.content|)
      && Payload(resp, after) == file.content
  {
    var r := UploadRecord(fields, file, id, stamp, now, dir);
    FindAfterAppend(rows, r, id);
  }

  /** Two uploads in the same millisecond whose names sanitise alike are written to the
      same path, and the later one replaces the earlier one's bytes. */
  lemma SameStampSharesPath(dir: string, stamp: nat, a: UploadedFile, b: UploadedFile)
    requires Sanitize(a.originalName) == Sanitize(b.originalName)
    ensures StoredPath(dir, stamp, a.originalName) == StoredPath(dir, stamp, b.originalName)
  {
  }

  /** `(req.query.x || "").toString().trim()`: an absent parameter reads as empty. */
  function Param(p: Option<string>): (r: string)
    ensures p.None? ==> r == ""
    ensures p.Some? ==> r == Trim(p.value)
  {
    if p.Some? then Trim(p.value) else ""
  }

  /** The WHERE list the handler pushes: the search first, then the speaker, each only
      when its trimmed parameter is non-empty. */
  function ListingClauses(q: Option<string>, speaker: Option<string>): seq<Clause> {
    (if Param(q) != "" then [TitleOrSpeakerLike(Param(q))] else [])
    + (if Param(speaker) != "" then [SpeakerEquals(Param(speaker))] else [])
  }

  /** The `orderSql` if-chain: newest first unless `sort` names one of the other three. */
  function OrderFor(sort: Option<string>): (o: Order)
    ensures o == DateAsc <==> sort == Some("date_asc")
    ensures o == TitleAsc <==> sort == Some("title_asc")
    ensures o == TitleDesc <==> sort == Some("title_desc")
  {
    if sort == Some("date_asc") then DateAsc
    else if sort == Some("title_asc") then TitleAsc
    else if sort == Some("title_desc") then TitleDesc
    else DateDesc
  }

  /** A row is listed for `q` and `speaker` when the trimmed search text occurs in its
      title or speaker without regard to ASCII case, and its speaker is exactly the
      trimmed speaker; a parameter that trims to nothing imposes nothing. */
  predicate Matches(q: Option<string>, speaker: Option<string>, r: Record) {
    && (Param(q) == "" || ContainsFolded(r.title, Param(q)) || ContainsFolded(r.speaker, Param(q)))
    && (Param(speaker) == "" || r.speaker == Param(speaker))
  }

  /** The WHERE list means exactly `Matches`, in both directions. */
  lemma ListingClausesMeaning(q: Option<string>, speaker: Option<string>, r: Record)
    ensures HoldsAll(ListingClauses(q, speaker), r) <==> Matches(q, speaker, r)
  {
    var search, name := Param(q), Param(speaker);
    var cs := ListingClauses(q, speaker);
    if search == "" && name == "" {
      assert cs == [];
    } else if search == "" {
      assert cs == [SpeakerEquals(name)];
      assert HoldsAll(cs, r) <==> Holds(cs[0], r);
    } else if name == "" {
      assert cs == [TitleOrSpeakerLike(search)];
      assert HoldsAll(cs, r) <==> Holds(cs[0], r);
    } else {
      assert cs == [TitleOrSpeakerLike(search), SpeakerEquals(name)];
      assert HoldsAll(cs, r) <==> Holds(cs[0], r) && Holds(cs[1], r);
    }
  }

  /** The WHERE list, pushed clause by clause as the handler does. */
  method BuildWhere(q: Option<string>, speaker: Option<string>) returns (where: seq<Clause>)
    ensures where == ListingClauses(q, speaker)
    ensures forall r :: HoldsAll(where, r) <==> Matches(q, speaker, r)
  {
    var search := Param(q);
    var name := Param(speaker);
    where := [];
    if search != "" {
      where := where + [TitleOrSpeakerLike(search)];
    }
    if name != "" {
      where := where + [SpeakerEquals(name)];
    }
    assert where == ListingClauses(q, speaker) by {
      if search == "" { assert [] + where == where; }
    }
    forall r ensures HoldsAll(where, r) <==> Matches(q, speaker, r) {
      ListingClausesMeaning(q, speaker, r);
    }
  }

  /** The `orderSql` chain: start from newest first, and let each matching test replace it. */
  method BuildOrder(sort: Option<string>) returns (order: Order)
    ensures order == OrderFor(sort)
  {
    var sortKey := if sort.Some? then sort.value else "date_desc";
    order := DateDesc;
    if sortKey == "date_asc" { order := DateAsc; }
    if sortKey == "title_asc" { order := TitleAsc; }
    if sortKey == "title_desc" { order := TitleDesc; }
  }

  /** `GET /api/sermons`: the WHERE list and the ORDER BY, then the query. */
  method ListSermons(catalog: Catalog, q: Option<string>, speaker: Option<string>,
                     sort: Option<string>)
    returns (items: seq<Item>)
    ensures items == Run(catalog.rows, ListingClauses(q, speaker), OrderFor(sort))
    ensures SortedBy(OrderFor(sort), items) && |items| <= Limit
    ensures forall i :: 0 <= i < |items| ==>
      exists r :: r in catalog.rows && Matches(q, speaker, r) && ToItem(r) == items[i]
  {
    var where := BuildWhere(q, speaker);
    var order := BuildOrder(sort);
    items := catalog.Select(where, order);
    ListingOnlyMatches(catalog.rows, q, speaker, order);
  }

  /** Every listed item comes from a row that matches the parameters. */
  lemma ListingOnlyMatches(rows: seq<Record>, q: Option<string>, speaker: Option<string>, o: Order)
    ensures var items := Run(rows, ListingClauses(q, speaker), o);
      forall i :: 0 <= i < |items| ==>
        exists r :: r in rows && Matches(q, speaker, r) && ToItem(r) == items[i]
  {
    forall i | 0 <= i < |Run(rows, ListingClauses(q, speaker), o)|
      ensures exists r ::
        r in rows && Matches(q, speaker, r) && ToItem(r) == Run(rows, ListingClauses(q, speaker), o)[i]
    {
      ListedItemMatches(rows, q, speaker, o, i);
    }
  }

  lemma ListedItemMatches(rows: seq<Record>, q: Option<string>, speaker: Option<string>,
                          o: Order, i: nat)
    requires i < |Run(rows, ListingClauses(q, speaker), o)|
    ensures exists r ::
      r in rows && Matches(q, speaker, r) && ToItem(r) == Run(rows, ListingClauses(q, speaker), o)[i]
  {
    var cs := ListingClauses(q, speaker);
    RunOnlyMatches(rows, cs, o, i);
    var r :| r in rows && HoldsAll(cs, r) && ToItem(r) == Run(rows, cs, o)[i];
    ListingClausesMeaning(q, speaker, r);
  }

  /** Every matching row is listed when no more than 200 match. */
  lemma ListingComplete(rows: seq<Record>, q: Option<string>, speaker: Option<string>,
                        sort: Option<string>, r: Record)
    requires r in rows && Matches(q, speaker, r)
    requires |Filter(rows, ListingClauses(q, speaker))| <= Limit
    ensures ToItem(r) in Run(rows, ListingClauses(q, speaker), OrderFor(sort))
  {
    ListingClausesMeaning(q, speaker, r);
    var kept := Filter(rows, ListingClauses(q, speaker));
    ItemOfRow(kept, r);
    assert ToItem(r) in multiset(Run(rows, ListingClauses(q, speaker), OrderFor(sort)));
  }

  lemma FoldedSearchExample()
    ensures ContainsFolded("The Caliphate", "ALI")
  {
    var t, l := Lower("The Caliphate"), Lower("ALI");
    assert l[0] == 'a' && l[1] == 'l' && l[2] == 'i';
    assert t[5] == 'a' && t[6] == 'l' && t[7] == 'i';
    assert t[5..8] == l;
    assert OccursAt(t, l, 5);
  }

  /** The search ignores ASCII case: `ALI` finds a title containing "Caliphate", while
      the speaker filter is exact. */
  lemma SearchIgnoresCase(r: Record)
    requires r.title == "The Caliphate" && r.speaker == "Ali Hassan"
    ensures Matches(Some("ALI"), None, r)
    ensures !Matches(None, Some("ali hassan"), r)
  {
    TrimUnpadded("ALI");
    TrimUnpadded("ali hassan");
    FoldedSearchExample();
  }
}
