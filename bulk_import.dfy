/** The bulk import script (backend/scripts/bulkImport.js): pick the audio files of a
    directory by extension, copy each into the uploads directory under a sanitised,
    time-stamped name, guess speaker, title and date from the file name, guess the MIME
    type from the extension, and insert one row per file. */
module BulkImport {
  import opened Wrappers
  import opened Text
  import opened Schema
  import opened FileNames
  import opened Store

  /** One entry of the source directory: its name and its bytes. */
  datatype SourceFile = SourceFile(name: string, content: Bytes)

  /** The alternatives of `(mp3|wav|m4a|ogg)`, in lower case. */
  const AudioExtensions: set<string> := {"mp3", "wav", "m4a", "ogg"}

  /** `/\.(mp3|wav|m4a|ogg)$/i.test(f)`: the name ends in a dot and one of the four
      extensions in any mix of ASCII case. Every alternative is three characters long,
      so the only place the expression can match is four characters from the end. */
  predicate IsAudioName(f: string) {
    |f| >= 4 && f[|f| - 4] == '.' && Lower(f[|f| - 3..]) in AudioExtensions
  }

  /** Upper case counts; an audio extension that is not the last one does not. */
  lemma AudioNameExamples()
    ensures IsAudioName("Talk.MP3")
    ensures !IsAudioName("talk.mp3.txt")
  {
    var up, txt := Lower("MP3"), Lower("txt");
    assert up[0] == 'm' && up[1] == 'p' && up[2] == '3';
    assert up == "mp3";
    assert txt[0] == 't';
  }

  /** `readdirSync(srcDir).filter(...)`: the audio files, in directory order. */
  function AudioFiles(entries: seq<SourceFile>): (files: seq<SourceFile>)
    ensures |files| <= |entries|
    ensures forall e :: e in files <==> e in entries && IsAudioName(e.name)
  {
    if entries == [] then []
    else (if IsAudioName(entries[0].name) then [entries[0]] else []) + AudioFiles(entries[1..])
  }

  /** The filter keeps directory order: filtering a listing is filtering its two halves. */
  lemma {:induction false} AudioFilesAppend(a: seq<SourceFile>, b: seq<SourceFile>)
    ensures AudioFiles(a + b) == AudioFiles(a) + AudioFiles(b)
    decreases |a|
  {
    if a == [] {
      assert a + b == b;
    } else {
      assert (a + b)[0] == a[0] && (a + b)[1..] == a[1..] + b;
      AudioFilesAppend(a[1..], b);
    }
  }

  /** The position of the last `.` among the first `n` characters of `s`, if any. */
  function LastDotBefore(s: string, n: nat): (k: Option<nat>)
    requires n <= |s|
    ensures k.Some? ==> k.value < n
  {
    if n == 0 then None
    else if s[n - 1] == '.' then Some(n - 1)
    else LastDotBefore(s, n - 1)
  }

  /** The position found holds a dot and no dot follows it below `n`; when there is none,
      no dot comes before `n` at all. */
  lemma {:induction false} LastDotBeforeMeaning(s: string, n: nat)
    requires n <= |s|
    ensures var k := LastDotBefore(s, n);
      && (k.Some? ==> s[k.value] == '.' && forall j :: k.value < j < n ==> s[j] != '.')
      && (k.None? ==> forall j :: 0 <= j < n ==> s[j] != '.')
  {
    if n > 0 && s[n - 1] != '.' {
      LastDotBeforeMeaning(s, n - 1);
    }
  }

  /** The position of the last `.` in `s`, if any. */
  function LastDot(s: string): Option<nat> {
    LastDotBefore(s, |s|)
  }

  /** `f.replace(/\.[^.]+$/, "")`: the last `.` and everything after it are dropped, when
      at least one character follows it; otherwise the name is kept whole. */
  function BaseName(f: string): string {
    match LastDot(f)
    case None => f
    case Some(k) => if k + 1 < |f| then f[..k] else f
  }

  /** What the expression removes: a dot followed by a non-empty run without dots at the
      end; a name without such a tail is kept. */
  lemma BaseNameMeaning(f: string)
    ensures var base := BaseName(f);
      base == f || (
        && |base| + 1 < |f| && f[..|base|] == base && f[|base|] == '.'
        && forall j :: |base| < j < |f| ==> f[j] != '.')
    ensures BaseName(f) == f ==> f == [] || f[|f| - 1] == '.' || forall j :: 0 <= j < |f| ==> f[j] != '.'
  {
    LastDotBeforeMeaning(f, |f|);
  }

  /** An audio name loses exactly its four-character extension; earlier dots stay. */
  lemma AudioBaseName(f: string)
    requires IsAudioName(f)
    ensures BaseName(f) == f[..|f| - 4]
  {
    var e := Lower(f[|f| - 3..]);
    assert e == "mp3" || e == "wav" || e == "m4a" || e == "ogg";
    assert e[0] != '.' && e[1] != '.' && e[2] != '.';
    assert f[|f| - 3] != '.' && f[|f| - 2] != '.' && f[|f| - 1] != '.';
    var n := |f|;
    assert LastDotBefore(f, n) == LastDotBefore(f, n - 1) == LastDotBefore(f, n - 2)
      == LastDotBefore(f, n - 3) == Some(n - 4);
  }

  /** The three guesses taken from a file name. */
  datatype Parsed = Parsed(speaker: string, title: string, date: string)

  const Separator: string := " - "
  const UnknownSpeaker: string := "Unknown"
  const SentinelDate: string := "2000-01-01"

  /** Lines 31-34 of the script: split on `" - "`; the first part, or "Unknown" when it is
      empty; the second part, or the whole base when it is missing or empty; the third
      part when it is shaped like a date, or the sentinel date. */
  function ParseBase(base: string): Parsed {
    var parts := Split(base, Separator);
    Parsed(if parts[0] != [] then parts[0] else UnknownSpeaker,
           if |parts| > 1 && parts[1] != [] then parts[1] else base,
           if |parts| > 2 && IsDateShaped(parts[2]) then parts[2] else SentinelDate)
  }

  function ParseName(f: string): Parsed {
    ParseBase(BaseName(f))
  }

  /** Whatever the name, the date is shaped like one and the speaker is never empty; the
      title is empty only for an empty base. */
  lemma ParseBaseShape(base: string)
    ensures IsDateShaped(ParseBase(base).date)
    ensures ParseBase(base).speaker != []
    ensures ParseBase(base).title == [] <==> base == []
  {
    assert IsDateShaped(SentinelDate) by {
      assert SentinelDate == "2000-01-01";
    }
  }

  /** A date has no space, so it holds no separator, not even with the start of one after it. */
  lemma DateHoldsNoSeparator(d: string)
    requires IsDateShaped(d)
    ensures !Contains(d, Separator) && !Contains(d + " -", Separator)
  {
    forall i | 0 <= i && i + 3 <= |d| ensures !OccursAt(d, Separator, i) {
      assert d[i..i + 3][0] == d[i] != ' ';
    }
    var t := d + " -";
    forall i | 0 <= i && i + 3 <= |t| ensures !OccursAt(t, Separator, i) {
      assert t[i..i + 3][0] == t[i] && t[i] == d[i] != ' ';
    }
  }

  /** The first two cuts of `sp - ti - rest`. */
  lemma {:induction false} SplitTwoParts(sp: string, ti: string, rest: string)
    requires !Contains(sp + " -", Separator) && !Contains(ti + " -", Separator)
    ensures Split(sp + Separator + ti + Separator + rest, Separator) == [sp, ti] + Split(rest, Separator)
  {
    assert Separator[..|Separator| - 1] == " -";
    assert sp + Separator + ti + Separator + rest == sp + Separator + (ti + Separator + rest);
    SplitAfterHead(sp, Separator, ti + Separator + rest);
    SplitAfterHead(ti, Separator, rest);
  }

  /** `speaker - title - third`: each part lands in its field, with the defaults applied
      to an empty speaker, an empty title and a third part that is not a date. */
  lemma ParseThreeParts(sp: string, ti: string, third: string)
    requires !Contains(sp + " -", Separator) && !Contains(ti + " -", Separator)
    requires !Contains(third, Separator)
    ensures var base := sp + Separator + ti + Separator + third;
      ParseBase(base) == Parsed(
        if sp != [] then sp else UnknownSpeaker,
        if ti != [] then ti else base,
        if IsDateShaped(third) then third else SentinelDate)
  {
    SplitTwoParts(sp, ti, third);
    SplitWithoutSeparator(third, Separator);
  }

  /** Parts after the third are ignored: the third part gives the date when it is shaped
      like one, and the sentinel date otherwise. */
  lemma ParseIgnoresExtraParts(sp: string, ti: string, th: string, more: string)
    requires IsDateShaped(th) || !Contains(th + " -", Separator)
    requires !Contains(sp + " -", Separator) && !Contains(ti + " -", Separator)
    ensures var base := sp + Separator + ti + Separator + th + Separator + more;
      ParseBase(base) == Parsed(
        if sp != [] then sp else UnknownSpeaker,
        if ti != [] then ti else base,
        if IsDateShaped(th) then th else SentinelDate)
  {
    if IsDateShaped(th) {
      DateHoldsNoSeparator(th);
    }
    var rest := th + Separator + more;
    assert sp + Separator + ti + Separator + th + Separator + more ==
      sp + Separator + ti + Separator + rest;
    SplitTwoParts(sp, ti, rest);
    assert Separator[..|Separator| - 1] == " -";
    SplitAfterHead(th, Separator, more);
  }

  /** `speaker - title`: the two parts land in their fields, with the defaults applied to an
      empty speaker and an empty title, and the sentinel date since there is no third part. */
  lemma ParseTwoParts(sp: string, ti: string)
    requires !Contains(sp + " -", Separator) && !Contains(ti, Separator)
    ensures var base := sp + Separator + ti;
      ParseBase(base) == Parsed(
        if sp != [] then sp else UnknownSpeaker,
        if ti != [] then ti else base,
        SentinelDate)
  {
    assert Separator[..|Separator| - 1] == " -";
    SplitAfterHead(sp, Separator, ti);
    SplitWithoutSeparator(ti, Separator);
  }

  /** A name without the separator is the speaker and the title at once, with the
      sentinel date. */
  lemma ParseWithoutSeparator(base: string)
    requires !Contains(base, Separator)
    ensures ParseBase(base) == Parsed(if base != [] then base else UnknownSpeaker, base, SentinelDate)
  {
    SplitWithoutSeparator(base, Separator);
  }

  /** A file named in the intended pattern gets its parts back. */
  lemma ParseNameRoundTrip(sp: string, ti: string, d: string, ext: string)
    requires sp != [] && ti != [] && IsDateShaped(d) && ext in AudioExtensions
    requires !Contains(sp + " -", Separator) && !Contains(ti + " -", Separator)
    ensures ParseName(sp + Separator + ti + Separator + d + "." + ext) == Parsed(sp, ti, d)
  {
    var base := sp + Separator + ti + Separator + d;
    var f := base + "." + ext;
    assert f[|f| - 4] == '.' && f[|f| - 3..] == ext && f[..|f| - 4] == base;
    assert Lower(ext) == ext by {
      assert ext == "mp3" || ext == "wav" || ext == "m4a" || ext == "ogg";
    }
    AudioBaseName(f);
    DateHoldsNoSeparator(d);
    ParseThreeParts(sp, ti, d);
  }

  /** `name.split(".").pop().toLowerCase()`: the last dot-separated part, lowered. */
  function Extension(name: string): string {
    Lower(LastOf(Split(name, ".")))
  }

  function LastOf(parts: seq<string>): string
    requires parts != []
  {
    parts[|parts| - 1]
  }

  /** The part after the last dot is the last part of the split. */
  lemma {:induction false} LastPartAfterLastDot(s: string, k: nat)
    requires k < |s| && s[k] == '.'
    requires forall j :: k < j < |s| ==> s[j] != '.'
    ensures LastOf(Split(s, ".")) == s[k + 1..]
    decreases |s|
  {
    assert OccursAt(s, ".", k) by { assert s[k..k + 1] == "."; }
    IndexFromMeaning(s, ".", 0);
    var i := IndexFrom(s, ".", 0).value;
    if i == k {
      SplitAtFirst(s, ".", k);
      SplitWithoutChar(s[k + 1..], '.');
    } else {
      LastPartAfterEarlierDot(s, k, i);
    }
  }

  lemma {:induction false} LastPartAfterEarlierDot(s: string, k: nat, i: nat)
    requires i < k < |s| && s[k] == '.' && IndexFrom(s, ".", 0) == Some(i)
    requires forall j :: k < j < |s| ==> s[j] != '.'
    ensures LastOf(Split(s, ".")) == s[k + 1..]
    decreases |s|, 0
  {
    var rest := s[i + 1..];
    var tail := Split(rest, ".");
    assert Split(s, ".") == [s[..i]] + tail by { SplitAtFirst(s, ".", i); }
    assert LastOf(tail) == s[k + 1..] by {
      forall j | k - i - 1 < j < |rest| ensures rest[j] != '.' {
        assert rest[j] == s[i + 1 + j];
      }
      LastPartAfterLastDot(rest, k - i - 1);
      assert rest[k - i..] == s[k + 1..];
    }
    assert LastOf([s[..i]] + tail) == LastOf(tail);
  }

  /** `guessMime`: four audio extensions, compared without regard to ASCII case, and a
      generic type for everything else. */
  function GuessMime(name: string): string {
    var ext := Extension(name);
    if ext == "mp3" then "audio/mpeg"
    else if ext == "wav" then "audio/wav"
    else if ext == "m4a" then "audio/mp4"
    else if ext == "ogg" then "audio/ogg"
    else "application/octet-stream"
  }

  /** A name whose extension is not one of the four gets the generic type, and only such
      a name does. */
  lemma GuessMimeGeneric(name: string)
    ensures Extension(name) !in AudioExtensions <==> GuessMime(name) == "application/octet-stream"
  {
  }

  /** The extension `guessMime` reads off an audio name is the one the filter matched. */
  lemma AudioNameExtension(f: string)
    requires IsAudioName(f)
    ensures Extension(f) == Lower(f[|f| - 3..])
    ensures Extension(f) in AudioExtensions
  {
    var e := Lower(f[|f| - 3..]);
    assert e[0] != '.' && e[1] != '.' && e[2] != '.' by {
      assert e == "mp3" || e == "wav" || e == "m4a" || e == "ogg";
    }
    assert f[|f| - 3] != '.' && f[|f| - 2] != '.' && f[|f| - 1] != '.';
    LastPartAfterLastDot(f, |f| - 4);
  }

  /** The extension filter and `guessMime` agree: every imported file gets the audio type
      of the extension the filter matched, in whatever case it was written. */
  lemma ImportedMimeIsAudio(f: string)
    requires IsAudioName(f)
    ensures var e := Lower(f[|f| - 3..]);
      && (e == "mp3" ==> GuessMime(f) == "audio/mpeg")
      && (e == "wav" ==> GuessMime(f) == "audio/wav")
      && (e == "m4a" ==> GuessMime(f) == "audio/mp4")
      && (e == "ogg" ==> GuessMime(f) == "audio/ogg")
    ensures StartsWith(GuessMime(f), "audio/")
  {
    AudioNameExtension(f);
    var e := Extension(f);
    assert e == "mp3" || e == "wav" || e == "m4a" || e == "ogg";
  }

  /** The row inserted for one source file. */
  function ImportedRecord(f: SourceFile, id: string, stamp: nat, now: string, dir: string): Record {
    var p := ParseName(f.name);
    Record(id, p.title, p.speaker, p.date, f.name, StoredPath(dir, stamp, f.name),
           GuessMime(f.name), |f.content|, None, now)
  }

  /** What every imported row looks like. */
  lemma ImportedRecordShape(f: SourceFile, id: string, stamp: nat, now: string, dir: string)
    requires IsAudioName(f.name)
    ensures var r := ImportedRecord(f, id, stamp, now, dir);
      && r.id == id && r.filename == f.name && r.size == |f.content| && r.createdAt == now
      && StartsWith(r.mimetype, "audio/") && IsDateShaped(r.date) && r.speaker != []
      && r.durationSeconds.None?
      && StartsWith(r.filepath, dir + "/") && AllSafe(r.filepath[|dir| + 1..])
  {
    ImportedMimeIsAudio(f.name);
    ParseBaseShape(BaseName(f.name));
  }

  /** `after` is `before` followed by the rows of the first `n` audio files, in order. */
  predicate ImportedInOrder(before: seq<Record>, after: seq<Record>, files: seq<SourceFile>,
                            ids: seq<string>, stamps: seq<nat>, nows: seq<string>, dir: string, n: nat)
    requires n <= |files| && n <= |ids| && n <= |stamps| && n <= |nows|
  {
    && |after| == |before| + n
    && after[..|before|] == before
    && forall k :: |before| <= k < |after| ==>
         after[k] == ImportedRecord(files[k - |before|], ids[k - |before|], stamps[k - |before|],
                                    nows[k - |before|], dir)
  }

  /** Inserting the row of the next file keeps the rows in order. */
  lemma ImportedInOrderStep(before: seq<Record>, rows: seq<Record>, files: seq<SourceFile>,
                            ids: seq<string>, stamps: seq<nat>, nows: seq<string>, dir: string, n: nat)
    requires n < |files| && n < |ids| && n < |stamps| && n < |nows|
    requires ImportedInOrder(before, rows, files, ids, stamps, nows, dir, n)
    ensures ImportedInOrder(before, rows + [ImportedRecord(files[n], ids[n], stamps[n], nows[n], dir)],
                            files, ids, stamps, nows, dir, n + 1)
  {
    var r := ImportedRecord(files[n], ids[n], stamps[n], nows[n], dir);
    var after := rows + [r];
    assert after[..|before|] == rows[..|before|];
    forall k | |before| <= k < |after|
      ensures after[k] == ImportedRecord(files[k - |before|], ids[k - |before|], stamps[k - |before|],
                                         nows[k - |before|], dir)
    {
      if k < |rows| {
        assert after[k] == rows[k];
      } else {
        assert k - |before| == n && after[k] == r;
      }
    }
  }

  /** The uploads directory after the first `n` copies. */
  function CopiesOf(before: Disk, files: seq<SourceFile>, stamps: seq<nat>, dir: string,
                    n: nat): (after: Disk)
    requires n <= |files| && n <= |stamps|
    ensures before.Keys <= after.Keys
  {
    if n == 0 then before
    else CopiesOf(before, files, stamps, dir, n - 1)[StoredPath(dir, stamps[n - 1], files[n - 1].name) :=
                                                     files[n - 1].content]
  }

  /** The `k`-th copy's path is present after the first `n` copies. */
  lemma {:induction false} CopyPresent(before: Disk, files: seq<SourceFile>, stamps: seq<nat>,
                                       dir: string, n: nat, k: nat)
    requires k < n <= |files| && n <= |stamps|
    ensures StoredPath(dir, stamps[k], files[k].name) in CopiesOf(before, files, stamps, dir, n)
  {
    if k < n - 1 {
      CopyPresent(before, files, stamps, dir, n - 1, k);
    }
  }

  /** Every imported row's file was copied: the path it records is present. */
  lemma CopiedBeforeInserted(before: seq<Record>, after: seq<Record>, disk: Disk, files: seq<SourceFile>,
                             ids: seq<string>, stamps: seq<nat>, nows: seq<string>, dir: string, n: nat)
    requires n <= |files| && n <= |ids| && n <= |stamps| && n <= |nows|
    requires ImportedInOrder(before, after, files, ids, stamps, nows, dir, n)
    ensures forall k :: |before| <= k < |after| ==> after[k].filepath in CopiesOf(disk, files, stamps, dir, n)
  {
    forall k | |before| <= k < |after|
      ensures after[k].filepath in CopiesOf(disk, files, stamps, dir, n)
    {
      CopyPresent(disk, files, stamps, dir, n, k - |before|);
    }
  }

  /** A copy keeps its bytes unless a later file is copied to the same path (two names that
      sanitise alike in the same millisecond). */
  lemma {:induction false} CopyKeepsBytes(before: Disk, files: seq<SourceFile>, stamps: seq<nat>,
                                          dir: string, n: nat, k: nat)
    requires k < n <= |files| && n <= |stamps|
    requires forall j :: k < j < n ==>
      StoredPath(dir, stamps[j], files[j].name) != StoredPath(dir, stamps[k], files[k].name)
    ensures var path := StoredPath(dir, stamps[k], files[k].name);
      path in CopiesOf(before, files, stamps, dir, n) &&
      CopiesOf(before, files, stamps, dir, n)[path] == files[k].content
  {
    if k < n - 1 {
      CopyKeepsBytes(before, files, stamps, dir, n - 1, k);
    }
  }

  /** Ids taken by the rows of the first `n` files are among the first `n` ids. */
  lemma ImportedIds(before: seq<Record>, after: seq<Record>, files: seq<SourceFile>, ids: seq<string>,
                    stamps: seq<nat>, nows: seq<string>, dir: string, n: nat, id: string)
    requires n <= |files| && n <= |ids| && n <= |stamps| && n <= |nows|
    requires ImportedInOrder(before, after, files, ids, stamps, nows, dir, n)
    requires HasId(after, id)
    ensures HasId(before, id) || exists k :: 0 <= k < n && ids[k] == id
  {
    var i :| 0 <= i < |after| && after[i].id == id;
    if i < |before| {
      assert after[..|before|][i] == before[i];
    } else {
      assert ids[i - |before|] == id;
    }
  }

  /** The files of a directory, on the file system the script writes to. */
  class FileStore {
    var files: Disk

    constructor (initial: Disk)
      ensures files == initial
    {
      files := initial;
    }

    /** `fs.copyFileSync(from, to)`: the target now holds the source's bytes, replacing
        whatever was there. */
    method Copy(to: string, content: Bytes)
      modifies this
      ensures files == old(files)[to := content]
    {
      files := files[to := content];
    }

    /** `fs.statSync(path).size`. */
    function SizeOf(path: string): (size: nat)
      reads this
      requires path in files
      ensures size == |files[path]|
    {
      |files[path]|
    }
  }

  /** One turn of the loop, for the `i`-th audio file: copy the file, read back its size,
      build the row from the name and insert it. The insert fails, with the copy already
      made, when the id is taken; otherwise the row joins the rows of the earlier files. */
  method ImportFile(catalog: Catalog, store: FileStore, files: seq<SourceFile>, dir: string,
                    ids: seq<string>, stamps: seq<nat>, nows: seq<string>, i: nat,
                    ghost before: seq<Record>) returns (ok: bool)
    requires catalog.Valid()
    requires i < |files| && i < |ids| && i < |stamps| && i < |nows|
    requires ImportedInOrder(before, catalog.rows, files, ids, stamps, nows, dir, i)
    modifies catalog, store
    ensures catalog.Valid()
    ensures store.files == old(store.files)[StoredPath(dir, stamps[i], files[i].name) := files[i].content]
    ensures ok <==> !HasId(old(catalog.rows), ids[i])
    ensures ok ==> ImportedInOrder(before, catalog.rows, files, ids, stamps, nows, dir, i + 1)
    ensures !ok ==> catalog.rows == old(catalog.rows)
  {
    var f := files[i];
    var to := StoredPath(dir, stamps[i], f.name);
    store.Copy(to, f.content);
    var size := store.SizeOf(to);
    var parsed := ParseName(f.name);
    var row := Record(ids[i], parsed.title, parsed.speaker, parsed.date, f.name, to,
                      GuessMime(f.name), size, None, nows[i]);
    ghost var rows := catalog.rows;
    ok := catalog.Insert(row);
    if ok {
      ImportedInOrderStep(before, rows, files, ids, stamps, nows, dir, i);
    }
  }

  /** The script's loop over the audio files. `ids`, `stamps` and `nows` are what
      `nanoid()`, `Date.now()` and `new Date().toISOString()` return on each turn. Each file
      is copied, measured and inserted in turn; an INSERT that fails on the primary key ends
      the script with an exception, leaving that turn's copy behind and the remaining files
      untouched. */
  method ImportFiles(catalog: Catalog, store: FileStore, files: seq<SourceFile>, dir: string,
                     ids: seq<string>, stamps: seq<nat>, nows: seq<string>)
    returns (imported: nat, crashed: bool)
    requires catalog.Valid()
    requires |ids| == |stamps| == |nows| == |files|
    modifies catalog, store
    ensures catalog.Valid()
    ensures imported <= |files|
    ensures !crashed ==> imported == |files|
    ensures ImportedInOrder(old(catalog.rows), catalog.rows, files, ids, stamps, nows, dir, imported)
    ensures crashed ==> imported < |files| && HasId(catalog.rows, ids[imported])
    ensures store.files ==
      CopiesOf(old(store.files), files, stamps, dir, if crashed then imported + 1 else imported)
    ensures FreshIds(old(catalog.rows), ids) ==> !crashed && imported == |files|
  {
    imported, crashed := 0, false;
    while imported < |files| && !crashed
      invariant imported <= |files|
      invariant catalog.Valid()
      invariant ImportedInOrder(old(catalog.rows), catalog.rows, files, ids, stamps, nows, dir, imported)
      invariant crashed ==> imported < |files| && HasId(catalog.rows, ids[imported])
      invariant store.files ==
        CopiesOf(old(store.files), files, stamps, dir, if crashed then imported + 1 else imported)
      decreases |files| - imported, !crashed
    {
      var ok := ImportFile(catalog, store, files, dir, ids, stamps, nows, imported, old(catalog.rows));
      if ok {
        imported := imported + 1;
      } else {
        crashed := true;
      }
    }
    if crashed && FreshIds(old(catalog.rows), ids) {
      FreshIdsNeverClash(old(catalog.rows), catalog.rows, files, ids, stamps, nows, dir, imported);
    }
  }

  /** The whole script: filter the directory's entries, then run the loop over the audio
      files. */
  method Import(catalog: Catalog, store: FileStore, entries: seq<SourceFile>, dir: string,
                ids: seq<string>, stamps: seq<nat>, nows: seq<string>)
    returns (imported: nat, crashed: bool)
    requires catalog.Valid()
    requires |ids| == |stamps| == |nows| == |AudioFiles(entries)|
    modifies catalog, store
    ensures catalog.Valid()
    ensures imported <= |AudioFiles(entries)|
    ensures !crashed ==> imported == |AudioFiles(entries)|
    ensures ImportedInOrder(old(catalog.rows), catalog.rows, AudioFiles(entries), ids, stamps, nows, dir, imported)
    ensures crashed ==> imported < |AudioFiles(entries)| && HasId(catalog.rows, ids[imported])
    ensures store.files ==
      CopiesOf(old(store.files), AudioFiles(entries), stamps, dir, if crashed then imported + 1 else imported)
    ensures FreshIds(old(catalog.rows), ids) ==> !crashed && imported == |AudioFiles(entries)|
  {
    imported, crashed := ImportFiles(catalog, store, AudioFiles(entries), dir, ids, stamps, nows);
  }

  /** Ids that are new to the table and to each other. */
  predicate FreshIds(rows: seq<Record>, ids: seq<string>) {
    && (forall k :: 0 <= k < |ids| ==> !HasId(rows, ids[k]))
    && (forall j, k :: 0 <= j < k < |ids| ==> ids[j] != ids[k])
  }

  /** With ids that are new to the table and to each other, the insert of the `n`-th file
      finds its id free. */
  lemma FreshIdsNeverClash(before: seq<Record>, after: seq<Record>, files: seq<SourceFile>, ids: seq<string>,
                           stamps: seq<nat>, nows: seq<string>, dir: string, n: nat)
    requires n < |files| && |ids| == |stamps| == |nows| == |files|
    requires ImportedInOrder(before, after, files, ids, stamps, nows, dir, n)
    requires FreshIds(before, ids)
    ensures !HasId(after, ids[n])
  {
    if HasId(after, ids[n]) {
      ImportedIds(before, after, files, ids, stamps, nows, dir, n, ids[n]);
    }
  }
}
