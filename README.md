# JummahCast backend core in Dafny

A model of the logic of the JummahCast sermon server and its bulk import script. Every operation is proved against its contract.

- **`backend/index.js`:**
  - the listing query `GET /api/sermons`;
  - the speaker list `GET /api/speakers`;
  - the range decision of `GET /api/sermons/:id/stream`;
  - the admin upload `POST /api/admin/upload`, with its file-name sanitiser and audio type filter.
- **`backend/scripts/bulkImport.js`:**
  - the extension filter and the sanitised target name;
  - the `Speaker - Title - YYYY-MM-DD` name parse and `guessMime`;
  - the copy-then-insert loop.
- **`backend/db.js`:** the shape of the `sermons` table.

## Files and modules

| file | module | what it holds |
|---|---|---|
| `wrappers.dfy` | `Wrappers` | `Option` |
| `text.dfy` | `Text` | `trim`, ASCII lower case, substring search, `split`/`join`, decimal notation and `parseInt`, SQLite's BINARY ordering, the date shape `^\d{4}-\d{2}-\d{2}$` |
| `filenames.dfy` | `FileNames` | `replace(/[^\w.\-]+/g, "_")` and the `${Date.now()}-${safe}` stored name and path |
| `schema.dfy` | `Schema` | the `sermons` row, the listed item (every column but `filepath`), the primary key, lookup by id |
| `query.dfy` | `Query` | WHERE clauses, the four ORDER BY clauses, `LIMIT 200`, `SELECT DISTINCT speaker` |
| `store.dfy` | `Store` | `class Catalog`: the table as a sequence field; `Insert` changes it, `Find`, `Select` and `Speakers` read it |
| `streaming.dfy` | `Streaming` | the `Range` regular expression, the status/header/body decision, the bytes sent |
| `server.dfy` | `Server` | the upload request and the imperative listing handler |
| `bulk_import.dfy` | `BulkImport` | filter, base name, parse, `guessMime`, `class FileStore`, the import loop |

### Modelling choices

- **Pure code becomes functions, and code that changes state becomes methods.** The range decision, the parse, the sanitiser and `guessMime` are functions over strings and integers. The table is a class whose `Insert` method appends a row. The listing handler grows its WHERE list and reassigns its ORDER BY step by step (`BuildWhere`, `BuildOrder`). The import script is a loop that copies a file and inserts a row per turn (`ImportFiles`).
- **Clocks, ids and the file system are inputs.** `nanoid()`, `Date.now()` and `new Date().toISOString()` arrive as parameters. The file system is a map from path to bytes. `existsSync` is membership in that map, and `statSync(p).size` is the length of the bytes.
- **A duplicate id is an outcome, not a precondition.** The INSERT fails on the primary key.
  - For an upload this is the `Conflict` outcome.
  - For the import script it ends the run. The copy made in that turn stays behind, and the later files are never reached.
  - `FreshIdsNeverClash` shows that ids new to the table and to each other never clash.
- **The stream handler uses the size of the file on disk.** It never uses the stored `size` column (`StoredSizeIgnored`).
- **The listing's tie order is not fixed.** SQLite leaves the order of rows that tie on the sort key unspecified. The insertion sort picks one such order. Every property stated of the listing (sorted, capped, drawn from the matches, keeps the leading rows) holds for any tie order. Only the equality with `Run` (in `ListSermons` and `Catalog.Select`) picks one.

## Model

| member | source | states |
|---|---|---|
| Text.SkipSpaces | backend/index.js:49-50 | the first non-white-space position at or after `k`; everything skipped is white space |
| Text.DropSpaces | backend/index.js:49-50 | the end of the slice once trailing white space is dropped; everything dropped is white space |
| Text.Trim | backend/index.js:49-50 | `trim()` is the slice between the leading and trailing white space, and it neither starts nor ends with white space |
| Text.TrimEmptyIff | backend/index.js:49-50 | a parameter trims to nothing exactly when it is all white space, so such a filter is absent |
| Text.TrimUnpadded | backend/index.js:49-50 | a string with no white space at either end is its own trim |
| Text.TrimIdempotent | backend/index.js:49-50 | trimming twice is trimming once |
| Text.IndexFrom | backend/scripts/bulkImport.js:31 | a position found lies inside the string, at or after the start |
| Text.IndexFromMeaning | backend/scripts/bulkImport.js:31 | the position found is the leftmost occurrence of the separator; none found means there is no occurrence |
| Text.Split | backend/scripts/bulkImport.js:31 | `split` always returns at least one part |
| Text.SplitJoin | backend/scripts/bulkImport.js:31 | joining the parts with the separator gives back the string |
| Text.SplitPartsFree | backend/scripts/bulkImport.js:31 | no part contains the separator |
| Text.SplitAfterHead | backend/scripts/bulkImport.js:31 | the first cut of `head + sep + rest` falls right after `head` when `head` holds no separator |
| Text.SplitWithoutSeparator | backend/scripts/bulkImport.js:31 | a string without the separator is one part |
| Text.SplitWithoutChar | backend/scripts/bulkImport.js:55 | a name without a dot is one part when split on `.` |
| Text.Decimal | backend/index.js:26 | the decimal notation of a number is non-empty, all digits, and starts with `0` only for zero |
| Text.DecimalRoundTrip | backend/index.js:114-115 | `parseInt` of the decimal notation of `n` is `n` |
| Text.DecimalValue | backend/index.js:114-115 | `parseInt(digits, 10)` for a string of ASCII digits, leading zeros allowed; `DecimalRoundTrip` states that it reads back `Decimal` |
| Text.ContainsFolded | backend/index.js:57-58 | `%text%` under LIKE: the text occurs somewhere in the value once ASCII letters are lowered; `FoldedSearchExample` and `SearchIgnoresCase` show it at work |
| Text.IsDateShaped | backend/index.js:142 | `^\d{4}-\d{2}-\d{2}$`, the same test as backend/scripts/bulkImport.js:34: ten characters, digits with dashes at positions 4 and 7, no calendar check; `SchemaChecksShapeOnly` shows both sides |
| Text.LexLeReflexive | backend/index.js:67-70 | the BINARY collation puts every string at or before itself |
| Text.LexLeTotal | backend/index.js:67-70 | any two strings are comparable under the BINARY collation |
| Text.LexLeTransitive | backend/index.js:67-70 | the BINARY collation is transitive |
| Text.LexLeAntisymmetric | backend/index.js:67-70 | two strings each at or before the other are equal |
| FileNames.Sanitize | backend/index.js:25 | the sanitised name holds only `[A-Za-z0-9_.-]` and is no longer than the original |
| FileNames.SanitizeKeepsSafe | backend/index.js:25 | a name made only of safe characters is unchanged |
| FileNames.SanitizeIdempotent | backend/scripts/bulkImport.js:21 | sanitising twice is sanitising once |
| FileNames.SanitizeFixpointIff | backend/index.js:25 | a name is unchanged exactly when every character is safe |
| FileNames.SanitizeSafePrefix | backend/index.js:25 | a safe prefix passes through unchanged |
| FileNames.SanitizeUnsafeRun | backend/index.js:25 | a whole run of unsafe characters, however long, becomes one `_` |
| FileNames.SanitizeMergesNames | backend/index.js:25 | different names (`a b`, `a?b`) can sanitise to the same name `a_b` |
| FileNames.StoredName | backend/index.js:26 | the stored name is safe, starts with the timestamp and `-`, and ends with the sanitised original |
| FileNames.StoredPath | backend/scripts/bulkImport.js:21-22 | the stored path lies directly inside the uploads directory, under the stored name |
| Schema.FindRow | backend/index.js:97 | lookup by id finds nothing exactly when no row has the id; a row found has the id |
| Schema.FindRowUnique | backend/db.js:9 | under the primary key, a lookup by a row's id returns that row |
| Schema.FindAfterAppend | backend/index.js:97 | after inserting a row with a fresh id, that id finds the new row and every other lookup is unchanged |
| Query.Filter | backend/index.js:56-65 | the kept rows are exactly the rows satisfying every WHERE clause |
| Query.FilterMultiplicity | backend/index.js:56-65 | a matching row is kept as many times as the table holds it, and a row that fails a clause is not kept at all |
| Query.ItemsOf | backend/index.js:75 | each listed item is its row without `filepath`, in the same position |
| Query.PrecedesTotal | backend/index.js:67-70 | under each ORDER BY, any two items are comparable |
| Query.PrecedesTransitive | backend/index.js:67-70 | under each ORDER BY, the order is transitive |
| Query.InsertSorted | backend/index.js:78 | inserting into a sorted list keeps it sorted and adds exactly that item |
| Query.SortItems | backend/index.js:78 | the result is sorted by the ORDER BY and is a permutation of the input |
| Query.PrefixSorted | backend/index.js:79 | a prefix of a sorted list is sorted and drawn from it |
| Query.Run | backend/index.js:72-82 | the result is sorted, holds `min(matches, 200)` items drawn from the matching rows, and holds all of them when at most 200 match |
| Query.RunKeepsLeading | backend/index.js:78-79 | a matching row cut off by LIMIT sorts no earlier than any row kept |
| Query.RunOnlyMatches | backend/index.js:77 | every listed item comes from a row satisfying every WHERE clause |
| Query.InsertDistinct | backend/index.js:88 | adding a speaker keeps the list strictly ascending and adds exactly that name |
| Query.DistinctSpeakers | backend/index.js:88 | the speaker list is strictly ascending and holds exactly the speakers on the table |
| Store.Catalog.constructor | backend/db.js:8-19 | a new table is empty and satisfies the primary key |
| Store.Catalog.Insert | backend/index.js:153-168 | INSERT appends the row exactly when its id is free; otherwise the table is unchanged; the primary key holds after it |
| Store.Catalog.Find | backend/index.js:97 | `SELECT * WHERE id = ?` returns the row with that id, and none when no row has it |
| Store.Catalog.Select | backend/index.js:72-82 | the listing is sorted, capped at 200, and drawn from the matching rows |
| Store.Catalog.Speakers | backend/index.js:87-90 | the speakers are strictly ascending, have no duplicates, and are exactly the speakers on the table |
| Streaming.MatchDigits | backend/index.js:111 | `(\d+)-(\d*)` read from a position: a start of one or more digits, a dash, and an end that may be empty; `MatchDigitsOf` and `ParseRangeHeader` state what it reads back |
| Streaming.MatchAt | backend/index.js:111 | the expression `bytes=(\d+)-(\d*)` tried at one position of the header; `FirstMatch` and `ParseRange` take the leftmost position where it succeeds |
| Streaming.DigitRun | backend/index.js:111 | `\d+` and `\d*` take the maximal run of digits |
| Streaming.FirstMatch | backend/index.js:111 | the match position is the leftmost one where `bytes=(\d+)-(\d*)` matches |
| Streaming.ParseRange | backend/index.js:111 | `exec` finds no match exactly when no position matches, and otherwise returns the leftmost match |
| Streaming.ParseRangeHeader | backend/index.js:111 | reading `bytes=<start>-<end>` gives back its bounds, whatever non-digit text follows |
| Streaming.OnlyFirstRangeRead | backend/index.js:111 | only the first range of a list is read |
| Streaming.SuffixRangeUnreadable | backend/index.js:111 | a suffix range `bytes=-500` does not match |
| Streaming.ParseFirstByte | backend/index.js:111 | `bytes=0-0` reads as start 0, end 0 |
| Streaming.Respond | backend/index.js:98-130 | the status is one of 404, 200, 206, 416 or 500. An unknown row gives 404 "Not found", and a missing file gives 404 "File missing". Every 200, 206 and 416 carries the row's content type and `Accept-Ranges: bytes`. Without a range the answer is 200 with the on-disk length. A 416 has no body, and the handler sets no Content-Length on it. A 206 names a span inside the file whose start is at most its end. A 500 is Express's error page, without Content-Range. |
| Streaming.RangeOutcome | backend/index.js:110-126 | with a range: no match gives 416 without Content-Range; out of bounds gives 416 with `bytes */size`; a start past the end gives 500, since `createReadStream` throws; otherwise 206 with `bytes start-end/size`, length `end-start+1`, and that span of the file |
| Streaming.StoredSizeIgnored | backend/index.js:103-104 | the stored `size` column plays no part in the answer |
| Streaming.EmptyFileRefusesEveryRange | backend/index.js:117-119 | every range on a zero-byte file is 416 |
| Streaming.FirstByteOnly | backend/index.js:122-124 | `bytes=0-0` on a non-empty file is 206 with `bytes 0-0/size` and length 1 |
| Streaming.EndAtSizeRefused | backend/index.js:117-119 | `bytes=N-N` on an N-byte file is 416 with `bytes */N` |
| Streaming.OpenEndedRange | backend/index.js:115-124 | `bytes=0-` on a non-empty file is 206 with `bytes 0-(N-1)/N` and length N |
| Streaming.StartAfterEndFails | backend/index.js:114-126 | a start past the end inside the file passes the bounds test, so there is no 416. Opening the stream throws, and the client gets a 500 without Content-Range and without any bytes of the file. |
| Streaming.Payload | backend/index.js:126-129 | the file bytes the client receives: the whole file, the span of a range, or none for an error; `PayloadMatchesHeaders` ties it to Content-Length |
| Streaming.PayloadMatchesHeaders | backend/index.js:122-129 | for 200 and 206, Content-Length equals the bytes sent, and a 206 sends the file from start to end; every other answer sends no file bytes |
| Streaming.Stream | backend/index.js:95-131 | "Not found" exactly when no row has the id; "File missing" exactly when a row has it but its file is gone |
| Server.StatusOf | backend/index.js:30-36 | 200 only for a created row; 400 exactly for invalid fields or a missing file (lines 146-148); 500 exactly for a non-audio type, a file over the 200 MB limit, or an INSERT that throws on the id (lines 153-168), since none of these errors carries a status and Express's final handler answers 500 |
| Server.AcceptsFile | backend/index.js:34 | the file filter lets a part through exactly when its declared type starts with `audio/`; `Refusal` states what happens otherwise |
| Server.ParseFields | backend/index.js:139-145 | the fields are accepted exactly when title and speaker are non-empty and the date is shaped `dddd-dd-dd`, and they are kept as given |
| Server.SchemaChecksShapeOnly | backend/index.js:139-143 | a blank title and `2024-99-99` pass; `2024-1-1` and an empty title do not |
| Server.Refusal | backend/index.js:138-148 | the ordering of refusals. A non-audio declared type is rejected before anything else, then an oversized file. Invalid fields come next, ahead of a missing file. Only a stored audio file with valid fields goes on to the INSERT. |
| Server.UploadRecord | backend/index.js:153-168 | the row the upload inserts; `UploadRecordDescribesFile` states its fields |
| Server.UploadRecordDescribesFile | backend/index.js:153-168 | the inserted row keeps the given fields, the original name, the audio type and the byte count; its duration is NULL, and its path lies inside the uploads directory under a safe name |
| Server.Upload | backend/index.js:138-171 | a refused request changes no row. A free id appends exactly the described row and answers with the id. A taken id is a conflict that changes nothing. Any stored file stays on disk whatever the outcome. |
| Server.UploadThenStream | backend/index.js:138-171 | a fresh upload streams back at once: 200, its type, its length and its bytes |
| Server.SameStampSharesPath | backend/index.js:25-26 | two uploads in the same millisecond whose names sanitise alike share a stored path |
| Server.Param | backend/index.js:49-50 | an absent parameter reads as empty; a present one is trimmed |
| Server.OrderFor | backend/index.js:67-70 | `date_asc`, `title_asc` and `title_desc` select their order; anything else, or nothing, gives date descending |
| Server.ListingClauses | backend/index.js:53-65 | the WHERE list: the search clause, then the speaker clause, each only when its trimmed parameter is non-empty; `ListingClausesMeaning` states what it selects |
| Server.Matches | backend/index.js:53-65 | the condition a listed row meets, stated without the clause list: the folded search in the title or speaker, and the exact speaker, each only when given |
| Server.ListingClausesMeaning | backend/index.js:53-65 | the WHERE list holds for a row exactly when the trimmed search occurs in its title or speaker (ASCII case ignored) and its speaker equals the trimmed speaker, each only when non-empty |
| Server.BuildWhere | backend/index.js:53-65 | the list pushed clause by clause is the WHERE list, and it means exactly the match condition |
| Server.BuildOrder | backend/index.js:67-70 | the reassigned `orderSql` is the order the `sort` parameter selects |
| Server.ListSermons | backend/index.js:48-85 | the listing is the query over the table. It is sorted by the selected order and has at most 200 items, each from a matching row. |
| Server.ListingOnlyMatches | backend/index.js:56-65 | every listed item comes from a row matching the parameters |
| Server.ListedItemMatches | backend/index.js:56-65 | the `i`-th listed item comes from a row matching the parameters |
| Server.ListingComplete | backend/index.js:72-82 | every matching row is listed when at most 200 match |
| Server.FoldedSearchExample | backend/index.js:57-58 | `ALI` occurs in `The Caliphate` when case is ignored |
| Server.SearchIgnoresCase | backend/index.js:56-63 | the search ignores ASCII case while the speaker filter is exact |
| BulkImport.AudioNameExamples | backend/scripts/bulkImport.js:16 | `Talk.MP3` passes the filter; `talk.mp3.txt` does not |
| BulkImport.IsAudioName | backend/scripts/bulkImport.js:16 | the extension test of `readdirSync(...).filter`: a dot four characters from the end and one of the four extensions in any ASCII case; `AudioNameExamples` shows both sides |
| BulkImport.AudioFiles | backend/scripts/bulkImport.js:16 | the files kept are exactly the entries whose names pass the filter |
| BulkImport.AudioFilesAppend | backend/scripts/bulkImport.js:16 | the filter keeps directory order and each entry's multiplicity: filtering a listing is filtering its two halves and putting them together, and a single entry is kept exactly when its name passes |
| BulkImport.LastDotBefore | backend/scripts/bulkImport.js:30 | a dot found lies before the bound |
| BulkImport.LastDotBeforeMeaning | backend/scripts/bulkImport.js:30 | the position found holds the last dot; none found means there is no dot |
| BulkImport.BaseName | backend/scripts/bulkImport.js:30 | `f.replace(/\.[^.]+$/, "")`; `BaseNameMeaning` and `AudioBaseName` state what it removes |
| BulkImport.BaseNameMeaning | backend/scripts/bulkImport.js:30 | the base is the name without a final dot and the non-empty, dot-free run after it; a name without such a tail is kept whole |
| BulkImport.AudioBaseName | backend/scripts/bulkImport.js:30 | an audio name loses exactly its four-character extension, and earlier dots stay |
| BulkImport.ParseBase | backend/scripts/bulkImport.js:31-34 | speaker, title and date from the ` - ` parts, with the three fallbacks; its meaning is in `ParseBaseShape`, `ParseWithoutSeparator`, `ParseTwoParts`, `ParseThreeParts` and `ParseIgnoresExtraParts` |
| BulkImport.ParseName | backend/scripts/bulkImport.js:30-34 | the parse of a file name's base; `ParseNameRoundTrip` shows that it reads back the fields of a well-formed name |
| BulkImport.ParseBaseShape | backend/scripts/bulkImport.js:31-34 | the date is always date-shaped, the speaker never empty, and the title empty only for an empty base |
| BulkImport.DateHoldsNoSeparator | backend/scripts/bulkImport.js:34 | a date-shaped part holds no `" - "` |
| BulkImport.SplitTwoParts | backend/scripts/bulkImport.js:31 | the first two cuts of `sp - ti - rest` are `sp` and `ti` |
| BulkImport.ParseThreeParts | backend/scripts/bulkImport.js:31-34 | `speaker - title - third` parses into its fields, with "Unknown", the whole base and `2000-01-01` standing in for an empty speaker, an empty title and a non-date third part |
| BulkImport.ParseIgnoresExtraParts | backend/scripts/bulkImport.js:31-34 | parts after the third are ignored: the third part gives the date when it is date-shaped and the sentinel date otherwise, with the speaker and title fallbacks |
| BulkImport.ParseTwoParts | backend/scripts/bulkImport.js:31-34 | `Speaker - Title` (one separator) gives the speaker (or `Unknown`), the title (or the whole base when it is empty) and the sentinel date, since `parts[2]` is undefined |
| BulkImport.ParseWithoutSeparator | backend/scripts/bulkImport.js:31-34 | a base without `" - "` is both speaker and title, with the sentinel date |
| BulkImport.ParseNameRoundTrip | backend/scripts/bulkImport.js:29-34 | a file named `Speaker - Title - YYYY-MM-DD.ext` parses back to its three parts |
| BulkImport.LastPartAfterLastDot | backend/scripts/bulkImport.js:55 | `split(".").pop()` is the text after the last dot |
| BulkImport.LastPartAfterEarlierDot | backend/scripts/bulkImport.js:55 | the same, when the first dot is an earlier one |
| BulkImport.Extension | backend/scripts/bulkImport.js:55 | `name.split(".").pop().toLowerCase()`; `LastPartAfterLastDot` and `AudioNameExtension` state which text it takes |
| BulkImport.GuessMime | backend/scripts/bulkImport.js:54-61 | the type for an extension; `GuessMimeGeneric` and `ImportedMimeIsAudio` give its table |
| BulkImport.GuessMimeGeneric | backend/scripts/bulkImport.js:54-61 | the generic type is given exactly when the lowered extension is none of the four |
| BulkImport.AudioNameExtension | backend/scripts/bulkImport.js:55 | the extension `guessMime` reads off an audio name is the one the filter matched, lowered |
| BulkImport.ImportedMimeIsAudio | backend/scripts/bulkImport.js:54-61 | an imported file gets `audio/mpeg`, `audio/wav`, `audio/mp4` or `audio/ogg` for the extension the filter matched, in any case |
| BulkImport.ImportedRecord | backend/scripts/bulkImport.js:36-49 | the row one file becomes; `ImportedRecordShape` states its fields |
| BulkImport.ImportedRecordShape | backend/scripts/bulkImport.js:36-49 | every imported row has the given id, the file name and the file's byte count. It has an audio type, a date-shaped date, a non-empty speaker and a NULL duration. Its path lies inside the uploads directory under a safe name. |
| BulkImport.ImportedInOrderStep | backend/scripts/bulkImport.js:19-50 | inserting the next file's row keeps the table equal to the old rows followed by one row per file, in order |
| BulkImport.CopiesOf | backend/scripts/bulkImport.js:24 | copying only adds or replaces paths |
| BulkImport.CopyPresent | backend/scripts/bulkImport.js:19-24 | each file's copy is on disk after the loop reaches it |
| BulkImport.CopiedBeforeInserted | backend/scripts/bulkImport.js:19-49 | every imported row's path is present on disk |
| BulkImport.CopyKeepsBytes | backend/scripts/bulkImport.js:21-24 | a copy holds its file's bytes unless a later file sanitises to the same path in the same millisecond |
| BulkImport.ImportedIds | backend/scripts/bulkImport.js:36-49 | an id on the table after the loop was there before, or was drawn for one of the imported files |
| BulkImport.FileStore.Copy | backend/scripts/bulkImport.js:24 | `copyFileSync` makes the target hold the source's bytes and changes nothing else |
| BulkImport.FileStore.SizeOf | backend/scripts/bulkImport.js:26 | `statSync(to).size` is the length of the copy |
| BulkImport.ImportFile | backend/scripts/bulkImport.js:20-49 | one turn: the copy is made, and the row is inserted exactly when its id is free. After an insert the table is the old rows followed by one row per file so far. A failed insert leaves the table unchanged. |
| BulkImport.ImportFiles | backend/scripts/bulkImport.js:19-50 | the loop inserts one row per file in order, and every file gets through unless an id clash stops it. A clash leaves that file's copy made and its id taken. The directory holds exactly the copies made. With ids new to the table and to each other, every file is imported. |
| BulkImport.Import | backend/scripts/bulkImport.js:16-50 | the same, over the entries that pass the extension filter: with fresh, distinct ids every audio file of the directory is imported |
| BulkImport.FreshIdsNeverClash | backend/scripts/bulkImport.js:27-49 | ids new to the table and to each other never clash with the rows already imported, which is why `ImportFiles` cannot stop early with them |

## Left out

- **I/O, wiring and the platform:**
  - Network and file I/O: Express, cors, `app.listen`, `mkdirSync`, and the byte transfer `createReadStream(...).pipe(res)`. The bytes sent are modelled as a slice of the file (`Payload`). Disconnects, back-pressure and closing handles are not modelled.
  - Multipart parsing and the internals of zod and multer. The model keeps the three field checks, the `audio/` prefix test and the 200 MB limit.
  - `GET /health` and the `express.json()` body parser.
  - The frontend.
  - `backend/db.js` beyond the table definition: WAL mode, the three indexes, and concurrent readers and writers.
  - The query string arrays Express produces for a repeated parameter (`?q=a&q=b`). A parameter is modelled as one string or none.
- **SQLite and JavaScript details:**
  - `%` and `_` inside the search text act as wildcards in SQLite's LIKE. The model treats the search as a literal substring.
  - Case folding covers ASCII letters only, for LIKE and for `toLowerCase` in `guessMime`. The two non-ASCII characters that lower to ASCII letters (U+0130 and U+212A) are not modelled.
  - Query.SortItems: fixes one order for rows that tie on the sort key. SQLite may return any such order. Every property stated of the listing (sorted, capped, drawn from the matches, keeps the leading rows) holds for any tie order; only the equality with `Run` picks one.
  - Streaming.ParseRange: reads the digits as an unbounded integer. JavaScript's `parseInt` loses precision past 2^53, which no real file size reaches.
  - Streaming.Respond: for a start past the end, the handler has already set 206, Content-Range and a Content-Length of `end-start+1` (zero or less) when `createReadStream` throws. The model records only what reaches the client: Express's 500. The HTML body of that page and the headers Express sets on it are not modelled.
  - Headers that Express or Node add on their own are not recorded: the JSON type and length of the 404 bodies, and the `Content-Length: 0` of `res.end()` on a 416.
- **Directory reading and the import script:**
  - `readdirSync` also lists sub-directories whose names end in an audio extension. The model treats every entry as a file.
  - The script's usage message and exit when no directory is given are not modelled.

Ids, clock readings and directory contents are parameters: `nanoid()`, `Date.now()`, `new Date().toISOString()` and `readdirSync`.
