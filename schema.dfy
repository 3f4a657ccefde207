/** The `sermons` table of backend/db.js:8-19, the row a listing returns, and the
    lookup by primary key that the stream handler performs. */
module Schema {
  import opened Wrappers

  type Bytes = seq<bv8>

  /** The file system as the handlers see it: a path either names stored bytes or
      nothing (`existsSync` is membership, `statSync(p).size` the length). */
  type Disk = map<string, Bytes>

  /** One row. Every column is NOT NULL except `durationSeconds`. */
  datatype Record = Record(
    id: string,
    title: string,
    speaker: string,
    date: string,
    filename: string,
    filepath: string,
    mimetype: string,
    size: int,
    durationSeconds: Option<int>,
    createdAt: string)

  /** The columns the listing selects (backend/index.js:75): all but `filepath`. */
  datatype Item = Item(
    id: string,
    title: string,
    speaker: string,
    date: string,
    filename: string,
    mimetype: string,
    size: int,
    durationSeconds: Option<int>,
    createdAt: string)

  function ToItem(r: Record): Item {
    Item(r.id, r.title, r.speaker, r.date, r.filename, r.mimetype, r.size,
         r.durationSeconds, r.createdAt)
  }

  /** `id TEXT PRIMARY KEY`: no two rows share an id. */
  predicate UniqueIds(rows: seq<Record>) {
    forall i, j :: 0 <= i < j < |rows| ==> rows[i].id != rows[j].id
  }

  predicate HasId(rows: seq<Record>, id: string) {
    exists i :: 0 <= i < |rows| && rows[i].id == id
  }

  /** `SELECT * FROM sermons WHERE id = ?`: the row with that id, if any. */
  function FindRow(rows: seq<Record>, id: string): (r: Option<Record>)
    ensures r.None? <==> !HasId(rows, id)
    ensures r.Some? ==> r.value in rows && r.value.id == id
  {
    if rows == [] then None
    else if rows[0].id == id then Some(rows[0])
    else
      var r := FindRow(rows[1..], id);
      assert HasId(rows, id) ==> HasId(rows[1..], id) by {
        if HasId(rows, id) {
          var i :| 0 <= i < |rows| && rows[i].id == id;
          assert rows[1..][i - 1].id == id;
        }
      }
      assert HasId(rows[1..], id) ==> HasId(rows, id) by {
        if HasId(rows[1..], id) {
          var i :| 0 <= i < |rows[1..]| && rows[1..][i].id == id;
          assert rows[i + 1].id == id;
        }
      }
      r
  }

  /** Under the primary key, the row found is the only row with that id. */
  lemma {:induction false} FindRowUnique(rows: seq<Record>, k: nat)
    requires UniqueIds(rows) && k < |rows|
    ensures FindRow(rows, rows[k].id) == Some(rows[k])
  {
    if k > 0 && rows[0].id != rows[k].id {
      assert rows[1..][k - 1] == rows[k];
      FindRowUnique(rows[1..], k - 1);
    }
  }

  /** Appending a row with a fresh id makes it findable and changes no other lookup. */
  lemma {:induction false} FindAfterAppend(rows: seq<Record>, r: Record, id: string)
    requires !HasId(rows, r.id)
    ensures FindRow(rows + [r], id) == if id == r.id then Some(r) else FindRow(rows, id)
  {
    if rows != [] {
      assert (rows + [r])[1..] == rows[1..] + [r];
      forall i | 0 <= i < |rows[1..]| ensures rows[1..][i].id != r.id {
        assert rows[1..][i] == rows[i + 1];
      }
      FindAfterAppend(rows[1..], r, id);
    }
  }

  /** `path.join(dir, name)` for a directory path without a trailing separator and a
      single file name that is neither `.` nor `..`. */
  function PathJoin(dir: string, name: string): string {
    dir + "/" + name
  }
}
