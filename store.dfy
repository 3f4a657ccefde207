/** The catalog database both the server (backend/index.js) and the import script
    (backend/scripts/bulkImport.js) open: one `sermons` table that INSERT grows and
    SELECT reads. */
module Store {
  import opened Wrappers
  import opened Schema
  import opened Query

  class Catalog {
    /** The table's rows, oldest insert first. */
    var rows: seq<Record>

    /** The PRIMARY KEY constraint on `id`. */
    ghost predicate Valid()
      reads this
    {
      UniqueIds(rows)
    }

    /** A fresh, empty table (`CREATE TABLE IF NOT EXISTS` on a new database). */
    constructor ()
      ensures Valid() && rows == []
    {
      rows := [];
    }

    /** `INSERT INTO sermons ...`: adds the row, unless its id is taken, in which case the
        statement fails on the primary key and the table is unchanged. */
    method Insert(r: Record) returns (ok: bool)
      requires Valid()
      modifies this
      ensures Valid()
      ensures ok <==> !HasId(old(rows), r.id)
      ensures rows == if ok then old(rows) + [r] else old(rows)
    {
      ok := FindRow(rows, r.id).None?;
      if ok {
        rows := rows + [r];
        assert forall i :: 0 <= i < |rows| - 1 ==> rows[i] == old(rows)[i];
      }
    }

    /** `SELECT * FROM sermons WHERE id = ?`. */
    function Find(id: string): (r: Option<Record>)
      reads this
      requires Valid()
      ensures r.None? <==> !HasId(rows, id)
      ensures r.Some? ==> r.value in rows && r.value.id == id
      ensures forall k :: 0 <= k < |rows| && rows[k].id == id ==> r == Some(rows[k])
    {
      var r := FindRow(rows, id);
      forall k | 0 <= k < |rows| && rows[k].id == id ensures r == Some(rows[k]) {
        FindRowUnique(rows, k);
      }
      r
    }

    /** `SELECT <columns but filepath> FROM sermons WHERE ... ORDER BY ... LIMIT 200`. */
    function Select(clauses: seq<Clause>, o: Order): (items: seq<Item>)
      reads this
      ensures |items| <= Limit
      ensures |items| == Min(|Filter(rows, clauses)|, Limit)
      ensures SortedBy(o, items)
      ensures multiset(items) <= multiset(ItemsOf(Filter(rows, clauses)))
    {
      Run(rows, clauses, o)
    }

    /** `SELECT DISTINCT speaker FROM sermons ORDER BY speaker ASC`: every speaker on the
        table once, in ascending order. */
    function Speakers(): (names: seq<string>)
      reads this
      ensures StrictlyAscending(names)
      ensures forall i, j :: 0 <= i < j < |names| ==> names[i] != names[j]
      ensures forall s :: s in names <==> exists r :: r in rows && r.speaker == s
    {
      DistinctSpeakers(rows)
    }
  }
}
