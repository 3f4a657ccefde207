/** What SQLite does with the statements the handlers prepare (backend/index.js:72-82 and
    88): the WHERE clauses ANDed together, ORDER BY one key in one direction, LIMIT 200,
    and SELECT DISTINCT speaker ORDER BY speaker ASC. Rows that tie on the sort key may
    come back in any order; the insertion sort below picks one of those orders. Every property stated
    of the listing (sorted, capped, drawn from the matches, keeps the leading rows) holds for
    any tie order; only an equality with `Run` picks one. */
module Query {
  import opened Text
  import opened Schema

  /** `LIMIT 200`. */
  const Limit: nat := 200

  /** One condition pushed onto the WHERE list. */
  datatype Clause =
    | TitleOrSpeakerLike(text: string)   // (title LIKE %text% OR speaker LIKE %text%)
    | SpeakerEquals(name: string)        // speaker = name

  predicate Holds(c: Clause, r: Record) {
    match c
    case TitleOrSpeakerLike(t) => ContainsFolded(r.title, t) || ContainsFolded(r.speaker, t)
    case SpeakerEquals(n) => r.speaker == n
  }

  /** `WHERE c1 AND c2 ...`; an empty list means no WHERE at all. */
  predicate HoldsAll(clauses: seq<Clause>, r: Record) {
    forall i :: 0 <= i < |clauses| ==> Holds(clauses[i], r)
  }

  function Filter(rows: seq<Record>, clauses: seq<Clause>): (kept: seq<Record>)
    ensures |kept| <= |rows|
    ensures forall r :: r in kept <==> r in rows && HoldsAll(clauses, r)
  {
    if rows == [] then []
    else (if HoldsAll(clauses, rows[0]) then [rows[0]] else []) + Filter(rows[1..], clauses)
  }

  /** A matching row is kept as many times as the table holds it, and no other row is
      kept at all. */
  lemma {:induction false} FilterMultiplicity(rows: seq<Record>, clauses: seq<Clause>, r: Record)
    ensures multiset(Filter(rows, clauses))[r] == if HoldsAll(clauses, r) then multiset(rows)[r] else 0
  {
    if rows != [] {
      assert rows == [rows[0]] + rows[1..];
      FilterMultiplicity(rows[1..], clauses, r);
    }
  }

  function ItemsOf(rows: seq<Record>): (items: seq<Item>)
    ensures |items| == |rows|
    ensures forall i :: 0 <= i < |rows| ==> items[i] == ToItem(rows[i])
  {
    seq(|rows|, i requires 0 <= i < |rows| => ToItem(rows[i]))
  }

  lemma ItemOfRow(rows: seq<Record>, r: Record)
    requires r in rows
    ensures ToItem(r) in multiset(ItemsOf(rows))
  {
    var i :| 0 <= i < |rows| && rows[i] == r;
    assert ItemsOf(rows)[i] == ToItem(r);
  }

  /** The four ORDER BY clauses the listing can use. */
  datatype Order = DateDesc | DateAsc | TitleAsc | TitleDesc

  /** `a` may be listed before `b` under the order. */
  predicate Precedes(o: Order, a: Item, b: Item) {
    match o
    case DateDesc => LexLe(b.date, a.date)
    case DateAsc => LexLe(a.date, b.date)
    case TitleAsc => LexLe(a.title, b.title)
    case TitleDesc => LexLe(b.title, a.title)
  }

  lemma PrecedesTotal(o: Order, a: Item, b: Item)
    ensures Precedes(o, a, b) || Precedes(o, b, a)
  {
    match o
    case DateDesc => LexLeTotal(a.date, b.date);
    case DateAsc => LexLeTotal(a.date, b.date);
    case TitleAsc => LexLeTotal(a.title, b.title);
    case TitleDesc => LexLeTotal(a.title, b.title);
  }

  lemma PrecedesTransitive(o: Order, a: Item, b: Item, c: Item)
    requires Precedes(o, a, b) && Precedes(o, b, c)
    ensures Precedes(o, a, c)
  {
    match o
    case DateDesc => LexLeTransitive(c.date, b.date, a.date);
    case DateAsc => LexLeTransitive(a.date, b.date, c.date);
    case TitleAsc => LexLeTransitive(a.title, b.title, c.title);
    case TitleDesc => LexLeTransitive(c.title, b.title, a.title);
  }

  predicate SortedBy(o: Order, s: seq<Item>) {
    forall i, j :: 0 <= i < j < |s| ==> Precedes(o, s[i], s[j])
  }

  /** `h` precedes every element of `t`, when `t` holds `x` and the elements of `pool`
      and `h` precedes each of those. */
  lemma PrecedesEach(o: Order, h: Item, x: Item, pool: seq<Item>, t: seq<Item>)
    requires multiset(t) == multiset(pool) + multiset{x}
    requires Precedes(o, h, x)
    requires forall k :: 0 <= k < |pool| ==> Precedes(o, h, pool[k])
    ensures forall k :: 0 <= k < |t| ==> Precedes(o, h, t[k])
  {
    forall k | 0 <= k < |t| ensures Precedes(o, h, t[k]) {
      assert t[k] in multiset(t);
      if t[k] != x {
        assert t[k] in pool;
        var j :| 0 <= j < |pool| && pool[j] == t[k];
      }
    }
  }

  /** Putting in front an item that precedes everything keeps a sorted sequence sorted. */
  lemma ConsSorted(o: Order, h: Item, t: seq<Item>)
    requires SortedBy(o, t)
    requires forall k :: 0 <= k < |t| ==> Precedes(o, h, t[k])
    ensures SortedBy(o, [h] + t)
  {
    var s := [h] + t;
    forall i, j | 0 <= i < j < |s| ensures Precedes(o, s[i], s[j]) {
      assert s[j] == t[j - 1];
      if i > 0 {
        assert s[i] == t[i - 1];
      }
    }
  }

  /** The tail of a sorted sequence is sorted and follows its head. */
  lemma TailSorted(o: Order, s: seq<Item>)
    requires SortedBy(o, s) && s != []
    ensures SortedBy(o, s[1..])
    ensures forall k :: 0 <= k < |s[1..]| ==> Precedes(o, s[0], s[1..][k])
  {
    forall k | 0 <= k < |s[1..]| ensures Precedes(o, s[0], s[1..][k]) {
      assert s[1..][k] == s[k + 1];
    }
    forall i, j | 0 <= i < j < |s[1..]| ensures Precedes(o, s[1..][i], s[1..][j]) {
      assert s[1..][i] == s[i + 1] && s[1..][j] == s[j + 1];
    }
  }

  function InsertSorted(o: Order, x: Item, s: seq<Item>): (r: seq<Item>)
    requires SortedBy(o, s)
    ensures SortedBy(o, r)
    ensures multiset(r) == multiset(s) + multiset{x}
  {
    if s == [] then [x]
    else if Precedes(o, x, s[0]) then
      assert forall k :: 0 <= k < |s| ==> Precedes(o, x, s[k]) by {
        forall k | 0 < k < |s| ensures Precedes(o, x, s[k]) {
          PrecedesTransitive(o, x, s[0], s[k]);
        }
      }
      ConsSorted(o, x, s);
      [x] + s
    else
      TailSorted(o, s);
      var t := InsertSorted(o, x, s[1..]);
      PrecedesTotal(o, x, s[0]);
      PrecedesEach(o, s[0], x, s[1..], t);
      ConsSorted(o, s[0], t);
      assert s == [s[0]] + s[1..];
      [s[0]] + t
  }

  /** The rows in an order consistent with the ORDER BY clause. */
  function SortItems(o: Order, s: seq<Item>): (r: seq<Item>)
    ensures SortedBy(o, r)
    ensures multiset(r) == multiset(s)
  {
    if s == [] then []
    else
      assert s == [s[0]] + s[1..];
      InsertSorted(o, s[0], SortItems(o, s[1..]))
  }

  lemma PrefixSorted(o: Order, s: seq<Item>, n: nat)
    requires SortedBy(o, s) && n <= |s|
    ensures SortedBy(o, s[..n])
    ensures multiset(s[..n]) <= multiset(s)
  {
    assert s == s[..n] + s[n..];
  }

  function Min(a: nat, b: nat): nat { if a <= b then a else b }

  /** `SELECT ... WHERE clauses ORDER BY o LIMIT 200`: sorted, capped, drawn from the
      matching rows, and all of them when at most 200 match. */
  function Run(rows: seq<Record>, clauses: seq<Clause>, o: Order): (items: seq<Item>)
    ensures |items| == Min(|Filter(rows, clauses)|, Limit)
    ensures SortedBy(o, items)
    ensures multiset(items) <= multiset(ItemsOf(Filter(rows, clauses)))
    ensures |Filter(rows, clauses)| <= Limit ==>
      multiset(items) == multiset(ItemsOf(Filter(rows, clauses)))
  {
    var source := ItemsOf(Filter(rows, clauses));
    var sorted := SortItems(o, source);
    assert |sorted| == |multiset(sorted)| == |multiset(source)| == |source|;
    var n := Min(|sorted|, Limit);
    PrefixSorted(o, sorted, n);
    assert |sorted| <= Limit ==> sorted[..n] == sorted;
    sorted[..n]
  }

  /** LIMIT keeps the best rows: a matching row that was cut off sorts no earlier than
      any row that was kept. */
  lemma RunKeepsLeading(rows: seq<Record>, clauses: seq<Clause>, o: Order, r: Record)
    requires r in rows && HoldsAll(clauses, r)
    requires ToItem(r) !in Run(rows, clauses, o)
    ensures forall i :: 0 <= i < |Run(rows, clauses, o)| ==>
      Precedes(o, Run(rows, clauses, o)[i], ToItem(r))
  {
    var sorted := SortItems(o, ItemsOf(Filter(rows, clauses)));
    var items := Run(rows, clauses, o);
    var n := Min(|sorted|, Limit);
    assert items == sorted[..n];
    ItemOfRow(Filter(rows, clauses), r);
    assert ToItem(r) in multiset(sorted);
    var k :| 0 <= k < |sorted| && sorted[k] == ToItem(r);
    forall j | 0 <= j < n ensures sorted[j] != ToItem(r) {
      assert items[j] == sorted[j] && items[j] in items;
    }
    forall i | 0 <= i < |items| ensures Precedes(o, items[i], ToItem(r)) {
      assert items[i] == sorted[i];
    }
  }

  /** Every row a listing returns satisfies every WHERE clause. */
  lemma RunOnlyMatches(rows: seq<Record>, clauses: seq<Clause>, o: Order, i: nat)
    requires i < |Run(rows, clauses, o)|
    ensures exists r :: r in rows && HoldsAll(clauses, r) && ToItem(r) == Run(rows, clauses, o)[i]
  {
    var items := Run(rows, clauses, o);
    var kept := Filter(rows, clauses);
    assert items[i] in multiset(items);
    assert items[i] in multiset(ItemsOf(kept));
    assert items[i] in ItemsOf(kept);
    var j :| 0 <= j < |kept| && ItemsOf(kept)[j] == items[i];
    assert kept[j] in kept;
  }

  predicate StrictlyAscending(s: seq<string>) {
    forall i, j :: 0 <= i < j < |s| ==> LexLt(s[i], s[j])
  }

  /** The speakers that appear on some row. */
  function SpeakerSet(rows: seq<Record>): set<string> {
    set r | r in rows :: r.speaker
  }

  lemma LexLtTransitive(a: string, b: string, c: string)
    requires LexLt(a, b) && LexLe(b, c)
    ensures LexLt(a, c)
  {
    LexLeTransitive(a, b, c);
    LexLeAntisymmetric(a, b);
  }

  /** Adds `x` to a strictly ascending list unless it is already there. */
  function InsertDistinct(x: string, s: seq<string>): (r: seq<string>)
    requires StrictlyAscending(s)
    ensures StrictlyAscending(r)
    ensures forall y :: y in r <==> y == x || y in s
  {
    if s == [] then [x]
    else if x == s[0] then s
    else if LexLe(x, s[0]) then
      assert forall k :: 0 <= k < |s| ==> LexLt(x, s[k]) by {
        forall k | 0 < k < |s| { LexLtTransitive(x, s[0], s[k]); }
      }
      [x] + s
    else
      var t := InsertDistinct(x, s[1..]);
      LexLeTotal(x, s[0]);
      assert forall k :: 0 <= k < |t| ==> LexLt(s[0], t[k]) by {
        forall k | 0 <= k < |t| ensures LexLt(s[0], t[k]) {
          assert t[k] in t;
        }
      }
      assert s == [s[0]] + s[1..];
      [s[0]] + t
  }

  /** `SELECT DISTINCT speaker FROM sermons ORDER BY speaker ASC`. */
  function DistinctSpeakers(rows: seq<Record>): (names: seq<string>)
    ensures StrictlyAscending(names)
    ensures forall y :: y in names <==> y in SpeakerSet(rows)
  {
    if rows == [] then []
    else
      var rest := DistinctSpeakers(rows[1..]);
      assert SpeakerSet(rows) == {rows[0].speaker} + SpeakerSet(rows[1..]) by {
        assert rows == [rows[0]] + rows[1..];
      }
      InsertDistinct(rows[0].speaker, rest)
  }
}
