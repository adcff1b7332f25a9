/**
 * `groupby([...], as_index=False)['count'].sum()` over the four key columns of the
 * combined table (borough, major category, minor category, month), and the row filters
 * applied to its result. A grouped table is a list of rows strictly sorted by key, the
 * order `groupby` (with its default `sort=True`) produces.
 */
module Aggregation {
  import opened Wrappers
  import opened Text

  /** A `pd.Timestamp` for the first of a month. */
  datatype Month = Month(year: int, month: int)

  predicate MonthLess(a: Month, b: Month) {
    a.year < b.year || (a.year == b.year && a.month < b.month)
  }

  datatype Key = Key(borough: string, major: string, minor: string, month: Month)

  datatype Row = Row(key: Key, count: int)

  /** Lexicographic on the key columns, strings by code point. */
  predicate KeyLess(a: Key, b: Key) {
    if a.borough != b.borough then StrLess(a.borough, b.borough)
    else if a.major != b.major then StrLess(a.major, b.major)
    else if a.minor != b.minor then StrLess(a.minor, b.minor)
    else MonthLess(a.month, b.month)
  }

  lemma KeyLessIrreflexive(a: Key)
    ensures !KeyLess(a, a)
  {
  }

  lemma KeyLessTransitive(a: Key, b: Key, c: Key)
    requires KeyLess(a, b) && KeyLess(b, c)
    ensures KeyLess(a, c)
  {
    if a.borough != b.borough && b.borough != c.borough {
      StrLessTransitive(a.borough, b.borough, c.borough);
      StrLessIrreflexive(a.borough);
    } else if a.borough == b.borough && b.borough == c.borough {
      if a.major != b.major && b.major != c.major {
        StrLessTransitive(a.major, b.major, c.major);
        StrLessIrreflexive(a.major);
      } else if a.major == b.major && b.major == c.major && a.minor != b.minor && b.minor != c.minor {
        StrLessTransitive(a.minor, b.minor, c.minor);
        StrLessIrreflexive(a.minor);
      }
    }
  }

  lemma KeyLessTotal(a: Key, b: Key)
    ensures a == b || KeyLess(a, b) || KeyLess(b, a)
  {
    StrLessTotal(a.borough, b.borough);
    StrLessTotal(a.major, b.major);
    StrLessTotal(a.minor, b.minor);
  }

  lemma KeyLessAsymmetric(a: Key, b: Key)
    ensures !(KeyLess(a, b) && KeyLess(b, a))
  {
    if KeyLess(a, b) && KeyLess(b, a) {
      KeyLessTransitive(a, b, a);
      KeyLessIrreflexive(a);
    }
  }

  /** Each key once, in ascending key order. */
  predicate StrictlySorted(rows: seq<Row>) {
    forall i, j :: 0 <= i < j < |rows| ==> KeyLess(rows[i].key, rows[j].key)
  }

  function KeysOf(rows: seq<Row>): set<Key> {
    set i | 0 <= i < |rows| :: rows[i].key
  }

  /** The count stored under `k`, found by the first row with that key. */
  function Lookup(rows: seq<Row>, k: Key): (r: Option<int>)
    ensures r.Some? <==> k in KeysOf(rows)
    decreases |rows|
  {
    if rows == [] then None
    else if rows[0].key == k then Some(rows[0].count)
    else
      var r := Lookup(rows[1..], k);
      assert KeysOf(rows) == {rows[0].key} + KeysOf(rows[1..]) by {
        assert forall i :: 1 <= i < |rows| ==> rows[i] == rows[1..][i - 1];
      }
      r
  }

  /** The sum of the counts of the rows whose key is `k`. */
  function SumFor(rows: seq<Row>, k: Key): int
    decreases |rows|
  {
    if rows == [] then 0
    else SumFor(rows[..|rows| - 1], k) + (if rows[|rows| - 1].key == k then rows[|rows| - 1].count else 0)
  }

  /** Adds one row to a grouped table. */
  function Insert(groups: seq<Row>, r: Row): seq<Row>
    decreases |groups|
  {
    if groups == [] then [r]
    else if groups[0].key == r.key then [Row(r.key, groups[0].count + r.count)] + groups[1..]
    else if KeyLess(r.key, groups[0].key) then [r] + groups
    else [groups[0]] + Insert(groups[1..], r)
  }

  /** The groups of `rows` with the sum of their counts. */
  function GroupSum(rows: seq<Row>): seq<Row>
    decreases |rows|
  {
    if rows == [] then [] else Insert(GroupSum(rows[..|rows| - 1]), rows[|rows| - 1])
  }

  /** The rows `keep` accepts, in their order (a boolean mask). */
  function Filter(rows: seq<Row>, keep: Row -> bool): (r: seq<Row>)
    ensures |r| <= |rows|
    ensures forall i :: 0 <= i < |r| ==> keep(r[i])
    decreases |rows|
  {
    if rows == [] then []
    else if keep(rows[0]) then [rows[0]] + Filter(rows[1..], keep)
    else Filter(rows[1..], keep)
  }

  lemma KeysCons(x: Row, t: seq<Row>)
    ensures KeysOf([x] + t) == {x.key} + KeysOf(t)
  {
    var g := [x] + t;
    forall k | k in KeysOf(g) ensures k in {x.key} + KeysOf(t) {
      var i :| 0 <= i < |g| && g[i].key == k;
      if i > 0 {
        assert g[i] == t[i - 1];
      }
    }
    forall k | k in KeysOf(t) ensures k in KeysOf(g) {
      var i :| 0 <= i < |t| && t[i].key == k;
      assert g[i + 1] == t[i];
    }
    assert g[0] == x;
  }

  lemma KeysSnoc(t: seq<Row>, x: Row)
    ensures KeysOf(t + [x]) == KeysOf(t) + {x.key}
  {
    var g := t + [x];
    forall k | k in KeysOf(g) ensures k in KeysOf(t) + {x.key} {
      var i :| 0 <= i < |g| && g[i].key == k;
      if i < |t| {
        assert g[i] == t[i];
      }
    }
    forall k | k in KeysOf(t) ensures k in KeysOf(g) {
      var i :| 0 <= i < |t| && t[i].key == k;
      assert g[i] == t[i];
    }
    assert g[|t|] == x;
  }

  lemma {:induction false} InsertKeys(groups: seq<Row>, r: Row)
    ensures KeysOf(Insert(groups, r)) == KeysOf(groups) + {r.key}
    decreases |groups|
  {
    if groups == [] {
      KeysCons(r, []);
      assert [r] + [] == [r];
    } else {
      var tail := groups[1..];
      KeysCons(groups[0], tail);
      assert groups == [groups[0]] + tail;
      if groups[0].key == r.key {
        KeysCons(Row(r.key, groups[0].count + r.count), tail);
      } else if KeyLess(r.key, groups[0].key) {
        KeysCons(r, groups);
      } else {
        InsertKeys(tail, r);
        KeysCons(groups[0], Insert(tail, r));
      }
    }
  }

  lemma SortedCons(x: Row, t: seq<Row>)
    requires StrictlySorted(t)
    requires forall k :: k in KeysOf(t) ==> KeyLess(x.key, k)
    ensures StrictlySorted([x] + t)
  {
    var g := [x] + t;
    forall i, j | 0 <= i < j < |g| ensures KeyLess(g[i].key, g[j].key) {
      assert g[j] == t[j - 1];
      if i > 0 {
        assert g[i] == t[i - 1];
      } else {
        assert t[j - 1].key in KeysOf(t);
      }
    }
  }

  lemma {:induction false} InsertSorted(groups: seq<Row>, r: Row)
    requires StrictlySorted(groups)
    ensures StrictlySorted(Insert(groups, r))
    decreases |groups|
  {
    if groups != [] {
      var tail := groups[1..];
      assert StrictlySorted(tail) by {
        assert forall i :: 0 <= i < |tail| ==> tail[i] == groups[i + 1];
      }
      forall k | k in KeysOf(tail) ensures KeyLess(groups[0].key, k) {
        var i :| 0 <= i < |tail| && tail[i].key == k;
        assert tail[i] == groups[i + 1];
      }
      if groups[0].key == r.key {
        SortedCons(Row(r.key, groups[0].count + r.count), tail);
      } else if KeyLess(r.key, groups[0].key) {
        forall k | k in KeysOf(groups) ensures KeyLess(r.key, k) {
          if k != groups[0].key {
            KeyLessTransitive(r.key, groups[0].key, k);
          }
        }
        SortedCons(r, groups);
      } else {
        KeyLessTotal(r.key, groups[0].key);
        InsertSorted(tail, r);
        InsertKeys(tail, r);
        SortedCons(groups[0], Insert(tail, r));
      }
    }
  }

  /** A key below the first key of a sorted table is absent from it. */
  lemma AbsentBelow(groups: seq<Row>, k: Key)
    requires StrictlySorted(groups) && groups != [] && KeyLess(k, groups[0].key)
    ensures k !in KeysOf(groups)
  {
    forall i | 0 <= i < |groups| ensures groups[i].key != k {
      KeyLessIrreflexive(k);
      if i > 0 {
        KeyLessAsymmetric(groups[0].key, k);
      }
    }
  }

  lemma LookupCons(x: Row, t: seq<Row>, k: Key)
    ensures Lookup([x] + t, k) == if x.key == k then Some(x.count) else Lookup(t, k)
  {
    assert ([x] + t)[1..] == t;
  }

  lemma {:induction false} LookupInsert(groups: seq<Row>, r: Row, k: Key)
    requires StrictlySorted(groups)
    ensures Lookup(Insert(groups, r), k)
            == if k == r.key then Some(Lookup(groups, k).GetOr(0) + r.count) else Lookup(groups, k)
    decreases |groups|
  {
    if groups != [] {
      var head, tail := groups[0], groups[1..];
      assert groups == [head] + tail;
      LookupCons(head, tail, k);
      if head.key == r.key {
        LookupCons(Row(r.key, head.count + r.count), tail, k);
      } else if KeyLess(r.key, head.key) {
        LookupCons(r, groups, k);
        if k == r.key {
          AbsentBelow(groups, k);
        }
      } else {
        assert StrictlySorted(tail) by {
          assert forall i :: 0 <= i < |tail| ==> tail[i] == groups[i + 1];
        }
        LookupCons(head, Insert(tail, r), k);
        LookupInsert(tail, r, k);
      }
    }
  }

  /** Every group of `rows`, in key order. */
  lemma {:induction false} GroupSumSorted(rows: seq<Row>)
    ensures StrictlySorted(GroupSum(rows))
    decreases |rows|
  {
    if rows != [] {
      GroupSumSorted(rows[..|rows| - 1]);
      InsertSorted(GroupSum(rows[..|rows| - 1]), rows[|rows| - 1]);
    }
  }

  /** A grouped table holds, under each key of the input, the sum of that key's counts, and nothing else. */
  lemma {:induction false} GroupSumLookup(rows: seq<Row>, k: Key)
    ensures Lookup(GroupSum(rows), k) == if k in KeysOf(rows) then Some(SumFor(rows, k)) else None
    decreases |rows|
  {
    if rows != [] {
      var n := |rows| - 1;
      var prefix, last := rows[..n], rows[n];
      assert KeysOf(rows) == KeysOf(prefix) + {last.key} by {
        assert rows == prefix + [last];
        KeysSnoc(prefix, last);
      }
      assert GroupSum(rows) == Insert(GroupSum(prefix), last);
      assert SumFor(rows, k) == SumFor(prefix, k) + if last.key == k then last.count else 0;
      GroupSumLookup(prefix, k);
      GroupSumSorted(prefix);
      LookupInsert(GroupSum(prefix), last, k);
      if k !in KeysOf(prefix) && k == last.key {
        SumAbsent(prefix, k);
      }
    }
  }

  lemma {:induction false} SumAbsent(rows: seq<Row>, k: Key)
    requires k !in KeysOf(rows)
    ensures SumFor(rows, k) == 0
    decreases |rows|
  {
    if rows != [] {
      var prefix := rows[..|rows| - 1];
      assert KeysOf(prefix) <= KeysOf(rows) by {
        assert forall i :: 0 <= i < |prefix| ==> prefix[i] == rows[i];
      }
      assert rows[|rows| - 1].key in KeysOf(rows);
      SumAbsent(prefix, k);
    }
  }

  lemma SortedTail(rows: seq<Row>)
    requires StrictlySorted(rows) && rows != []
    ensures StrictlySorted(rows[1..])
    ensures rows[0].key !in KeysOf(rows[1..])
    ensures forall k :: k != rows[0].key ==> Lookup(rows[1..], k) == Lookup(rows, k)
  {
    var tail := rows[1..];
    assert forall i :: 0 <= i < |tail| ==> tail[i] == rows[i + 1];
    forall i | 0 <= i < |tail| ensures tail[i].key != rows[0].key {
      assert KeyLess(rows[0].key, tail[i].key);
      KeyLessIrreflexive(rows[0].key);
    }
  }

  /** The first key of a sorted table is its least. */
  lemma FirstKeyIsLeast(rows: seq<Row>, k: Key)
    requires StrictlySorted(rows) && k in KeysOf(rows)
    ensures k == rows[0].key || KeyLess(rows[0].key, k)
  {
    var i :| 0 <= i < |rows| && rows[i].key == k;
  }

  /** In a sorted table the lookup of a row's key finds that row. */
  lemma {:induction false} LookupAt(rows: seq<Row>, i: nat)
    requires StrictlySorted(rows) && i < |rows|
    ensures Lookup(rows, rows[i].key) == Some(rows[i].count)
    decreases i
  {
    if i > 0 {
      SortedTail(rows);
      assert rows[1..][i - 1] == rows[i];
      KeyLessIrreflexive(rows[0].key);
      LookupAt(rows[1..], i - 1);
    }
  }

  /** A strictly sorted table is determined by what it holds under each key. */
  lemma {:induction false} SortedDeterminedByLookup(a: seq<Row>, b: seq<Row>)
    requires StrictlySorted(a) && StrictlySorted(b)
    requires forall k :: Lookup(a, k) == Lookup(b, k)
    ensures a == b
    decreases |a|
  {
    if a != [] {
      assert Lookup(b, a[0].key).Some?;
    }
    if b != [] {
      assert Lookup(a, b[0].key).Some?;
    }
    if a != [] {
      FirstKeyIsLeast(a, b[0].key);
      FirstKeyIsLeast(b, a[0].key);
      KeyLessAsymmetric(a[0].key, b[0].key);
      assert Lookup(a, a[0].key) == Some(a[0].count) && Lookup(b, b[0].key) == Some(b[0].count);
      SortedTail(a);
      SortedTail(b);
      forall k ensures Lookup(a[1..], k) == Lookup(b[1..], k) {
        if k == a[0].key {
          assert Lookup(a[1..], k).None? && Lookup(b[1..], k).None?;
        }
      }
      SortedDeterminedByLookup(a[1..], b[1..]);
      assert a == [a[0]] + a[1..] && b == [b[0]] + b[1..];
    }
  }

  lemma {:induction false} FilterKeys(rows: seq<Row>, keep: Row -> bool)
    ensures KeysOf(Filter(rows, keep)) <= KeysOf(rows)
    decreases |rows|
  {
    if rows != [] {
      var tail := rows[1..];
      FilterKeys(tail, keep);
      assert KeysOf(tail) <= KeysOf(rows) by {
        assert forall i :: 0 <= i < |tail| ==> tail[i] == rows[i + 1];
      }
      if keep(rows[0]) {
        KeysCons(rows[0], Filter(tail, keep));
      }
    }
  }

  /** A mask keeps a sorted table sorted and keeps exactly the accepted entries. */
  lemma {:induction false} FilterSorted(rows: seq<Row>, keep: Row -> bool, k: Key)
    requires StrictlySorted(rows)
    ensures StrictlySorted(Filter(rows, keep))
    ensures Lookup(Filter(rows, keep), k)
            == if Lookup(rows, k).Some? && keep(Row(k, Lookup(rows, k).value)) then Lookup(rows, k) else None
    decreases |rows|
  {
    if rows != [] {
      var tail := rows[1..];
      SortedTail(rows);
      FilterSorted(tail, keep, k);
      FilterKeys(tail, keep);
      if keep(rows[0]) {
        forall j | j in KeysOf(Filter(tail, keep)) ensures KeyLess(rows[0].key, j) {
          var i :| 0 <= i < |tail| && tail[i].key == j;
          assert tail[i] == rows[i + 1];
        }
        SortedCons(rows[0], Filter(tail, keep));
      }
    }
  }
}
