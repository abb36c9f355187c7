/**
 * Deduplication by timestamp (src/estxl/de_dup.py): rows are compared on every
 * column except the time column and the ignored ones; the rows are sorted by
 * the parsed timestamp, one row per tuple of compared values survives, and the
 * removed rows are summarised per signature (the "§"-joined compared values).
 *
 * `pd.to_datetime(..., errors="coerce")` is a parameter `parse` (None stands
 * for NaT), and the order `sort_values` leaves the rows in is a parameter
 * `order` constrained to be a permutation that sorts the timestamps.
 */
module DeDup {
  import opened Wrappers
  import opened Records

  /** The column the report block adds to the working copy. */
  const SigColumn: string := "_sig"

  /** The separator of a signature. */
  const SigSep: char := '§'

  /** `KeyError` raised when the time column is missing. */
  datatype DedupeError = MissingTimeColumn(timeCol: string)

  /** One report row: the removed rows' timestamp count, minimum and maximum, and the kept row's timestamp. */
  datatype ReportRow = ReportRow(removedRows: nat, removedMinTs: Option<int>, removedMaxTs: Option<int>, keptTs: Option<int>)

  /** `(deduped_df, report_df, removed_json)`. */
  datatype Outcome = Outcome(deduped: Table, report: seq<ReportRow>, removed: seq<Row>)

  // ---------------------------------------------------------------------------
  // Sequences picked by positions
  // ---------------------------------------------------------------------------

  /** The elements of s at the positions p, in the order of p. */
  function Pick<T>(s: seq<T>, p: seq<nat>): (r: seq<T>)
    requires forall k :: 0 <= k < |p| ==> p[k] < |s|
    ensures |r| == |p|
  {
    seq(|p|, k requires 0 <= k < |p| => s[p[k]])
  }

  function Not(m: seq<bool>): (r: seq<bool>)
    ensures |r| == |m| && forall k :: 0 <= k < |m| ==> r[k] == !m[k]
  {
    seq(|m|, k requires 0 <= k < |m| => !m[k])
  }

  function Range(n: nat): (r: seq<nat>)
    ensures |r| == n && forall k :: 0 <= k < n ==> r[k] == k
  {
    seq(n, k => k)
  }

  /** The positions of a mask and of its negation together list every position exactly once. */
  lemma {:induction false} PositionsPartition(m: seq<bool>)
    ensures multiset(Positions(m) + Positions(Not(m))) == multiset(Range(|m|))
  {
    if m != [] {
      var n: nat := |m| - 1;
      PositionsPartition(m[..n]);
      PositionsStep(m);
      RangeStep(n);
    }
  }

  /** One more position adds exactly that position. */
  lemma RangeStep(n: nat)
    ensures multiset(Range(n + 1)) == multiset(Range(n)) + multiset{n}
  {
    assert Range(n + 1) == Range(n) + [n];
  }

  /** The last position of a mask goes to its own positions or to those of its negation. */
  lemma PositionsStep(m: seq<bool>)
    requires m != []
    ensures var n := |m| - 1;
      multiset(Positions(m) + Positions(Not(m)))
        == multiset(Positions(m[..n]) + Positions(Not(m[..n]))) + multiset{n}
  {
    var n := |m| - 1;
    var p0, q0 := Positions(m[..n]), Positions(Not(m[..n]));
    assert Not(m)[..n] == Not(m[..n]);
    if m[n] {
      assert Positions(m) == p0 + [n];
      assert Positions(Not(m)) == q0;
    } else {
      assert Positions(m) == p0;
      assert Positions(Not(m)) == q0 + [n];
    }
  }

  /** Picking by the positions of a mask and of its negation splits s into two parts that make up s. */
  lemma PickPartition<T>(s: seq<T>, m: seq<bool>)
    requires |m| == |s|
    ensures multiset(Pick(s, Positions(m)) + Pick(s, Positions(Not(m)))) == multiset(Pick(s, Range(|s|)))
  {
    var p, q := Positions(m), Positions(Not(m));
    PositionsPartition(m);
    var pq := p + q;
    assert forall k :: 0 <= k < |pq| ==> pq[k] < |s| by {
      forall k | 0 <= k < |pq| ensures pq[k] < |s| {
        if k < |p| { assert pq[k] == p[k]; } else { assert pq[k] == q[k - |p|]; }
      }
    }
    PickMultiset(s, pq, Range(|s|));
    PickAppend(s, p, q);
  }

  lemma PickAppend<T>(s: seq<T>, p: seq<nat>, q: seq<nat>)
    requires forall k :: 0 <= k < |p| ==> p[k] < |s|
    requires forall k :: 0 <= k < |q| ==> q[k] < |s|
    ensures forall k :: 0 <= k < |p + q| ==> (p + q)[k] < |s|
    ensures Pick(s, p + q) == Pick(s, p) + Pick(s, q)
  {
    assert forall k :: 0 <= k < |p + q| ==> (p + q)[k] == if k < |p| then p[k] else q[k - |p|];
  }

  /** Picking by two index lists with the same elements gives the same elements. */
  lemma {:induction false} PickMultiset<T>(s: seq<T>, p: seq<nat>, q: seq<nat>)
    requires forall k :: 0 <= k < |p| ==> p[k] < |s|
    requires forall k :: 0 <= k < |q| ==> q[k] < |s|
    requires multiset(p) == multiset(q)
    ensures multiset(Pick(s, p)) == multiset(Pick(s, q))
    decreases |p|
  {
    if p != [] {
      assert p[0] in multiset(q);
      var j :| 0 <= j < |q| && q[j] == p[0];
      var q' := q[..j] + q[j + 1..];
      PickStep(s, p, q, j, q');
      PickMultiset(s, p[1..], q');
    } else {
      assert |q| == |multiset(q)| == 0;
    }
  }

  /** One step of PickMultiset: take the first index of p out of both lists. */
  lemma PickStep<T>(s: seq<T>, p: seq<nat>, q: seq<nat>, j: nat, q': seq<nat>)
    requires forall k :: 0 <= k < |p| ==> p[k] < |s|
    requires forall k :: 0 <= k < |q| ==> q[k] < |s|
    requires multiset(p) == multiset(q)
    requires p != [] && j < |q| && q[j] == p[0] && q' == q[..j] + q[j + 1..]
    ensures forall k :: 0 <= k < |q'| ==> q'[k] < |s|
    ensures multiset(p[1..]) == multiset(q')
    ensures multiset(Pick(s, q)) == multiset(Pick(s, q')) + multiset{s[p[0]]}
    ensures multiset(Pick(s, p)) == multiset(Pick(s, p[1..])) + multiset{s[p[0]]}
  {
    PickRemove(s, q, j, q');
    RemoveFirst(p, q, j, q');
    assert multiset(Pick(s, q)) == multiset(Pick(s, q')) + multiset{s[p[0]]} by {
      MultisetRemove(Pick(s, q), j);
    }
    PickHead(s, p);
  }

  /** Taking one equal element out of two lists with the same elements keeps them equal. */
  lemma RemoveFirst(p: seq<nat>, q: seq<nat>, j: nat, q': seq<nat>)
    requires multiset(p) == multiset(q)
    requires p != [] && j < |q| && q[j] == p[0] && q' == q[..j] + q[j + 1..]
    ensures multiset(p[1..]) == multiset(q')
  {
    MultisetRemove(q, j);
    MultisetRemove(p, 0);
    assert p[..0] + p[1..] == p[1..];
    MultisetCancel(multiset(p[1..]), multiset(q'), p[0]);
  }

  lemma PickHead<T>(s: seq<T>, p: seq<nat>)
    requires forall k :: 0 <= k < |p| ==> p[k] < |s|
    requires p != []
    ensures multiset(Pick(s, p)) == multiset(Pick(s, p[1..])) + multiset{s[p[0]]}
  {
    assert Pick(s, p) == [s[p[0]]] + Pick(s, p[1..]);
  }

  /** Removing position j takes one copy of s[j] out of the multiset. */
  lemma MultisetRemove<T>(s: seq<T>, j: nat)
    requires j < |s|
    ensures multiset(s) == multiset(s[..j] + s[j + 1..]) + multiset{s[j]}
  {
    assert s == s[..j] + [s[j]] + s[j + 1..];
  }

  lemma MultisetCancel<T>(a: multiset<T>, b: multiset<T>, x: T)
    requires a + multiset{x} == b + multiset{x}
    ensures a == b
  {
    forall y ensures a[y] == b[y] {
      assert (a + multiset{x})[y] == (b + multiset{x})[y];
    }
  }

  /** Picking without position j of the index list is the pick without its j-th element. */
  lemma PickRemove<T>(s: seq<T>, q: seq<nat>, j: nat, q': seq<nat>)
    requires forall k :: 0 <= k < |q| ==> q[k] < |s|
    requires j < |q| && q' == q[..j] + q[j + 1..]
    ensures forall k :: 0 <= k < |q'| ==> q'[k] < |s|
    ensures Pick(s, q') == Pick(s, q)[..j] + Pick(s, q)[j + 1..]
  {
    assert forall k :: 0 <= k < |q'| ==> q'[k] == if k < j then q[k] else q[k + 1];
  }

  /** Picking the positions 0..|s|-1 gives s back. */
  lemma PickRange<T>(s: seq<T>)
    ensures Pick(s, Range(|s|)) == s
  {
  }

  /** Picking twice is picking by the composed positions. */
  lemma PickPick<T>(s: seq<T>, p: seq<nat>, q: seq<nat>)
    requires forall k :: 0 <= k < |p| ==> p[k] < |s|
    requires forall k :: 0 <= k < |q| ==> q[k] < |p|
    ensures forall k :: 0 <= k < |Pick(p, q)| ==> Pick(p, q)[k] < |s|
    ensures Pick(Pick(s, p), q) == Pick(s, Pick(p, q))
  {
  }

  // ---------------------------------------------------------------------------
  // `duplicated(keep=...)` on a sequence of comparison keys
  // ---------------------------------------------------------------------------

  /**
   * Whether position k is a duplicate: with keep="last" some later position has
   * the same key, otherwise some earlier one does.
   */
  predicate DupAt<K(==)>(keys: seq<K>, k: nat, keepLast: bool)
    requires k < |keys|
  {
    if keepLast then exists j :: k < j < |keys| && keys[j] == keys[k]
    else exists j :: 0 <= j < k && keys[j] == keys[k]
  }

  /** `duplicated(keep="last" if keepLast else "first")`. */
  function DupMask<K(==)>(keys: seq<K>, keepLast: bool): (m: seq<bool>)
    ensures |m| == |keys|
  {
    seq(|keys|, k requires 0 <= k < |keys| => DupAt(keys, k, keepLast))
  }

  /** Two positions the mask keeps never share a key. */
  lemma KeptDistinct<K>(keys: seq<K>, keepLast: bool, a: nat, b: nat)
    requires a < b < |keys| && !DupMask(keys, keepLast)[a] && !DupMask(keys, keepLast)[b]
    ensures keys[a] != keys[b]
  {
    assert !DupAt(keys, a, keepLast) && !DupAt(keys, b, keepLast);
  }

  /** Every key has a kept position: the last of its occurrences for keep="last", the first otherwise. */
  lemma {:induction false} SurvivorExists<K>(keys: seq<K>, keepLast: bool, k: nat)
    requires k < |keys|
    ensures exists j :: (0 <= j < |keys| && !DupMask(keys, keepLast)[j] && keys[j] == keys[k] &&
      (if keepLast then k <= j else j <= k))
    decreases if keepLast then |keys| - k else k
  {
    if DupMask(keys, keepLast)[k] {
      assert DupAt(keys, k, keepLast);
      if keepLast {
        var j :| k < j < |keys| && keys[j] == keys[k];
        SurvivorExists(keys, keepLast, j);
      } else {
        var j :| 0 <= j < k && keys[j] == keys[k];
        SurvivorExists(keys, keepLast, j);
      }
    } else {
      assert !DupMask(keys, keepLast)[k] && keys[k] == keys[k];
    }
  }

  /** A kept position comes after (keep="last") or before (otherwise) every position with its key. */
  lemma SurvivorIsExtreme<K>(keys: seq<K>, keepLast: bool, k: nat, j: nat)
    requires k < |keys| && j < |keys| && !DupMask(keys, keepLast)[k] && keys[j] == keys[k]
    ensures if keepLast then j <= k else k <= j
  {
    assert !DupAt(keys, k, keepLast);
  }

  /** When no two keys are equal nothing is a duplicate. */
  lemma NoneDuplicated<K>(keys: seq<K>, keepLast: bool)
    requires forall a, b :: 0 <= a < b < |keys| ==> keys[a] != keys[b]
    ensures Positions(DupMask(keys, keepLast)) == []
  {
    var m := DupMask(keys, keepLast);
    forall k | 0 <= k < |m| ensures !m[k] {
      if keepLast {
        assert forall j :: k < j < |keys| ==> keys[j] != keys[k];
      } else {
        assert forall j :: 0 <= j < k ==> keys[j] != keys[k];
      }
    }
    PositionsNone(m);
  }

  lemma {:induction false} PositionsNone(m: seq<bool>)
    requires forall k :: 0 <= k < |m| ==> !m[k]
    ensures Positions(m) == []
  {
    if m != [] {
      PositionsNone(m[..|m| - 1]);
    }
  }

  // ---------------------------------------------------------------------------
  // Timestamps and the sort order
  // ---------------------------------------------------------------------------

  /** A timestamp cell: a parsed instant, or NaT (a missing value). */
  function TimeCell(p: Option<int>): (v: Value)
    ensures TimeOf(v) == p
  {
    match p
    case Some(x) => Time(x)
    case None => Null
  }

  /** The instant a cell holds, None for NaT and for anything that is not an instant. */
  function TimeOf(v: Value): Option<int> {
    if v.Time? then Some(v.t) else None
  }

  /** The timestamps of a column, None where the row lacks it. */
  function Times(rows: seq<Row>, timeCol: string): (ts: seq<Option<int>>)
    ensures |ts| == |rows|
  {
    seq(|rows|, k requires 0 <= k < |rows| => if timeCol in rows[k] then TimeOf(rows[k][timeCol]) else None)
  }

  /**
   * `out[time_col] = pd.to_datetime(out[time_col], errors="coerce")`; `parse`
   * is the per-cell conversion, None standing for NaT.
   */
  function Coerce(t: Table, timeCol: string, parse: Value -> Option<int>): (r: Table)
    requires WellFormed(t) && timeCol in t.columns
    ensures WellFormed(r) && r.columns == t.columns && |r.rows| == |t.rows|
  {
    SetColumn(t, timeCol, seq(|t.rows|, k requires 0 <= k < |t.rows| => TimeCell(parse(t.rows[k][timeCol]))))
  }

  /** Coercion rewrites the time cell of every row and leaves its other cells alone. */
  lemma CoerceRow(t: Table, timeCol: string, parse: Value -> Option<int>, k: nat)
    requires WellFormed(t) && timeCol in t.columns && k < |t.rows|
    ensures Coerce(t, timeCol, parse).rows[k] == t.rows[k][timeCol := TimeCell(parse(t.rows[k][timeCol]))]
    ensures Times(Coerce(t, timeCol, parse).rows, timeCol)[k] == parse(t.rows[k][timeCol])
  {
  }

  /**
   * Whether timestamp a may stand before b in `sort_values(ascending=asc)`:
   * NaT goes last in both directions, instants go up (asc) or down.
   */
  predicate Precedes(asc: bool, a: Option<int>, b: Option<int>) {
    match (a, b)
    case (_, None) => true
    case (None, Some(_)) => false
    case (Some(x), Some(y)) => if asc then x <= y else x >= y
  }

  /** Timestamps listed in sort order. */
  predicate SortedBy(ts: seq<Option<int>>, asc: bool) {
    forall a, b :: 0 <= a < b < |ts| ==> Precedes(asc, ts[a], ts[b])
  }

  /** Positions whose timestamps are listed in sort order. */
  predicate SortedPositions(ts: seq<Option<int>>, asc: bool, o: seq<nat>)
    requires forall k :: 0 <= k < |o| ==> o[k] < |ts|
  {
    forall a, b :: 0 <= a < b < |o| ==> Precedes(asc, ts[o[a]], ts[o[b]])
  }

  /**
   * `order` is an order `sort_values` may leave the rows in: a permutation of
   * the row positions that lists the timestamps in sort order. Ties may come in
   * any order.
   */
  ghost predicate IsSortOrder(ts: seq<Option<int>>, asc: bool, order: seq<nat>) {
    && |order| == |ts|
    && (forall k :: 0 <= k < |order| ==> order[k] < |ts|)
    && multiset(order) == multiset(Range(|ts|))
    && SortedPositions(ts, asc, order)
  }

  lemma PrecedesTotal(asc: bool, a: Option<int>, b: Option<int>)
    ensures Precedes(asc, a, b) || Precedes(asc, b, a)
  {
  }

  lemma PrecedesTrans(asc: bool, a: Option<int>, b: Option<int>, c: Option<int>)
    requires Precedes(asc, a, b) && Precedes(asc, b, c)
    ensures Precedes(asc, a, c)
  {
  }

  /** Insert position i into a sorted list of positions, before the first one it precedes. */
  function Insert(ts: seq<Option<int>>, asc: bool, o: seq<nat>, i: nat): (r: seq<nat>)
    requires i < |ts| && forall k :: 0 <= k < |o| ==> o[k] < |ts|
    ensures |r| == |o| + 1 && multiset(r) == multiset(o) + multiset{i}
    ensures forall k :: 0 <= k < |r| ==> r[k] < |ts|
  {
    if o == [] || Precedes(asc, ts[i], ts[o[0]]) then [i] + o
    else
      assert o == [o[0]] + o[1..];
      [o[0]] + Insert(ts, asc, o[1..], i)
  }

  /** A sorted list with a head that precedes all of it is sorted. */
  lemma SortedCons(ts: seq<Option<int>>, asc: bool, x: nat, o: seq<nat>)
    requires x < |ts| && forall k :: 0 <= k < |o| ==> o[k] < |ts|
    requires SortedPositions(ts, asc, o)
    requires forall k :: 0 <= k < |o| ==> Precedes(asc, ts[x], ts[o[k]])
    ensures SortedPositions(ts, asc, [x] + o)
  {
    var r := [x] + o;
    forall a, b | 0 <= a < b < |r| ensures Precedes(asc, ts[r[a]], ts[r[b]]) {
      if a == 0 {
        assert r[b] == o[b - 1];
      } else {
        assert r[a] == o[a - 1] && r[b] == o[b - 1];
      }
    }
  }

  /** The head of a sorted list precedes the rest, and the rest is sorted. */
  lemma SortedTail(ts: seq<Option<int>>, asc: bool, o: seq<nat>)
    requires o != [] && forall k :: 0 <= k < |o| ==> o[k] < |ts|
    requires SortedPositions(ts, asc, o)
    ensures SortedPositions(ts, asc, o[1..])
    ensures forall k :: 0 <= k < |o| - 1 ==> Precedes(asc, ts[o[0]], ts[o[1..][k]])
  {
    var tail := o[1..];
    forall a, b | 0 <= a < b < |tail| ensures Precedes(asc, ts[tail[a]], ts[tail[b]]) {
      assert tail[a] == o[a + 1] && tail[b] == o[b + 1];
    }
    forall k | 0 <= k < |tail| ensures Precedes(asc, ts[o[0]], ts[tail[k]]) {
      assert tail[k] == o[k + 1];
    }
  }

  /** Whatever precedes i and every element of o precedes every element of the insertion. */
  lemma {:induction false} InsertBound(ts: seq<Option<int>>, asc: bool, x: nat, o: seq<nat>, i: nat)
    requires x < |ts| && i < |ts| && forall k :: 0 <= k < |o| ==> o[k] < |ts|
    requires Precedes(asc, ts[x], ts[i])
    requires forall k :: 0 <= k < |o| ==> Precedes(asc, ts[x], ts[o[k]])
    ensures forall k :: 0 <= k < |o| + 1 ==> Precedes(asc, ts[x], ts[Insert(ts, asc, o, i)[k]])
  {
    if o != [] && !Precedes(asc, ts[i], ts[o[0]]) {
      InsertBound(ts, asc, x, o[1..], i);
      var r := Insert(ts, asc, o, i);
      forall k | 0 <= k < |r| ensures Precedes(asc, ts[x], ts[r[k]]) {
        if k > 0 {
          assert r[k] == Insert(ts, asc, o[1..], i)[k - 1];
        }
      }
    }
  }

  lemma {:induction false} InsertSorted(ts: seq<Option<int>>, asc: bool, o: seq<nat>, i: nat)
    requires i < |ts| && forall k :: 0 <= k < |o| ==> o[k] < |ts|
    requires SortedPositions(ts, asc, o)
    ensures SortedPositions(ts, asc, Insert(ts, asc, o, i))
  {
    if o == [] || Precedes(asc, ts[i], ts[o[0]]) {
      if o != [] {
        SortedTail(ts, asc, o);
        forall k | 0 <= k < |o| ensures Precedes(asc, ts[i], ts[o[k]]) {
          if k > 0 {
            assert o[k] == o[1..][k - 1];
            PrecedesTrans(asc, ts[i], ts[o[0]], ts[o[k]]);
          }
        }
      }
      SortedCons(ts, asc, i, o);
    } else {
      SortedTail(ts, asc, o);
      InsertSorted(ts, asc, o[1..], i);
      PrecedesTotal(asc, ts[i], ts[o[0]]);
      InsertBound(ts, asc, o[0], o[1..], i);
      SortedCons(ts, asc, o[0], Insert(ts, asc, o[1..], i));
    }
  }

  /** Insertion sort of the positions 0..n-1 by timestamp. */
  function InsertionOrder(ts: seq<Option<int>>, asc: bool, n: nat): (o: seq<nat>)
    requires n <= |ts|
    ensures |o| == n && multiset(o) == multiset(Range(n))
    ensures forall k :: 0 <= k < |o| ==> o[k] < |ts|
  {
    if n == 0 then []
    else
      assert Range(n) == Range(n - 1) + [n - 1];
      Insert(ts, asc, InsertionOrder(ts, asc, n - 1), n - 1)
  }

  /** A sort order exists for every column of timestamps. */
  lemma {:induction false} SortOrderExists(ts: seq<Option<int>>, asc: bool)
    ensures IsSortOrder(ts, asc, InsertionOrder(ts, asc, |ts|))
  {
    InsertionSorted(ts, asc, |ts|);
  }

  lemma {:induction false} InsertionSorted(ts: seq<Option<int>>, asc: bool, n: nat)
    requires n <= |ts|
    ensures SortedPositions(ts, asc, InsertionOrder(ts, asc, n))
  {
    if n > 0 {
      InsertionSorted(ts, asc, n - 1);
      InsertSorted(ts, asc, InsertionOrder(ts, asc, n - 1), n - 1);
    }
  }

  /** `out.sort_values(...)` with the rows put in the given order. */
  function Reorder(t: Table, order: seq<nat>): (r: Table)
    requires WellFormed(t) && forall k :: 0 <= k < |order| ==> order[k] < |t.rows|
    ensures WellFormed(r) && r.columns == t.columns && r.rows == Pick(t.rows, order)
  {
    Table(t.columns, Pick(t.rows, order))
  }

  /** Reordering by a sort order lists the timestamps in sort order. */
  lemma ReorderSorted(t: Table, timeCol: string, asc: bool, order: seq<nat>)
    requires WellFormed(t) && IsSortOrder(Times(t.rows, timeCol), asc, order)
    ensures SortedBy(Times(Reorder(t, order).rows, timeCol), asc)
  {
    var ts := Times(t.rows, timeCol);
    var sorted := Times(Reorder(t, order).rows, timeCol);
    assert forall a :: 0 <= a < |order| ==> sorted[a] == ts[order[a]];
  }

  /** Reordering by a permutation keeps every row, as often as before. */
  lemma ReorderPermutes(t: Table, order: seq<nat>)
    requires WellFormed(t) && forall k :: 0 <= k < |order| ==> order[k] < |t.rows|
    requires multiset(order) == multiset(Range(|t.rows|))
    ensures multiset(Reorder(t, order).rows) == multiset(t.rows)
  {
    PickMultiset(t.rows, order, Range(|t.rows|));
    PickRange(t.rows);
  }

  // ---------------------------------------------------------------------------
  // Comparison columns, keep/remove partition
  // ---------------------------------------------------------------------------

  /** `subset_cols`: every column but the time column and the ignored ones, in column order. */
  function CompareColumns(columns: seq<string>, timeCol: string, ignore: set<string>): (cols: seq<string>)
    ensures forall c {:trigger c in cols} :: c in cols <==> c in columns && c != timeCol && c !in ignore
    ensures InOrder(cols, columns)
  {
    WithoutInOrder(columns, {timeCol} + ignore);
    Without(columns, {timeCol} + ignore)
  }

  /** A row's values on the comparison columns (missing cells read as a missing value). */
  function Proj(row: Row, cols: seq<string>): (v: seq<Value>)
    ensures |v| == |cols|
  {
    seq(|cols|, i requires 0 <= i < |cols| => if cols[i] in row then row[cols[i]] else Null)
  }

  function Keys(rows: seq<Row>, cols: seq<string>): (ks: seq<seq<Value>>)
    ensures |ks| == |rows| && forall k :: 0 <= k < |rows| ==> ks[k] == Proj(rows[k], cols)
  {
    seq(|rows|, k requires 0 <= k < |rows| => Proj(rows[k], cols))
  }

  /** `dup_mask = out.duplicated(subset=subset_cols, keep=...)`. */
  function DupRows(rows: seq<Row>, cols: seq<string>, keepLast: bool): (m: seq<bool>)
    ensures |m| == |rows|
  {
    DupMask(Keys(rows, cols), keepLast)
  }

  /** `out.loc[dup_mask]`: the removed rows, in sorted order. */
  function Removed(rows: seq<Row>, cols: seq<string>, keepLast: bool): seq<Row> {
    Select(rows, DupRows(rows, cols, keepLast))
  }

  /** `out.drop_duplicates(subset=subset_cols, keep=...)`: the kept rows, in sorted order. */
  function Kept(rows: seq<Row>, cols: seq<string>, keepLast: bool): seq<Row> {
    Select(rows, Not(DupRows(rows, cols, keepLast)))
  }

  lemma SelectIsPick<T>(s: seq<T>, m: seq<bool>)
    requires |m| == |s|
    ensures Select(s, m) == Pick(s, Positions(m))
  {
  }

  /** Every row is either kept or removed, exactly once. */
  lemma KeptRemovedPartition(rows: seq<Row>, cols: seq<string>, keepLast: bool)
    ensures multiset(Kept(rows, cols, keepLast) + Removed(rows, cols, keepLast)) == multiset(rows)
  {
    var m := Not(DupRows(rows, cols, keepLast));
    assert Not(m) == DupRows(rows, cols, keepLast);
    SelectIsPick(rows, m);
    SelectIsPick(rows, Not(m));
    PickPartition(rows, m);
    PickRange(rows);
  }

  /** No two kept rows agree on the comparison columns. */
  lemma KeptDistinctKeys(rows: seq<Row>, cols: seq<string>, keepLast: bool)
    ensures var kept := Kept(rows, cols, keepLast);
      forall a, b :: 0 <= a < b < |kept| ==> Proj(kept[a], cols) != Proj(kept[b], cols)
  {
    var kept := Kept(rows, cols, keepLast);
    var m := Not(DupRows(rows, cols, keepLast));
    var p := Positions(m);
    forall a, b | 0 <= a < b < |kept| ensures Proj(kept[a], cols) != Proj(kept[b], cols) {
      assert kept[a] == rows[p[a]] && kept[b] == rows[p[b]];
      KeptDistinct(Keys(rows, cols), keepLast, p[a], p[b]);
    }
  }

  /** Every row agrees on the comparison columns with a kept row (itself when it is kept). */
  lemma SurvivorKept(rows: seq<Row>, cols: seq<string>, keepLast: bool, k: nat)
    requires k < |rows|
    ensures exists a :: 0 <= a < |Kept(rows, cols, keepLast)| && Proj(Kept(rows, cols, keepLast)[a], cols) == Proj(rows[k], cols)
  {
    var keys := Keys(rows, cols);
    SurvivorExists(keys, keepLast, k);
    var j :| 0 <= j < |keys| && !DupMask(keys, keepLast)[j] && keys[j] == keys[k] && (if keepLast then k <= j else j <= k);
    var m := Not(DupRows(rows, cols, keepLast));
    PositionsComplete(m, j);
    var a :| 0 <= a < |Positions(m)| && Positions(m)[a] == j;
    assert Kept(rows, cols, keepLast)[a] == rows[j];
  }

  /** Every removed row agrees on the comparison columns with a kept row. */
  lemma RemovedHaveSurvivor(rows: seq<Row>, cols: seq<string>, keepLast: bool, r: nat)
    requires r < |Removed(rows, cols, keepLast)|
    ensures exists a :: 0 <= a < |Kept(rows, cols, keepLast)| && Proj(Kept(rows, cols, keepLast)[a], cols) == Proj(Removed(rows, cols, keepLast)[r], cols)
  {
    var k := Positions(DupRows(rows, cols, keepLast))[r];
    SurvivorKept(rows, cols, keepLast, k);
  }

  /** The kept rows stay in sorted order. */
  lemma KeptSorted(rows: seq<Row>, cols: seq<string>, keepLast: bool, timeCol: string, asc: bool)
    requires SortedBy(Times(rows, timeCol), asc)
    ensures SortedBy(Times(Kept(rows, cols, keepLast), timeCol), asc)
  {
    var kept := Kept(rows, cols, keepLast);
    var p := Positions(Not(DupRows(rows, cols, keepLast)));
    var ts := Times(rows, timeCol);
    forall a, b | 0 <= a < b < |kept| ensures Precedes(asc, Times(kept, timeCol)[a], Times(kept, timeCol)[b]) {
      assert kept[a] == rows[p[a]] && kept[b] == rows[p[b]];
      assert Times(kept, timeCol)[a] == ts[p[a]] && Times(kept, timeCol)[b] == ts[p[b]];
    }
  }

  /**
   * The survivor of a group of rows that agree on the comparison columns: with
   * keep="last" every member's timestamp precedes the survivor's, otherwise the
   * survivor's precedes every member's, in the sort direction.
   */
  lemma SurvivorTime(rows: seq<Row>, cols: seq<string>, keepLast: bool, timeCol: string, asc: bool, k: nat, j: nat)
    requires SortedBy(Times(rows, timeCol), asc)
    requires k < |rows| && j < |rows| && !DupRows(rows, cols, keepLast)[k]
    requires Proj(rows[j], cols) == Proj(rows[k], cols)
    ensures var ts := Times(rows, timeCol);
      if keepLast then Precedes(asc, ts[j], ts[k]) else Precedes(asc, ts[k], ts[j])
  {
    var keys := Keys(rows, cols);
    SurvivorIsExtreme(keys, keepLast, k, j);
    var ts := Times(rows, timeCol);
    PrecedesTotal(asc, ts[j], ts[k]);
  }

  // ---------------------------------------------------------------------------
  // Signatures
  // ---------------------------------------------------------------------------

  /** `sep.join(xs)`. */
  function Join(xs: seq<string>, sep: char): string {
    if |xs| == 0 then ""
    else if |xs| == 1 then xs[0]
    else xs[0] + [sep] + Join(xs[1..], sep)
  }

  /** A join of at least two parts is the first part, the separator, and the join of the rest. */
  lemma JoinSplit(xs: seq<string>, sep: char)
    requires |xs| >= 2
    ensures var j := Join(xs, sep); var n := |xs[0]|;
      n < |j| && j[..n] == xs[0] && j[n] == sep && j[n + 1..] == Join(xs[1..], sep)
  {
    var n := |xs[0]|;
    var j := Join(xs, sep);
    assert j == xs[0] + [sep] + Join(xs[1..], sep);
    assert j[..n] == xs[0];
    assert j[n + 1..] == Join(xs[1..], sep);
  }

  /** Joins of equally many parts none of which contains the separator are equal only when the parts are. */
  lemma {:induction false} JoinInjective(xs: seq<string>, ys: seq<string>, sep: char)
    requires |xs| == |ys|
    requires forall i :: 0 <= i < |xs| ==> sep !in xs[i]
    requires forall i :: 0 <= i < |ys| ==> sep !in ys[i]
    requires Join(xs, sep) == Join(ys, sep)
    ensures xs == ys
  {
    if |xs| >= 2 {
      JoinSplit(xs, sep);
      JoinSplit(ys, sep);
      assert |xs[0]| == |ys[0]| by {
        assert sep !in xs[0] && sep !in ys[0];
      }
      assert xs[0] == ys[0];
      JoinInjective(xs[1..], ys[1..], sep);
      assert xs == [xs[0]] + xs[1..] && ys == [ys[0]] + ys[1..];
    }
  }

  /** `astype(str)` of a tuple of values. */
  function Shown(vs: seq<Value>): (r: seq<string>)
    ensures |r| == |vs| && forall i :: 0 <= i < |vs| ==> r[i] == Show(vs[i])
  {
    seq(|vs|, i requires 0 <= i < |vs| => Show(vs[i]))
  }

  /** `out[subset_cols].astype(str).agg("§".join, axis=1)` for one row. */
  function Sig(row: Row, cols: seq<string>): string {
    Join(Shown(Proj(row, cols)), SigSep)
  }

  /** No compared value of the row shows a "§". */
  predicate SepFree(row: Row, cols: seq<string>) {
    forall i :: 0 <= i < |cols| ==> SigSep !in Shown(Proj(row, cols))[i]
  }

  /** Two rows free of "§" have the same signature exactly when their compared values show the same. */
  lemma SigIff(r1: Row, r2: Row, cols: seq<string>)
    requires SepFree(r1, cols) && SepFree(r2, cols)
    ensures Sig(r1, cols) == Sig(r2, cols) <==> Shown(Proj(r1, cols)) == Shown(Proj(r2, cols))
  {
    if Sig(r1, cols) == Sig(r2, cols) {
      JoinInjective(Shown(Proj(r1, cols)), Shown(Proj(r2, cols)), SigSep);
    }
  }

  function Sigs(rows: seq<Row>, cols: seq<string>): (ss: seq<string>)
    ensures |ss| == |rows| && forall k :: 0 <= k < |rows| ==> ss[k] == Sig(rows[k], cols)
  {
    seq(|rows|, k requires 0 <= k < |rows| => Sig(rows[k], cols))
  }

  // ---------------------------------------------------------------------------
  // Report
  // ---------------------------------------------------------------------------

  /** `count` of a timestamp column: the timestamps that are not NaT. */
  function CountSome(ts: seq<Option<int>>): (n: nat)
    ensures n <= |ts|
    ensures n == 0 <==> forall k :: 0 <= k < |ts| ==> ts[k].None?
    ensures n == |ts| <==> forall k :: 0 <= k < |ts| ==> ts[k].Some?
  {
    if ts == [] then 0
    else
      var rest := CountSome(ts[1..]);
      assert forall k :: 1 <= k < |ts| ==> ts[k] == ts[1..][k - 1];
      (if ts[0].Some? then 1 else 0) + rest
  }

  /** `min` of a timestamp column, skipping NaT; NaT when nothing is left. */
  function MinOf(ts: seq<Option<int>>): (r: Option<int>)
    ensures r.None? <==> forall k :: 0 <= k < |ts| ==> ts[k].None?
    ensures r.Some? ==> r in ts && forall k :: 0 <= k < |ts| && ts[k].Some? ==> r.value <= ts[k].value
  {
    if ts == [] then None
    else
      var rest := MinOf(ts[1..]);
      assert forall k :: 1 <= k < |ts| ==> ts[k] == ts[1..][k - 1];
      match (ts[0], rest)
      case (None, _) => rest
      case (Some(x), None) => ts[0]
      case (Some(x), Some(y)) => if x <= y then ts[0] else rest
  }

  /** `max` of a timestamp column, skipping NaT; NaT when nothing is left. */
  function MaxOf(ts: seq<Option<int>>): (r: Option<int>)
    ensures r.None? <==> forall k :: 0 <= k < |ts| ==> ts[k].None?
    ensures r.Some? ==> r in ts && forall k :: 0 <= k < |ts| && ts[k].Some? ==> ts[k].value <= r.value
  {
    if ts == [] then None
    else
      var rest := MaxOf(ts[1..]);
      assert forall k :: 1 <= k < |ts| ==> ts[k] == ts[1..][k - 1];
      match (ts[0], rest)
      case (None, _) => rest
      case (Some(x), None) => ts[0]
      case (Some(x), Some(y)) => if x >= y then ts[0] else rest
  }

  /** The rows whose signature is s. */
  function SigMask(rows: seq<Row>, cols: seq<string>, s: string): (m: seq<bool>)
    ensures |m| == |rows| && forall k :: 0 <= k < |rows| ==> (m[k] <==> Sig(rows[k], cols) == s)
  {
    seq(|rows|, k requires 0 <= k < |rows| => Sig(rows[k], cols) == s)
  }

  /** The timestamps of the removed rows with signature s. */
  function GroupTimes(removed: seq<Row>, cols: seq<string>, timeCol: string, s: string): seq<Option<int>> {
    Select(Times(removed, timeCol), SigMask(removed, cols, s))
  }

  /** The report row of signature s: the aggregates of its removed rows, and the kept timestamp. */
  function ReportFor(removed: seq<Row>, cols: seq<string>, timeCol: string, s: string, keptTs: Option<int>): ReportRow {
    var ts := GroupTimes(removed, cols, timeCol, s);
    ReportRow(CountSome(ts), MinOf(ts), MaxOf(ts), keptTs)
  }

  /** `out.loc[kept_mask].drop_duplicates("_sig", keep=...)`: one kept row per signature. */
  function KeptBySig(kept: seq<Row>, cols: seq<string>, keepLast: bool): seq<Row> {
    Select(kept, Not(DupMask(Sigs(kept, cols), keepLast)))
  }

  /**
   * `report_df`: the removed rows grouped by signature and right-joined onto the
   * kept rows by signature, one row per kept signature in kept order, with
   * `removed_rows` filled with 0 where no removed row has the signature.
   */
  function Report(rows: seq<Row>, cols: seq<string>, timeCol: string, keepLast: bool): (rep: seq<ReportRow>)
    ensures |rep| == |KeptBySig(Kept(rows, cols, keepLast), cols, keepLast)|
  {
    var removed := Removed(rows, cols, keepLast);
    var bySig := KeptBySig(Kept(rows, cols, keepLast), cols, keepLast);
    seq(|bySig|, i requires 0 <= i < |bySig| => ReportFor(removed, cols, timeCol, Sig(bySig[i], cols), Times(bySig, timeCol)[i]))
  }

  // ---------------------------------------------------------------------------
  // dedupe_by_timestamp
  // ---------------------------------------------------------------------------

  /** `order` is a sort order of the coerced timestamps (when there is a time column). */
  ghost predicate SortsInput(t: Table, timeCol: string, parse: Value -> Option<int>, asc: bool, order: seq<nat>)
    requires WellFormed(t)
  {
    timeCol in t.columns ==> IsSortOrder(Times(Coerce(t, timeCol, parse).rows, timeCol), asc, order)
  }

  /** The working copy after coercion and sorting. */
  function SortedCopy(t: Table, timeCol: string, parse: Value -> Option<int>, asc: bool, order: seq<nat>): (out: Table)
    requires WellFormed(t) && timeCol in t.columns && SortsInput(t, timeCol, parse, asc, order)
    ensures WellFormed(out) && out.columns == t.columns && |out.rows| == |t.rows|
  {
    Reorder(Coerce(t, timeCol, parse), order)
  }

  /**
   * The body of `dedupe_by_timestamp` with the sort direction `asc` and the
   * `keep` argument of `duplicated`/`drop_duplicates` (`keepLast`) as given.
   */
  function Dedupe(t: Table, timeCol: string, ignore: set<string>, parse: Value -> Option<int>,
                  asc: bool, keepLast: bool, order: seq<nat>): (r: Result<Outcome, DedupeError>)
    requires WellFormed(t) && SortsInput(t, timeCol, parse, asc, order)
    ensures r.Err? <==> timeCol !in t.columns
    ensures r.Err? ==> r.error == MissingTimeColumn(timeCol)
  {
    if timeCol !in t.columns then Err(MissingTimeColumn(timeCol))
    else
      var out := SortedCopy(t, timeCol, parse, asc, order);
      var cols := CompareColumns(out.columns, timeCol, ignore);
      var deduped := SelectRows(out, Not(DupRows(out.rows, cols, keepLast)));
      Ok(Outcome(DropColumns(deduped, {SigColumn}), Report(out.rows, cols, timeCol, keepLast), Removed(out.rows, cols, keepLast)))
  }

  /** `dedupe_by_timestamp(df, time_col=..., ignore_cols=..., keep=...)` as written. */
  function DedupeByTimestamp(t: Table, timeCol: string, ignore: set<string>, parse: Value -> Option<int>,
                             keep: string, order: seq<nat>): (r: Result<Outcome, DedupeError>)
    requires WellFormed(t) && SortsInput(t, timeCol, parse, keep == "first", order)
    ensures r.Err? <==> timeCol !in t.columns
  {
    Dedupe(t, timeCol, ignore, parse, keep == "first", keep == "last", order)
  }

  /**
   * The evidently intended `dedupe_by_timestamp`: sort ascending for
   * keep="first" and descending otherwise, then keep the first row of each
   * group, that is the earliest or the latest timestamp.
   */
  function DedupeIntended(t: Table, timeCol: string, ignore: set<string>, parse: Value -> Option<int>,
                          keep: string, order: seq<nat>): (r: Result<Outcome, DedupeError>)
    requires WellFormed(t) && SortsInput(t, timeCol, parse, keep == "first", order)
    ensures r.Err? <==> timeCol !in t.columns
  {
    Dedupe(t, timeCol, ignore, parse, keep == "first", false, order)
  }

  /** Without a "_sig" column of its own the input's deduplicated rows are the kept rows, columns unchanged. */
  lemma DedupeStages(t: Table, timeCol: string, ignore: set<string>, parse: Value -> Option<int>,
                     asc: bool, keepLast: bool, order: seq<nat>)
    requires WellFormed(t) && timeCol in t.columns && SigColumn !in t.columns
    requires SortsInput(t, timeCol, parse, asc, order)
    ensures var o := Dedupe(t, timeCol, ignore, parse, asc, keepLast, order).value;
      var out := SortedCopy(t, timeCol, parse, asc, order);
      var cols := CompareColumns(t.columns, timeCol, ignore);
      && o.deduped == Table(t.columns, Kept(out.rows, cols, keepLast))
      && o.removed == Removed(out.rows, cols, keepLast)
      && o.report == Report(out.rows, cols, timeCol, keepLast)
  {
    var out := SortedCopy(t, timeCol, parse, asc, order);
    var cols := CompareColumns(t.columns, timeCol, ignore);
    DropNothing(SelectRows(out, Not(DupRows(out.rows, cols, keepLast))), {SigColumn});
  }

  /** The deduplicated and the removed rows together are the input rows (coerced), each exactly once. */
  lemma DedupePartition(t: Table, timeCol: string, ignore: set<string>, parse: Value -> Option<int>,
                        asc: bool, keepLast: bool, order: seq<nat>)
    requires WellFormed(t) && timeCol in t.columns && SigColumn !in t.columns
    requires SortsInput(t, timeCol, parse, asc, order)
    ensures var o := Dedupe(t, timeCol, ignore, parse, asc, keepLast, order).value;
      multiset(o.deduped.rows + o.removed) == multiset(Coerce(t, timeCol, parse).rows)
  {
    DedupeStages(t, timeCol, ignore, parse, asc, keepLast, order);
    var out := SortedCopy(t, timeCol, parse, asc, order);
    KeptRemovedPartition(out.rows, CompareColumns(t.columns, timeCol, ignore), keepLast);
    ReorderPermutes(Coerce(t, timeCol, parse), order);
  }

  /** No two deduplicated rows agree on the comparison columns. */
  lemma DedupeDistinct(t: Table, timeCol: string, ignore: set<string>, parse: Value -> Option<int>,
                       asc: bool, keepLast: bool, order: seq<nat>)
    requires WellFormed(t) && timeCol in t.columns && SigColumn !in t.columns
    requires SortsInput(t, timeCol, parse, asc, order)
    ensures var o := Dedupe(t, timeCol, ignore, parse, asc, keepLast, order).value;
      var cols := CompareColumns(t.columns, timeCol, ignore);
      forall a, b :: 0 <= a < b < |o.deduped.rows| ==> Proj(o.deduped.rows[a], cols) != Proj(o.deduped.rows[b], cols)
  {
    DedupeStages(t, timeCol, ignore, parse, asc, keepLast, order);
    KeptDistinctKeys(SortedCopy(t, timeCol, parse, asc, order).rows, CompareColumns(t.columns, timeCol, ignore), keepLast);
  }

  /** Every removed row agrees on the comparison columns with a deduplicated row. */
  lemma DedupeRemovedCovered(t: Table, timeCol: string, ignore: set<string>, parse: Value -> Option<int>,
                             asc: bool, keepLast: bool, order: seq<nat>, r: nat)
    requires WellFormed(t) && timeCol in t.columns && SigColumn !in t.columns
    requires SortsInput(t, timeCol, parse, asc, order)
    requires r < |Dedupe(t, timeCol, ignore, parse, asc, keepLast, order).value.removed|
    ensures var o := Dedupe(t, timeCol, ignore, parse, asc, keepLast, order).value;
      var cols := CompareColumns(t.columns, timeCol, ignore);
      exists a :: 0 <= a < |o.deduped.rows| && Proj(o.deduped.rows[a], cols) == Proj(o.removed[r], cols)
  {
    DedupeStages(t, timeCol, ignore, parse, asc, keepLast, order);
    RemovedHaveSurvivor(SortedCopy(t, timeCol, parse, asc, order).rows, CompareColumns(t.columns, timeCol, ignore), keepLast, r);
  }

  /** The deduplicated rows stay in sort order. */
  lemma DedupeSorted(t: Table, timeCol: string, ignore: set<string>, parse: Value -> Option<int>,
                     asc: bool, keepLast: bool, order: seq<nat>)
    requires WellFormed(t) && timeCol in t.columns && SigColumn !in t.columns
    requires SortsInput(t, timeCol, parse, asc, order)
    ensures SortedBy(Times(Dedupe(t, timeCol, ignore, parse, asc, keepLast, order).value.deduped.rows, timeCol), asc)
  {
    DedupeStages(t, timeCol, ignore, parse, asc, keepLast, order);
    ReorderSorted(Coerce(t, timeCol, parse), timeCol, asc, order);
    KeptSorted(SortedCopy(t, timeCol, parse, asc, order).rows, CompareColumns(t.columns, timeCol, ignore), keepLast, timeCol, asc);
  }

  /**
   * The survivor against any input row of its group: with keepLast the input
   * row's timestamp precedes the survivor's in the sort direction, otherwise
   * the survivor's precedes the input row's.
   */
  lemma DedupeSurvivor(t: Table, timeCol: string, ignore: set<string>, parse: Value -> Option<int>,
                       asc: bool, keepLast: bool, order: seq<nat>, a: nat, x: nat)
    requires WellFormed(t) && timeCol in t.columns && SigColumn !in t.columns
    requires SortsInput(t, timeCol, parse, asc, order)
    requires a < |Dedupe(t, timeCol, ignore, parse, asc, keepLast, order).value.deduped.rows| && x < |t.rows|
    requires Proj(Coerce(t, timeCol, parse).rows[x], CompareColumns(t.columns, timeCol, ignore))
          == Proj(Dedupe(t, timeCol, ignore, parse, asc, keepLast, order).value.deduped.rows[a], CompareColumns(t.columns, timeCol, ignore))
    ensures var kt := Times(Dedupe(t, timeCol, ignore, parse, asc, keepLast, order).value.deduped.rows, timeCol)[a];
      var xt := parse(t.rows[x][timeCol]);
      if keepLast then Precedes(asc, xt, kt) else Precedes(asc, kt, xt)
  {
    DedupeStages(t, timeCol, ignore, parse, asc, keepLast, order);
    var c := Coerce(t, timeCol, parse);
    var out := SortedCopy(t, timeCol, parse, asc, order);
    var cols := CompareColumns(t.columns, timeCol, ignore);
    ReorderSorted(c, timeCol, asc, order);
    var p := Positions(Not(DupRows(out.rows, cols, keepLast)));
    assert Kept(out.rows, cols, keepLast)[a] == out.rows[p[a]];
    assert x in multiset(order) by {
      assert Range(|t.rows|)[x] == x;
    }
    var j :| 0 <= j < |order| && order[j] == x;
    assert out.rows[j] == c.rows[x];
    CoerceRow(t, timeCol, parse, x);
    SurvivorTime(out.rows, cols, keepLast, timeCol, asc, p[a], j);
  }

  /** keep="first": the survivor has the earliest timestamp of its group, NaT only when the whole group is NaT. */
  lemma KeepFirstEarliest(t: Table, timeCol: string, ignore: set<string>, parse: Value -> Option<int>, order: seq<nat>, a: nat, x: nat)
    requires WellFormed(t) && timeCol in t.columns && SigColumn !in t.columns
    requires SortsInput(t, timeCol, parse, true, order)
    requires a < |DedupeByTimestamp(t, timeCol, ignore, parse, "first", order).value.deduped.rows| && x < |t.rows|
    requires Proj(Coerce(t, timeCol, parse).rows[x], CompareColumns(t.columns, timeCol, ignore))
          == Proj(DedupeByTimestamp(t, timeCol, ignore, parse, "first", order).value.deduped.rows[a], CompareColumns(t.columns, timeCol, ignore))
    ensures var kt := Times(DedupeByTimestamp(t, timeCol, ignore, parse, "first", order).value.deduped.rows, timeCol)[a];
      var xt := parse(t.rows[x][timeCol]);
      xt.Some? ==> kt.Some? && kt.value <= xt.value
  {
    DedupeSurvivor(t, timeCol, ignore, parse, true, false, order, a, x);
  }

  /**
   * keep="last" as written: the descending sort followed by keep="last" leaves
   * the earliest timestamp of the group, or a NaT row when the group has one.
   */
  lemma KeepLastKeepsEarliest(t: Table, timeCol: string, ignore: set<string>, parse: Value -> Option<int>, order: seq<nat>, a: nat, x: nat)
    requires WellFormed(t) && timeCol in t.columns && SigColumn !in t.columns
    requires SortsInput(t, timeCol, parse, false, order)
    requires a < |DedupeByTimestamp(t, timeCol, ignore, parse, "last", order).value.deduped.rows| && x < |t.rows|
    requires Proj(Coerce(t, timeCol, parse).rows[x], CompareColumns(t.columns, timeCol, ignore))
          == Proj(DedupeByTimestamp(t, timeCol, ignore, parse, "last", order).value.deduped.rows[a], CompareColumns(t.columns, timeCol, ignore))
    ensures var kt := Times(DedupeByTimestamp(t, timeCol, ignore, parse, "last", order).value.deduped.rows, timeCol)[a];
      var xt := parse(t.rows[x][timeCol]);
      kt.Some? ==> xt.Some? && kt.value <= xt.value
  {
    DedupeSurvivor(t, timeCol, ignore, parse, false, true, order, a, x);
  }

  /** keep="last" as intended: the survivor has the latest timestamp of its group, NaT only when the whole group is NaT. */
  lemma KeepLastIntendedLatest(t: Table, timeCol: string, ignore: set<string>, parse: Value -> Option<int>, order: seq<nat>, a: nat, x: nat)
    requires WellFormed(t) && timeCol in t.columns && SigColumn !in t.columns
    requires SortsInput(t, timeCol, parse, false, order)
    requires a < |DedupeIntended(t, timeCol, ignore, parse, "last", order).value.deduped.rows| && x < |t.rows|
    requires Proj(Coerce(t, timeCol, parse).rows[x], CompareColumns(t.columns, timeCol, ignore))
          == Proj(DedupeIntended(t, timeCol, ignore, parse, "last", order).value.deduped.rows[a], CompareColumns(t.columns, timeCol, ignore))
    ensures var kt := Times(DedupeIntended(t, timeCol, ignore, parse, "last", order).value.deduped.rows, timeCol)[a];
      var xt := parse(t.rows[x][timeCol]);
      xt.Some? ==> kt.Some? && xt.value <= kt.value
  {
    DedupeSurvivor(t, timeCol, ignore, parse, false, false, order, a, x);
  }

  // ---------------------------------------------------------------------------
  // Running the deduplication again
  // ---------------------------------------------------------------------------

  /** A permutation of 0..n-1 lists no position twice. */
  lemma PermutationInjective(order: seq<nat>, n: nat)
    requires multiset(order) == multiset(Range(n))
    ensures forall a, b :: 0 <= a < b < |order| ==> order[a] != order[b]
  {
    forall a, b | 0 <= a < b < |order| ensures order[a] != order[b] {
      if order[a] == order[b] {
        var v := order[a];
        assert order == order[..b] + [v] + order[b + 1..];
        assert v in order[..b] by { assert order[..b][a] == v; }
        assert multiset(order)[v] >= 2;
        RangeCount(n, v);
        assert false;
      }
    }
  }

  lemma {:induction false} RangeCount(n: nat, v: nat)
    ensures multiset(Range(n))[v] <= 1
  {
    if n > 0 {
      assert Range(n) == Range(n - 1) + [n - 1];
      RangeCount(n - 1, v);
      if v == n - 1 {
        assert v !in Range(n - 1);
      }
    }
  }

  /** A time cell after coercion: an instant or NaT. */
  predicate TimeOrNull(v: Value) {
    v.Time? || v.Null?
  }

  /** Every row of the result holds a coerced timestamp. */
  lemma DedupeRowsCoerced(t: Table, timeCol: string, ignore: set<string>, parse: Value -> Option<int>,
                          asc: bool, keepLast: bool, order: seq<nat>, k: nat)
    requires WellFormed(t) && timeCol in t.columns && SigColumn !in t.columns
    requires SortsInput(t, timeCol, parse, asc, order)
    requires k < |Dedupe(t, timeCol, ignore, parse, asc, keepLast, order).value.deduped.rows|
    ensures var row := Dedupe(t, timeCol, ignore, parse, asc, keepLast, order).value.deduped.rows[k];
      timeCol in row && TimeOrNull(row[timeCol])
  {
    var o := Dedupe(t, timeCol, ignore, parse, asc, keepLast, order).value;
    var row := o.deduped.rows[k];
    var c := Coerce(t, timeCol, parse);
    DedupePartition(t, timeCol, ignore, parse, asc, keepLast, order);
    assert row in multiset(o.deduped.rows + o.removed) by {
      assert (o.deduped.rows + o.removed)[k] == row;
    }
    assert row in multiset(c.rows);
    var x :| 0 <= x < |c.rows| && c.rows[x] == row;
    CoerceRow(t, timeCol, parse, x);
  }

  /**
   * Deduplicating a result again, with a conversion that leaves instants and
   * NaT as they are, removes nothing and keeps every row.
   */
  lemma DedupeIdempotent(t: Table, timeCol: string, ignore: set<string>, parse: Value -> Option<int>,
                         asc: bool, keepLast: bool, order: seq<nat>, order2: seq<nat>)
    requires WellFormed(t) && timeCol in t.columns && SigColumn !in t.columns
    requires SortsInput(t, timeCol, parse, asc, order)
    requires parse(Null) == None && forall x :: parse(Time(x)) == Some(x)
    requires var t2 := Dedupe(t, timeCol, ignore, parse, asc, keepLast, order).value.deduped;
      WellFormed(t2) && SortsInput(t2, timeCol, parse, asc, order2)
    ensures var t2 := Dedupe(t, timeCol, ignore, parse, asc, keepLast, order).value.deduped;
      var o2 := Dedupe(t2, timeCol, ignore, parse, asc, keepLast, order2).value;
      o2.removed == [] && multiset(o2.deduped.rows) == multiset(t2.rows)
  {
    var o := Dedupe(t, timeCol, ignore, parse, asc, keepLast, order).value;
    var t2 := o.deduped;
    DedupeStages(t, timeCol, ignore, parse, asc, keepLast, order);
    assert t2.columns == t.columns;
    var cols := CompareColumns(t.columns, timeCol, ignore);
    // the second coercion changes nothing
    var c2 := Coerce(t2, timeCol, parse);
    forall k | 0 <= k < |t2.rows| ensures c2.rows[k] == t2.rows[k] {
      DedupeRowsCoerced(t, timeCol, ignore, parse, asc, keepLast, order, k);
      CoerceRow(t2, timeCol, parse, k);
    }
    assert c2 == t2;
    // the second sort only permutes rows with pairwise different keys
    DedupeStages(t2, timeCol, ignore, parse, asc, keepLast, order2);
    var out2 := SortedCopy(t2, timeCol, parse, asc, order2);
    DedupeDistinct(t, timeCol, ignore, parse, asc, keepLast, order);
    PermutationInjective(order2, |t2.rows|);
    var keys := Keys(out2.rows, cols);
    forall a, b | 0 <= a < b < |keys| ensures keys[a] != keys[b] {
      assert out2.rows[a] == t2.rows[order2[a]] && out2.rows[b] == t2.rows[order2[b]];
      if order2[a] > order2[b] {
        assert Proj(t2.rows[order2[b]], cols) != Proj(t2.rows[order2[a]], cols);
      }
    }
    NoneDuplicated(keys, keepLast);
    DedupePartition(t2, timeCol, ignore, parse, asc, keepLast, order2);
  }

  // ---------------------------------------------------------------------------
  // What the report says
  // ---------------------------------------------------------------------------

  /** The report has one row per kept signature: no signature comes twice... */
  lemma ReportSignaturesDistinct(rows: seq<Row>, cols: seq<string>, keepLast: bool)
    ensures var bySig := KeptBySig(Kept(rows, cols, keepLast), cols, keepLast);
      forall a, b :: 0 <= a < b < |bySig| ==> Sig(bySig[a], cols) != Sig(bySig[b], cols)
  {
    var kept := Kept(rows, cols, keepLast);
    var bySig := KeptBySig(kept, cols, keepLast);
    var sigs := Sigs(kept, cols);
    var p := Positions(Not(DupMask(sigs, keepLast)));
    forall a, b | 0 <= a < b < |bySig| ensures Sig(bySig[a], cols) != Sig(bySig[b], cols) {
      assert bySig[a] == kept[p[a]] && bySig[b] == kept[p[b]];
      KeptDistinct(sigs, keepLast, p[a], p[b]);
    }
  }

  /** ...and every kept row's signature has one. */
  lemma KeptSignatureReported(rows: seq<Row>, cols: seq<string>, keepLast: bool, k: nat)
    requires k < |Kept(rows, cols, keepLast)|
    ensures var bySig := KeptBySig(Kept(rows, cols, keepLast), cols, keepLast);
      exists i :: 0 <= i < |bySig| && Sig(bySig[i], cols) == Sig(Kept(rows, cols, keepLast)[k], cols)
  {
    var kept := Kept(rows, cols, keepLast);
    var bySig := KeptBySig(kept, cols, keepLast);
    var sigs := Sigs(kept, cols);
    var p := Positions(Not(DupMask(sigs, keepLast)));
    SurvivorExists(sigs, keepLast, k);
    var j :| 0 <= j < |sigs| && !DupMask(sigs, keepLast)[j] && sigs[j] == sigs[k] && (if keepLast then k <= j else j <= k);
    PositionsComplete(Not(DupMask(sigs, keepLast)), j);
    var i :| 0 <= i < |p| && p[i] == j;
    assert bySig[i] == kept[j];
  }

  /** Every removed row's signature has a report row. */
  lemma RemovedSignatureReported(rows: seq<Row>, cols: seq<string>, keepLast: bool, r: nat)
    requires r < |Removed(rows, cols, keepLast)|
    ensures var bySig := KeptBySig(Kept(rows, cols, keepLast), cols, keepLast);
      exists i :: 0 <= i < |bySig| && Sig(bySig[i], cols) == Sig(Removed(rows, cols, keepLast)[r], cols)
  {
    var kept := Kept(rows, cols, keepLast);
    RemovedHaveSurvivor(rows, cols, keepLast, r);
    var a :| 0 <= a < |kept| && Proj(kept[a], cols) == Proj(Removed(rows, cols, keepLast)[r], cols);
    KeptSignatureReported(rows, cols, keepLast, a);
  }

  /** The count of the selected timestamps is 0 exactly when none of them is an instant, and so are the extremes NaT. */
  lemma SelectCountMeaning(ts: seq<Option<int>>, m: seq<bool>)
    requires |m| == |ts|
    ensures var g := Select(ts, m);
      && (CountSome(g) == 0 <==> forall r :: 0 <= r < |ts| && m[r] ==> ts[r].None?)
      && (MinOf(g).None? <==> CountSome(g) == 0)
      && (MaxOf(g).None? <==> CountSome(g) == 0)
  {
    var g := Select(ts, m);
    var p := Positions(m);
    if CountSome(g) != 0 {
      var j :| 0 <= j < |g| && g[j].Some?;
      assert m[p[j]] && ts[p[j]] == g[j];
    } else {
      forall r | 0 <= r < |ts| && m[r] ensures ts[r].None? {
        PositionsComplete(m, r);
        var j :| 0 <= j < |p| && p[j] == r;
        assert g[j] == ts[r];
      }
    }
  }

  /** The extremes of the selected timestamps are selected timestamps. */
  lemma SelectExtremesSelected(ts: seq<Option<int>>, m: seq<bool>)
    requires |m| == |ts|
    ensures var g := Select(ts, m);
      && (MinOf(g).Some? ==> exists r :: 0 <= r < |ts| && m[r] && ts[r] == MinOf(g))
      && (MaxOf(g).Some? ==> exists r :: 0 <= r < |ts| && m[r] && ts[r] == MaxOf(g))
  {
    var g := Select(ts, m);
    var p := Positions(m);
    if MinOf(g).Some? {
      var j :| 0 <= j < |g| && g[j] == MinOf(g);
      assert m[p[j]] && ts[p[j]] == g[j];
    }
    if MaxOf(g).Some? {
      var j :| 0 <= j < |g| && g[j] == MaxOf(g);
      assert m[p[j]] && ts[p[j]] == g[j];
    }
  }

  /** The extremes of the selected timestamps bound every selected instant. */
  lemma SelectExtremesBound(ts: seq<Option<int>>, m: seq<bool>)
    requires |m| == |ts|
    ensures var g := Select(ts, m);
      forall r :: 0 <= r < |ts| && m[r] && ts[r].Some? ==>
        MinOf(g).Some? && MaxOf(g).Some? && MinOf(g).value <= ts[r].value <= MaxOf(g).value
  {
    var g := Select(ts, m);
    var p := Positions(m);
    forall r | 0 <= r < |ts| && m[r] && ts[r].Some?
      ensures MinOf(g).Some? && MaxOf(g).Some? && MinOf(g).value <= ts[r].value <= MaxOf(g).value
    {
      PositionsComplete(m, r);
      var j :| 0 <= j < |p| && p[j] == r;
      assert g[j] == ts[r] && g[j].Some?;
    }
  }

  /**
   * A report row's count: `removed_rows` is 0 exactly when no removed row with
   * the signature has a timestamp, and exactly then are the minimum and the
   * maximum NaT.
   */
  lemma ReportCountMeaning(removed: seq<Row>, cols: seq<string>, timeCol: string, s: string, keptTs: Option<int>)
    ensures var rr := ReportFor(removed, cols, timeCol, s, keptTs); var ts := Times(removed, timeCol);
      && rr.keptTs == keptTs
      && (rr.removedRows == 0 <==> forall r :: 0 <= r < |removed| && Sig(removed[r], cols) == s ==> ts[r].None?)
      && (rr.removedMinTs.None? <==> rr.removedRows == 0)
      && (rr.removedMaxTs.None? <==> rr.removedRows == 0)
  {
    SelectCountMeaning(Times(removed, timeCol), SigMask(removed, cols, s));
  }

  /**
   * A report row's extremes: the minimum and the maximum are timestamps of
   * removed rows with the signature, and they bound every such timestamp.
   */
  lemma ReportExtremesMeaning(removed: seq<Row>, cols: seq<string>, timeCol: string, s: string, keptTs: Option<int>)
    ensures var rr := ReportFor(removed, cols, timeCol, s, keptTs); var ts := Times(removed, timeCol);
      && (rr.removedMinTs.Some? ==> exists r :: 0 <= r < |removed| && Sig(removed[r], cols) == s && ts[r] == rr.removedMinTs)
      && (rr.removedMaxTs.Some? ==> exists r :: 0 <= r < |removed| && Sig(removed[r], cols) == s && ts[r] == rr.removedMaxTs)
      && (forall r :: 0 <= r < |removed| && Sig(removed[r], cols) == s && ts[r].Some? ==>
            rr.removedMinTs.Some? && rr.removedMaxTs.Some? && rr.removedMinTs.value <= ts[r].value <= rr.removedMaxTs.value)
  {
    SelectExtremesSelected(Times(removed, timeCol), SigMask(removed, cols, s));
    SelectExtremesBound(Times(removed, timeCol), SigMask(removed, cols, s));
  }

  /** Report row i describes the i-th kept signature: its kept timestamp and the aggregates of the removed rows with that signature. */
  lemma ReportRowOf(rows: seq<Row>, cols: seq<string>, timeCol: string, keepLast: bool, i: nat)
    requires i < |Report(rows, cols, timeCol, keepLast)|
    ensures var bySig := KeptBySig(Kept(rows, cols, keepLast), cols, keepLast);
      Report(rows, cols, timeCol, keepLast)[i] == ReportFor(Removed(rows, cols, keepLast), cols, timeCol, Sig(bySig[i], cols), Times(bySig, timeCol)[i])
  {
  }

  // ---------------------------------------------------------------------------
  // keep="last": an input on which the docstring and the code part ways
  // ---------------------------------------------------------------------------

  /** Two submissions with the same content, stamped "day 1" and "day 2". */
  function TwoSubmissions(): Table {
    Table(["Timestamp", "A"], [
      map["Timestamp" := Text("day 1"), "A" := Text("X")],
      map["Timestamp" := Text("day 2"), "A" := Text("X")]])
  }

  /** Parses "day 1" and "day 2" to the instants 1 and 2, anything else to NaT. */
  function DayParse(v: Value): Option<int> {
    if v == Text("day 1") then Some(1) else if v == Text("day 2") then Some(2) else None
  }

  lemma TwoSubmissionsWellFormed()
    ensures WellFormed(TwoSubmissions())
  {
    var t := TwoSubmissions();
    assert IndexOf(t.columns, "Timestamp") == 0 && IndexOf(t.columns, "A") == 1;
  }

  /** A submission after coercion: content "X" at instant d. */
  function Stamped(d: int): Row {
    map["Timestamp" := Time(d), "A" := Text("X")]
  }

  lemma TwoSubmissionsCoerced()
    ensures WellFormed(TwoSubmissions())
    ensures Coerce(TwoSubmissions(), "Timestamp", DayParse).rows == [Stamped(1), Stamped(2)]
  {
    TwoSubmissionsWellFormed();
    var t := TwoSubmissions();
    CoerceRow(t, "Timestamp", DayParse, 0);
    CoerceRow(t, "Timestamp", DayParse, 1);
    assert t.rows[0]["Timestamp" := Time(1)] == Stamped(1);
    assert t.rows[1]["Timestamp" := Time(2)] == Stamped(2);
  }

  lemma StampedFacts(rows: seq<Row>)
    requires rows == [Stamped(2), Stamped(1)]
    ensures Keys(rows, ["A"]) == [[Text("X")], [Text("X")]]
    ensures Times(rows, "Timestamp") == [Some(2), Some(1)]
  {
    assert Proj(Stamped(2), ["A"]) == [Text("X")];
    assert Proj(Stamped(1), ["A"]) == [Text("X")];
  }

  lemma CompareColumnsExample()
    ensures CompareColumns(["Timestamp", "A"], "Timestamp", {}) == ["A"]
  {
    var names: set<string> := {"Timestamp"} + {};
    assert "Timestamp" in names && "A" !in names;
    assert ["Timestamp", "A"][..1] == ["Timestamp"];
    assert ["Timestamp"][..0] == [];
    assert Without(["Timestamp"], names) == [];
  }

  /** The descending sort puts "day 2" first, and the comparison column is "A". */
  lemma TwoSubmissionsSorted()
    ensures WellFormed(TwoSubmissions())
    ensures SortsInput(TwoSubmissions(), "Timestamp", DayParse, false, [1, 0])
    ensures CompareColumns(TwoSubmissions().columns, "Timestamp", {}) == ["A"]
    ensures SortedCopy(TwoSubmissions(), "Timestamp", DayParse, false, [1, 0]).rows == [Stamped(2), Stamped(1)]
  {
    TwoSubmissionsCoerced();
    CompareColumnsExample();
    var t := TwoSubmissions();
    var c := Coerce(t, "Timestamp", DayParse);
    assert Times(c.rows, "Timestamp") == [Some(1), Some(2)];
    assert SortsInput(t, "Timestamp", DayParse, false, [1, 0]) by {
      assert Range(2) == [0, 1];
      assert multiset([1, 0]) == multiset([0, 1]);
    }
  }

  /** Two equal keys: keep="last" marks the first as the duplicate, keep="first" the second. */
  lemma TwoEqualKeys<K>(keys: seq<K>)
    requires |keys| == 2 && keys[0] == keys[1]
    ensures DupMask(keys, true) == [true, false] && DupMask(keys, false) == [false, true]
  {
    assert DupAt(keys, 0, true) && DupAt(keys, 1, false);
  }

  /** The positions of [false, true] and of [true, false]. */
  lemma PositionsOfTwo()
    ensures Positions([false, true]) == [1] && Positions([true, false]) == [0]
  {
    assert [false, true][..1] == [false];
    assert [true, false][..1] == [true];
  }

  /** keep="last" keeps the second of the sorted pair, keep="first" the first. */
  lemma StampedKept(rows: seq<Row>)
    requires rows == [Stamped(2), Stamped(1)]
    ensures Kept(rows, ["A"], true) == [Stamped(1)] && Kept(rows, ["A"], false) == [Stamped(2)]
  {
    StampedFacts(rows);
    TwoEqualKeys(Keys(rows, ["A"]));
    PositionsOfTwo();
    assert Not([true, false]) == [false, true] && Not([false, true]) == [true, false];
  }

  /**
   * With keep="last" the code keeps the "day 1" submission, the earliest; the
   * intended version keeps the "day 2" one, the latest.
   */
  lemma KeepLastCounterexample(t: Table, order: seq<nat>)
    requires t == TwoSubmissions() && order == [1, 0]
    ensures WellFormed(t) && SortsInput(t, "Timestamp", DayParse, false, order)
    ensures Times(DedupeByTimestamp(t, "Timestamp", {}, DayParse, "last", order).value.deduped.rows, "Timestamp") == [Some(1)]
    ensures Times(DedupeIntended(t, "Timestamp", {}, DayParse, "last", order).value.deduped.rows, "Timestamp") == [Some(2)]
  {
    TwoSubmissionsSorted();
    var out := SortedCopy(t, "Timestamp", DayParse, false, order);
    StampedKept(out.rows);
    assert Times([Stamped(1)], "Timestamp") == [Some(1)] && Times([Stamped(2)], "Timestamp") == [Some(2)];
    assert Times(DedupeByTimestamp(t, "Timestamp", {}, DayParse, "last", order).value.deduped.rows, "Timestamp") == [Some(1)] by {
      DedupeStages(t, "Timestamp", {}, DayParse, false, true, order);
    }
    assert Times(DedupeIntended(t, "Timestamp", {}, DayParse, "last", order).value.deduped.rows, "Timestamp") == [Some(2)] by {
      DedupeStages(t, "Timestamp", {}, DayParse, false, false, order);
    }
  }
}
