/**
 * The record model shared by the three table transformations: a cell value,
 * a row (column name to value), a table (ordered column names and rows), the
 * string rendering of a cell, Python's whitespace and `str.strip`, and the
 * whole-table pandas operations the transformations are built from.
 */
module Records {

  /** A cell: a missing value (NaN, NaT, pd.NA), a string, an integer or a timestamp. */
  datatype Value = Null | Text(s: string) | Int(i: int) | Time(t: int)

  type Row = map<string, Value>

  /** A data frame: column labels in order, and rows keyed by those labels. */
  datatype Table = Table(columns: seq<string>, rows: seq<Row>)

  /** No label occurs twice: each label stands at its first occurrence. */
  predicate Distinct(s: seq<string>) {
    forall i {:trigger IndexOf(s, s[i])} :: 0 <= i < |s| ==> IndexOf(s, s[i]) == i
  }

  /** Distinct labels, stated pairwise. */
  lemma DistinctIff(s: seq<string>)
    ensures Distinct(s) <==> forall i, j :: 0 <= i < j < |s| ==> s[i] != s[j]
  {
    if Distinct(s) {
      forall i, j | 0 <= i < j < |s| ensures s[i] != s[j] {
        assert IndexOf(s, s[j]) == j;
      }
    }
    if forall i, j :: 0 <= i < j < |s| ==> s[i] != s[j] {
      forall i | 0 <= i < |s| ensures IndexOf(s, s[i]) == i {
        var k := IndexOf(s, s[i]);
        IndexOfFirst(s, s[i]);
        assert k <= i;
      }
    }
  }

  function ColumnSet(cols: seq<string>): set<string> {
    set c | c in cols
  }

  /** Every pandas frame: unique column labels, and every row has exactly those columns. */
  ghost predicate WellFormed(t: Table) {
    && Distinct(t.columns)
    && forall k, c {:trigger c in t.rows[k]} :: 0 <= k < |t.rows| ==> (c in t.rows[k] <==> c in t.columns)
  }

  // ---------------------------------------------------------------------------
  // Strings: Python's whitespace, str.strip, str() of a cell
  // ---------------------------------------------------------------------------

  /** The characters for which Python's `str.isspace` holds (also what `\s` and `strip()` use). */
  predicate IsSpace(c: char) {
    var n := c as int;
    || 9 <= n <= 13
    || 28 <= n <= 32
    || n == 0x85 || n == 0xA0 || n == 0x1680
    || 0x2000 <= n <= 0x200A
    || n == 0x2028 || n == 0x2029 || n == 0x202F || n == 0x205F || n == 0x3000
  }

  predicate AllSpace(s: string) {
    forall k :: 0 <= k < |s| ==> IsSpace(s[k])
  }

  function TrimLeft(s: string): (r: string)
    ensures |r| <= |s|
    ensures r == [] || !IsSpace(r[0])
  {
    if s != [] && IsSpace(s[0]) then TrimLeft(s[1..]) else s
  }

  /** TrimLeft keeps a suffix of its argument. */
  lemma {:induction false} TrimLeftSuffix(s: string)
    ensures TrimLeft(s) == s[|s| - |TrimLeft(s)|..]
  {
    if s != [] && IsSpace(s[0]) {
      TrimLeftSuffix(s[1..]);
      assert s[1..][|s| - 1 - |TrimLeft(s)|..] == s[|s| - |TrimLeft(s)|..];
    }
  }

  /** What TrimLeft removes is whitespace. */
  lemma {:induction false} TrimLeftSpaces(s: string)
    ensures AllSpace(s[..|s| - |TrimLeft(s)|])
  {
    if s != [] && IsSpace(s[0]) {
      TrimLeftSpaces(s[1..]);
      TrimLeftSuffix(s[1..]);
      var n := |s| - |TrimLeft(s)|;
      forall k | 0 <= k < n ensures IsSpace(s[..n][k]) {
        if k > 0 {
          assert s[..n][k] == s[1..][..n - 1][k - 1];
        }
      }
    }
  }

  function TrimRight(s: string): (r: string)
    ensures |r| <= |s|
    ensures r == [] || !IsSpace(r[|r| - 1])
  {
    if s != [] && IsSpace(s[|s| - 1]) then TrimRight(s[..|s| - 1]) else s
  }

  /** TrimRight keeps a prefix of its argument. */
  lemma {:induction false} TrimRightPrefix(s: string)
    ensures TrimRight(s) == s[..|TrimRight(s)|]
  {
    if s != [] && IsSpace(s[|s| - 1]) {
      TrimRightPrefix(s[..|s| - 1]);
      assert s[..|s| - 1][..|TrimRight(s)|] == s[..|TrimRight(s)|];
    }
  }

  /** What TrimRight removes is whitespace. */
  lemma {:induction false} TrimRightSpaces(s: string)
    ensures AllSpace(s[|TrimRight(s)|..])
  {
    if s != [] && IsSpace(s[|s| - 1]) {
      var init := s[..|s| - 1];
      TrimRightSpaces(init);
      TrimRightPrefix(init);
      var n := |TrimRight(s)|;
      forall k | 0 <= k < |s| - n ensures IsSpace(s[n..][k]) {
        if k < |s| - 1 - n {
          assert s[n..][k] == init[n..][k];
        }
      }
    }
  }

  /** Python's `s.strip()`: drop leading and trailing whitespace. */
  function Strip(s: string): (r: string)
    ensures |r| <= |s|
    ensures r == [] || (!IsSpace(r[0]) && !IsSpace(r[|r| - 1]))
  {
    var l := TrimLeft(s);
    TrimRightPrefix(l);
    TrimRight(l)
  }

  /** `s.strip()` is empty exactly when s is all whitespace. */
  lemma StripEmpty(s: string)
    ensures Strip(s) == [] <==> AllSpace(s)
  {
    var l := TrimLeft(s);
    var n := |s| - |l|;
    TrimLeftSpaces(s);
    TrimLeftSuffix(s);
    if Strip(s) == [] && l != [] {
      TrimRightSpaces(l);
      TrimRightPrefix(l);
    }
  }

  /** A string without whitespace at either end is its own `strip()`. */
  lemma StripNoop(s: string)
    requires s == [] || (!IsSpace(s[0]) && !IsSpace(s[|s| - 1]))
    ensures Strip(s) == s
  {
    assert TrimLeft(s) == s;
  }

  function DigitChar(d: nat): (c: char)
    requires d < 10
    ensures '0' <= c <= '9'
  {
    "0123456789"[d]
  }

  /** The decimal digits of n, most significant first. */
  function Digits(n: nat): (r: string)
    ensures |r| >= 1
  {
    if n < 10 then [DigitChar(n)] else Digits(n / 10) + [DigitChar(n % 10)]
  }

  /** Python's `str(i)` of an integer. */
  function IntToString(i: int): (r: string)
    ensures |r| >= 1
  {
    if i < 0 then "-" + Digits(-i) else Digits(i)
  }

  /** Every character of Digits(n) is a decimal digit. */
  lemma {:induction false} DigitsAreDigits(n: nat)
    ensures forall k :: 0 <= k < |Digits(n)| ==> '0' <= Digits(n)[k] <= '9'
  {
    if n >= 10 {
      DigitsAreDigits(n / 10);
    }
  }

  /** `str(i)` is a minus sign and decimal digits. */
  lemma IntToStringChars(i: int)
    ensures forall k :: 0 <= k < |IntToString(i)| ==> IntToString(i)[k] == '-' || '0' <= IntToString(i)[k] <= '9'
  {
    DigitsAreDigits(if i < 0 then -i else i);
  }

  /** `str()` of a cell, as `astype(str)` renders it (a missing value renders as "nan"). */
  function Show(v: Value): string {
    match v
    case Null => "nan"
    case Text(s) => s
    case Int(i) => IntToString(i)
    case Time(t) => IntToString(t)
  }

  // ---------------------------------------------------------------------------
  // Sequences: order-preserving selection by a boolean mask
  // ---------------------------------------------------------------------------

  /** The positions where the mask holds, in ascending order. */
  function Positions(mask: seq<bool>): (p: seq<nat>)
    ensures forall j :: 0 <= j < |p| ==> p[j] < |mask| && mask[p[j]]
    ensures forall j, l :: 0 <= j < l < |p| ==> p[j] < p[l]
    ensures |p| <= |mask|
  {
    if mask == [] then []
    else
      var q := Positions(mask[..|mask| - 1]);
      if mask[|mask| - 1] then q + [|mask| - 1] else q
  }

  /** Every position where the mask holds is listed. */
  lemma {:induction false} PositionsComplete(mask: seq<bool>, k: nat)
    requires k < |mask| && mask[k]
    ensures k in Positions(mask)
  {
    var init := mask[..|mask| - 1];
    if k < |mask| - 1 {
      assert init[k] == mask[k];
      PositionsComplete(init, k);
    }
  }

  /** `s[mask]`: the elements at the positions where the mask holds, in order. */
  function Select<T>(s: seq<T>, mask: seq<bool>): (r: seq<T>)
    requires |mask| == |s|
    ensures |r| == |Positions(mask)|
    ensures forall j :: 0 <= j < |r| ==> r[j] == s[Positions(mask)[j]]
  {
    var p := Positions(mask);
    seq(|p|, j requires 0 <= j < |p| => s[p[j]])
  }

  function Count(mask: seq<bool>): nat {
    |Positions(mask)|
  }

  // ---------------------------------------------------------------------------
  // Whole-table pandas operations
  // ---------------------------------------------------------------------------

  /** `df[c]`: the column as a sequence of cells. */
  function Cells(t: Table, c: string): (vs: seq<Value>)
    requires WellFormed(t) && c in t.columns
    ensures |vs| == |t.rows|
    ensures forall k :: 0 <= k < |vs| ==> vs[k] == t.rows[k][c]
  {
    seq(|t.rows|, k requires 0 <= k < |t.rows| => assert c in t.rows[k]; t.rows[k][c])
  }

  /** `df[c] = vs`: overwrite column c in place, or append it as the last column. */
  function SetColumn(t: Table, c: string, vs: seq<Value>): (r: Table)
    requires WellFormed(t) && |vs| == |t.rows|
    ensures WellFormed(r)
    ensures r.columns == if c in t.columns then t.columns else t.columns + [c]
    ensures |r.rows| == |t.rows|
    ensures forall k :: 0 <= k < |r.rows| ==> r.rows[k] == t.rows[k][c := vs[k]]
  {
    var cols := if c in t.columns then t.columns else t.columns + [c];
    var r := Table(cols, seq(|t.rows|, k requires 0 <= k < |t.rows| => t.rows[k][c := vs[k]]));
    assert ColumnSet(cols) == ColumnSet(t.columns) + {c};
    DistinctIff(t.columns);
    DistinctIff(cols);
    r
  }

  /** `df[mask]`: the rows where the mask holds, same columns. */
  function SelectRows(t: Table, mask: seq<bool>): (r: Table)
    requires WellFormed(t) && |mask| == |t.rows|
    ensures WellFormed(r) && r.columns == t.columns
    ensures r.rows == Select(t.rows, mask)
  {
    Table(t.columns, Select(t.rows, mask))
  }

  /** The labels of `cols` that are not in `names`, in their order. */
  function Without(cols: seq<string>, names: set<string>): (r: seq<string>)
    ensures forall c {:trigger c in r} :: c in r <==> c in cols && c !in names
  {
    if cols == [] then []
    else
      var rest := Without(cols[..|cols| - 1], names);
      var c := cols[|cols| - 1];
      assert cols == cols[..|cols| - 1] + [c];
      if c in names then rest else rest + [c]
  }

  /** r lists some of the labels of `cols`, in the order they have there. */
  ghost predicate InOrder(r: seq<string>, cols: seq<string>) {
    exists idx: seq<nat> :: OrderedIndices(idx, r, cols)
  }

  /** idx increases, and position i of r is position idx[i] of cols. */
  predicate OrderedIndices(idx: seq<nat>, r: seq<string>, cols: seq<string>) {
    && |idx| == |r|
    && (forall i, j :: 0 <= i < j < |idx| ==> idx[i] < idx[j])
    && forall i :: 0 <= i < |idx| ==> idx[i] < |cols| && cols[idx[i]] == r[i]
  }

  /** Dropping labels keeps the others in their order. */
  lemma {:induction false} WithoutInOrder(cols: seq<string>, names: set<string>)
    ensures InOrder(Without(cols, names), cols)
  {
    if cols == [] {
      assert OrderedIndices([], Without(cols, names), cols);
    } else {
      var n := |cols| - 1;
      var init := cols[..n];
      WithoutInOrder(init, names);
      var rest := Without(init, names);
      var idx :| OrderedIndices(idx, rest, init);
      assert forall i :: 0 <= i < |idx| ==> cols[idx[i]] == init[idx[i]];
      if cols[n] in names {
        assert OrderedIndices(idx, Without(cols, names), cols);
      } else {
        assert OrderedIndices(idx + [n], Without(cols, names), cols);
      }
    }
  }

  /** Dropping labels keeps the rest distinct. */
  lemma {:induction false} WithoutDistinct(cols: seq<string>, names: set<string>)
    requires Distinct(cols)
    ensures Distinct(Without(cols, names))
  {
    if cols != [] {
      var init := cols[..|cols| - 1];
      var c := cols[|cols| - 1];
      DistinctIff(cols);
      assert cols == init + [c];
      DistinctIff(init);
      WithoutDistinct(init, names);
      var rest := Without(init, names);
      if c !in names {
        assert c !in rest;
        DistinctIff(rest);
        DistinctIff([c]);
        DistinctAppend(rest, [c]);
      }
    }
  }

  /** A row restricted or extended to `cols`, absent cells filled with a missing value. */
  function Reindex(r: Row, cols: seq<string>): (out: Row)
    ensures forall c {:trigger c in out} :: c in out <==> c in cols
    ensures forall c {:trigger out[c]} :: c in cols ==> out[c] == if c in r then r[c] else Null
  {
    map c | c in cols :: if c in r then r[c] else Null
  }

  /**
   * `pd.concat([t1, t2], ignore_index=True)`: the rows of t1 then the rows of
   * t2 under the union of the columns (t1's, then t2's new ones), absent cells
   * filled with a missing value.
   */
  function Concat(t1: Table, t2: Table): (r: Table)
    requires WellFormed(t1) && WellFormed(t2)
    ensures WellFormed(r)
    ensures r.columns == t1.columns + Without(t2.columns, ColumnSet(t1.columns))
    ensures |r.rows| == |t1.rows| + |t2.rows|
    ensures forall k :: 0 <= k < |t1.rows| ==> r.rows[k] == Reindex(t1.rows[k], r.columns)
    ensures forall k :: |t1.rows| <= k < |r.rows| ==> r.rows[k] == Reindex(t2.rows[k - |t1.rows|], r.columns)
  {
    var extra := Without(t2.columns, ColumnSet(t1.columns));
    var cols := t1.columns + extra;
    ConcatColumnsDistinct(t1.columns, t2.columns);
    var rows := t1.rows + t2.rows;
    var r := Table(cols, seq(|rows|, k requires 0 <= k < |rows| => Reindex(rows[k], cols)));
    assert forall k :: |t1.rows| <= k < |rows| ==> rows[k] == t2.rows[k - |t1.rows|];
    r
  }

  /** The columns of a concatenation are distinct. */
  lemma ConcatColumnsDistinct(a: seq<string>, b: seq<string>)
    requires Distinct(a) && Distinct(b)
    ensures Distinct(a + Without(b, ColumnSet(a)))
  {
    var extra := Without(b, ColumnSet(a));
    assert forall c :: c in extra ==> c !in a;
    WithoutDistinct(b, ColumnSet(a));
    DistinctAppend(a, extra);
  }

  lemma DistinctAppend(a: seq<string>, b: seq<string>)
    requires Distinct(a) && Distinct(b)
    requires forall c :: c in b ==> c !in a
    ensures Distinct(a + b)
  {
    DistinctIff(a);
    DistinctIff(b);
    DistinctIff(a + b);
    forall i, j | 0 <= i < j < |a + b| ensures (a + b)[i] != (a + b)[j] {
      if j < |a| {
        assert (a + b)[i] == a[i] && (a + b)[j] == a[j];
      } else if i < |a| {
        assert (a + b)[i] == a[i] && (a + b)[j] == b[j - |a|];
        assert b[j - |a|] in b;
      } else {
        assert (a + b)[i] == b[i - |a|] && (a + b)[j] == b[j - |a|];
      }
    }
  }

  /** `df.drop(columns=names, errors="ignore")`. */
  function DropColumns(t: Table, names: set<string>): (r: Table)
    requires WellFormed(t)
    ensures WellFormed(r)
    ensures r.columns == Without(t.columns, names)
    ensures |r.rows| == |t.rows|
  {
    var cols := Without(t.columns, names);
    WithoutDistinct(t.columns, names);
    Table(cols, seq(|t.rows|, k requires 0 <= k < |t.rows| => map c | c in cols :: t.rows[k][c]))
  }

  /** Dropping labels that do not occur leaves the labels as they are. */
  lemma {:induction false} WithoutNothing(cols: seq<string>, names: set<string>)
    requires forall c :: c in names ==> c !in cols
    ensures Without(cols, names) == cols
  {
    if cols != [] {
      var init := cols[..|cols| - 1];
      assert cols == init + [cols[|cols| - 1]];
      WithoutNothing(init, names);
    }
  }

  /** `drop(columns=names, errors="ignore")` of absent columns changes nothing. */
  lemma DropNothing(t: Table, names: set<string>)
    requires WellFormed(t) && forall c :: c in names ==> c !in t.columns
    ensures DropColumns(t, names) == t
  {
    WithoutNothing(t.columns, names);
    var r := DropColumns(t, names);
    forall k | 0 <= k < |t.rows| ensures r.rows[k] == t.rows[k] {
      assert forall c :: c in r.rows[k] <==> c in t.rows[k];
    }
  }

  /** Dropping columns leaves every kept cell as it was. */
  lemma DropCell(t: Table, names: set<string>, k: nat, c: string)
    requires WellFormed(t) && k < |t.rows| && c in t.columns && c !in names
    ensures var r := DropColumns(t, names); k < |r.rows| && c in r.columns && c in r.rows[k] && r.rows[k][c] == t.rows[k][c]
  {
  }

  /** The labels after `df.rename(columns=f)`. */
  function MapLabels(cols: seq<string>, f: string -> string): (r: seq<string>)
    ensures |r| == |cols|
    ensures forall i :: 0 <= i < |cols| ==> r[i] == f(cols[i])
  {
    seq(|cols|, i requires 0 <= i < |cols| => f(cols[i]))
  }

  /** The position of a label in a sequence of labels. */
  function IndexOf(cols: seq<string>, c: string): (i: nat)
    requires c in cols
    ensures i < |cols| && cols[i] == c
  {
    if cols[0] == c then 0 else 1 + IndexOf(cols[1..], c)
  }

  /** IndexOf finds the first occurrence. */
  lemma {:induction false} IndexOfFirst(cols: seq<string>, c: string)
    requires c in cols
    ensures forall j :: 0 <= j < IndexOf(cols, c) ==> cols[j] != c
  {
    if cols[0] != c {
      IndexOfFirst(cols[1..], c);
    }
  }

  /** `df.rename(columns=f)` when f sends no two labels to the same label. */
  function RenameColumns(t: Table, f: string -> string): (r: Table)
    requires WellFormed(t)
    requires Distinct(MapLabels(t.columns, f))
    ensures WellFormed(r)
    ensures r.columns == MapLabels(t.columns, f)
    ensures |r.rows| == |t.rows|
  {
    var cols := MapLabels(t.columns, f);
    Table(cols, seq(|t.rows|, k requires 0 <= k < |t.rows| =>
      map c | c in cols :: t.rows[k][t.columns[IndexOf(cols, c)]]))
  }

  /** A renamed column keeps its cells: the cell under f(c) is the old cell under c. */
  lemma RenameCell(t: Table, f: string -> string, k: nat, i: nat)
    requires WellFormed(t) && Distinct(MapLabels(t.columns, f))
    requires k < |t.rows| && i < |t.columns|
    ensures var r := RenameColumns(t, f);
      k < |r.rows| && f(t.columns[i]) in r.rows[k] && r.rows[k][f(t.columns[i])] == t.rows[k][t.columns[i]]
  {
    var cols := MapLabels(t.columns, f);
    assert IndexOf(cols, cols[i]) == i;
  }
}
