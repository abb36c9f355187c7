/**
 * Child-row splitting (src/estxl/add_child.py): a registration row that names
 * up to two children becomes one row per child. The "#1" columns become the
 * child-1 row's base columns, the "#2" columns overwrite the child-2 row's base
 * columns, the "#1"/"#2" columns are dropped, and a self-check confirms that
 * every second child made it into the output.
 */
module AddChild {
  import opened Wrappers
  import opened Records

  /** The column `normalize_children` adds to record each row's source position. */
  const SrcRowColumn: string := "_src_row"

  /** The default base columns (BASES) and the column that detects a child (KEY_BASE). */
  const DefaultBases: seq<string> := [
    "Имя и фамилия ребенка (SE)",
    "Имя и фамилия ребенка (RU)",
    "Дата рождения ребенка",
    "Аллергии и особенности ребенка"
  ]
  const DefaultKeyBase: string := "Имя и фамилия ребенка (SE)"

  /** The exception the self-check raises, with the failing source rows in ascending order. */
  datatype SelfCheckError = SelfCheckFailed(rows: seq<nat>)

  // ---------------------------------------------------------------------------
  // Header normalisation (`_norm`)
  // ---------------------------------------------------------------------------

  predicate HasNoYo(s: string) {
    forall k :: 0 <= k < |s| ==> s[k] != 'ё' && s[k] != 'Ё'
  }

  /** No two whitespace characters side by side. */
  predicate NoDoubleSpace(s: string) {
    forall k :: 0 <= k < |s| - 1 ==> !(IsSpace(s[k]) && IsSpace(s[k + 1]))
  }

  /** The only whitespace character left is the plain space. */
  predicate OnlyPlainSpace(s: string) {
    forall k :: 0 <= k < |s| ==> IsSpace(s[k]) ==> s[k] == ' '
  }

  /** `s.replace("ё", "е").replace("Ё", "Е")`. */
  function ReplaceYo(s: string): (r: string)
    ensures |r| == |s| && HasNoYo(r)
    ensures forall k :: 0 <= k < |s| ==> r[k] == (if s[k] == 'ё' then 'е' else if s[k] == 'Ё' then 'Е' else s[k])
    ensures forall k :: 0 <= k < |s| ==> (IsSpace(r[k]) <==> IsSpace(s[k]))
    ensures forall k :: 0 <= k < |s| && !IsSpace(s[k]) ==> !IsSpace(r[k])
  {
    seq(|s|, k requires 0 <= k < |s| => if s[k] == 'ё' then 'е' else if s[k] == 'Ё' then 'Е' else s[k])
  }

  /** `re.sub(r"\s+", " ", s)`: every maximal run of whitespace becomes one space. */
  function CollapseSpaces(s: string): (r: string)
    ensures NoDoubleSpace(r) && OnlyPlainSpace(r)
    ensures HasNoYo(s) ==> HasNoYo(r)
    ensures s != [] && !IsSpace(s[0]) ==> r != [] && r[0] == s[0]
    decreases |s|
  {
    if s == [] then []
    else if IsSpace(s[0]) then
      var rest := TrimLeft(s);
      assert rest == TrimLeft(s[1..]);
      assert HasNoYo(s) ==> HasNoYo(rest) by {
        if HasNoYo(s) {
          TrimLeftSuffix(s);
          forall k | 0 <= k < |rest| ensures rest[k] != 'ё' && rest[k] != 'Ё' {
            assert rest[k] == s[|s| - |rest| + k];
          }
        }
      }
      var tail := CollapseSpaces(rest);
      ConsKeepsClean(' ', tail, HasNoYo(s));
      [' '] + tail
    else
      var tail := CollapseSpaces(s[1..]);
      assert HasNoYo(s) ==> HasNoYo(s[1..]) by {
        if HasNoYo(s) {
          forall k | 0 <= k < |s| - 1 ensures s[1..][k] != 'ё' && s[1..][k] != 'Ё' {
            assert s[1..][k] == s[k + 1];
          }
        }
      }
      ConsKeepsClean(s[0], tail, HasNoYo(s));
      [s[0]] + tail
  }

  /** The characters of s other than whitespace, in order. */
  function NonSpace(s: string): (r: string)
    ensures |r| <= |s|
  {
    if s == [] then [] else (if IsSpace(s[0]) then [] else [s[0]]) + NonSpace(s[1..])
  }

  lemma {:induction false} NonSpaceAppend(a: string, b: string)
    ensures NonSpace(a + b) == NonSpace(a) + NonSpace(b)
  {
    if a == [] {
      assert a + b == b;
    } else {
      var h := if IsSpace(a[0]) then [] else [a[0]];
      assert (a + b)[0] == a[0] && (a + b)[1..] == a[1..] + b;
      assert NonSpace(a + b) == h + NonSpace(a[1..] + b);
      NonSpaceAppend(a[1..], b);
      assert h + (NonSpace(a[1..]) + NonSpace(b)) == (h + NonSpace(a[1..])) + NonSpace(b);
    }
  }

  /** Trimming on the left removes whitespace only. */
  lemma {:induction false} NonSpaceTrimLeft(s: string)
    ensures NonSpace(TrimLeft(s)) == NonSpace(s)
  {
    if s != [] && IsSpace(s[0]) {
      NonSpaceTrimLeft(s[1..]);
    }
  }

  /** Trimming on the right removes whitespace only. */
  lemma {:induction false} NonSpaceTrimRight(s: string)
    ensures NonSpace(TrimRight(s)) == NonSpace(s)
  {
    if s != [] && IsSpace(s[|s| - 1]) {
      var n := |s| - 1;
      NonSpaceTrimRight(s[..n]);
      assert s == s[..n] + [s[n]];
      NonSpaceAppend(s[..n], [s[n]]);
      assert [s[n]][1..] == [];
    }
  }

  /** `strip()` removes whitespace only. */
  lemma NonSpaceStrip(s: string)
    ensures NonSpace(Strip(s)) == NonSpace(s)
  {
    NonSpaceTrimLeft(s);
    NonSpaceTrimRight(TrimLeft(s));
  }

  /** Collapsing whitespace keeps every other character, in order. */
  lemma {:induction false} CollapseKeepsText(s: string)
    ensures NonSpace(CollapseSpaces(s)) == NonSpace(s)
    decreases |s|
  {
    if s != [] {
      if IsSpace(s[0]) {
        var rest := TrimLeft(s);
        assert rest == TrimLeft(s[1..]);
        CollapseKeepsText(rest);
        NonSpaceTrimLeft(s);
        assert ([' '] + CollapseSpaces(rest))[1..] == CollapseSpaces(rest);
      } else {
        CollapseKeepsText(s[1..]);
        assert ([s[0]] + CollapseSpaces(s[1..]))[1..] == CollapseSpaces(s[1..]);
      }
    }
  }

  /** A string whose whitespace is already single plain spaces is left as it is. */
  lemma {:induction false} CollapseClean(s: string)
    requires NoDoubleSpace(s) && OnlyPlainSpace(s)
    ensures CollapseSpaces(s) == s
    decreases |s|
  {
    if s != [] {
      var tail := s[1..];
      assert NoDoubleSpace(tail) && OnlyPlainSpace(tail) by {
        forall k | 0 <= k < |tail| ensures tail[k] == s[k + 1] { }
      }
      CollapseClean(tail);
      if IsSpace(s[0]) {
        assert TrimLeft(tail) == tail by {
          if tail != [] { assert !IsSpace(s[1]); }
        }
        assert TrimLeft(s) == tail;
        assert s == [' '] + tail;
      } else {
        assert s == [s[0]] + tail;
      }
    }
  }

  lemma ConsKeepsClean(x: char, r: string, noYo: bool)
    requires NoDoubleSpace(r) && OnlyPlainSpace(r)
    requires IsSpace(x) ==> x == ' '
    requires IsSpace(x) && r != [] ==> !IsSpace(r[0])
    requires noYo ==> HasNoYo(r) && x != 'ё' && x != 'Ё'
    ensures NoDoubleSpace([x] + r) && OnlyPlainSpace([x] + r)
    ensures noYo ==> HasNoYo([x] + r)
  {
    var t := [x] + r;
    forall k | 1 <= k < |t| ensures t[k] == r[k - 1] { }
  }

  lemma {:induction false} SliceKeepsClean(s: string, i: nat, j: nat)
    requires i <= j <= |s|
    requires NoDoubleSpace(s) && OnlyPlainSpace(s) && HasNoYo(s)
    ensures NoDoubleSpace(s[i..j]) && OnlyPlainSpace(s[i..j]) && HasNoYo(s[i..j])
  {
    var t := s[i..j];
    forall k | 0 <= k < |t| - 1 ensures !(IsSpace(t[k]) && IsSpace(t[k + 1])) {
      assert t[k] == s[i + k] && t[k + 1] == s[i + k + 1];
    }
    forall k | 0 <= k < |t| ensures (IsSpace(t[k]) ==> t[k] == ' ') && t[k] != 'ё' && t[k] != 'Ё' {
      assert t[k] == s[i + k];
    }
  }

  lemma StripKeepsClean(c: string)
    requires NoDoubleSpace(c) && OnlyPlainSpace(c) && HasNoYo(c)
    ensures NoDoubleSpace(Strip(c)) && OnlyPlainSpace(Strip(c)) && HasNoYo(Strip(c))
  {
    StripIsSlice(c);
    var i := |c| - |TrimLeft(c)|;
    SliceKeepsClean(c, i, i + |Strip(c)|);
  }

  lemma StripIsSlice(c: string)
    ensures |c| - |TrimLeft(c)| + |Strip(c)| <= |c|
    ensures Strip(c) == c[|c| - |TrimLeft(c)|..|c| - |TrimLeft(c)| + |Strip(c)|]
  {
    var l := TrimLeft(c);
    var r := TrimRight(l);
    var i := |c| - |l|;
    TrimLeftSuffix(c);
    TrimRightPrefix(l);
    assert Strip(c) == r;
    assert l == c[i..];
    assert r == l[..|r|];
    assert r == c[i..i + |r|];
  }

  /**
   * `_norm` of add_child.py: NFKC (a parameter of the model), ё/Ё folded to
   * е/Е, whitespace runs collapsed to one space, and the ends stripped. The
   * result has no ё/Ё, no leading or trailing whitespace, and never two
   * whitespace characters in a row.
   */
  function HeaderNorm(nfkc: string -> string, s: string): (r: string)
    ensures HasNoYo(r)
    ensures r == [] || (!IsSpace(r[0]) && !IsSpace(r[|r| - 1]))
    ensures NoDoubleSpace(r) && OnlyPlainSpace(r)
  {
    var c := CollapseSpaces(ReplaceYo(nfkc(s)));
    StripKeepsClean(c);
    Strip(c)
  }

  /**
   * Header normalisation changes whitespace and nothing else after the ё/Ё
   * folding: the non-whitespace characters of the result are those of the
   * folded NFKC form, in order.
   */
  lemma HeaderNormText(nfkc: string -> string, s: string)
    ensures NonSpace(HeaderNorm(nfkc, s)) == NonSpace(ReplaceYo(nfkc(s)))
  {
    var c := CollapseSpaces(ReplaceYo(nfkc(s)));
    CollapseKeepsText(ReplaceYo(nfkc(s)));
    NonSpaceStrip(c);
  }

  /** A header already in normal form (after NFKC) is left as it is. */
  lemma HeaderNormClean(nfkc: string -> string, s: string)
    requires HasNoYo(nfkc(s)) && NoDoubleSpace(nfkc(s)) && OnlyPlainSpace(nfkc(s))
    requires nfkc(s) == [] || (!IsSpace(nfkc(s)[0]) && !IsSpace(nfkc(s)[|nfkc(s)| - 1]))
    ensures HeaderNorm(nfkc, s) == nfkc(s)
  {
    var n := nfkc(s);
    assert ReplaceYo(n) == n;
    CollapseClean(n);
    StripNoop(n);
  }

  // ---------------------------------------------------------------------------
  // `_pair` and `_nonempty`
  // ---------------------------------------------------------------------------

  /** `_pair(base)`: the labels of the first and second child's column. */
  function Pair(base: string): (string, string) {
    (base + " #1", base + " #2")
  }

  /** The two labels differ from the base and from each other: the base followed by " #1" and " #2". */
  lemma PairShape(base: string)
    ensures Pair(base).0 != base && Pair(base).1 != base && Pair(base).0 != Pair(base).1
    ensures |Pair(base).0| == |base| + 3 && Pair(base).0[..|base|] == base && Pair(base).0[|base|..] == " #1"
    ensures |Pair(base).1| == |base| + 3 && Pair(base).1[..|base|] == base && Pair(base).1[|base|..] == " #2"
  {
    var p := Pair(base);
    assert p.0[|p.0| - 1] != p.1[|p.1| - 1];
  }

  /** Different bases never share a "#1" or "#2" label, and a "#1" label is never a "#2" label. */
  lemma {:induction false} PairInjective(x: string, y: string)
    ensures Pair(x).0 == Pair(y).0 ==> x == y
    ensures Pair(x).1 == Pair(y).1 ==> x == y
    ensures Pair(x).0 != Pair(y).1
  {
    PairShape(x);
    PairShape(y);
    if Pair(x).0 == Pair(y).0 || Pair(x).1 == Pair(y).1 {
      assert |x| == |y|;
      assert x == Pair(x).0[..|x|] == Pair(y).0[..|y|] == y;
    }
  }

  /** `_nonempty` on one cell: not missing, and its text is not blank after stripping. */
  function NonEmpty(v: Value): bool {
    v.Null? == false && Strip(Show(v)) != ""
  }

  /** A cell is non-empty exactly when it is present and its text has a non-whitespace character. */
  lemma NonEmptyMeaning(v: Value)
    ensures NonEmpty(v) <==> v != Null && exists k :: 0 <= k < |Show(v)| && !IsSpace(Show(v)[k])
  {
    StripEmpty(Show(v));
  }

  /** `_nonempty(d[c])`: the mask of non-empty cells of a column. */
  function NonEmptyMask(d: Table, c: string): (m: seq<bool>)
    requires WellFormed(d) && c in d.columns
    ensures |m| == |d.rows|
    ensures forall i :: 0 <= i < |m| ==> m[i] == NonEmpty(d.rows[i][c])
  {
    var vs := Cells(d, c);
    seq(|vs|, i requires 0 <= i < |vs| => NonEmpty(vs[i]))
  }

  /** `has_child(d, base_name, which)`: which rows of d hold the given child. */
  function HasChild(d: Table, baseName: string, which: int): (m: seq<bool>)
    requires WellFormed(d)
    ensures |m| == |d.rows|
  {
    var (a, b) := Pair(baseName);
    if which == 1 then
      if baseName in d.columns then NonEmptyMask(d, baseName)
      else if a in d.columns then NonEmptyMask(d, a)
      else seq(|d.rows|, _ => false)
    else
      if b in d.columns then NonEmptyMask(d, b) else seq(|d.rows|, _ => false)
  }

  // ---------------------------------------------------------------------------
  // Steps 0-4 of `normalize_children`
  // ---------------------------------------------------------------------------

  /** The label function passed to `df.rename` in step 0. */
  function Normalizer(nfkc: string -> string): string -> string {
    c => HeaderNorm(nfkc, c)
  }

  /** The header labels after step 0's renaming. */
  function Headers(t: Table, nfkc: string -> string): seq<string> {
    MapLabels(t.columns, Normalizer(nfkc))
  }

  /** Every "#1" and "#2" label of the bases: the columns step 4 drops. */
  function PairLabels(bases: seq<string>): set<string> {
    (set b | b in bases :: Pair(b).0) + (set b | b in bases :: Pair(b).1)
  }

  /**
   * The configurations the model covers: no base is called `_src_row`, no base
   * and not the key base is some base's "#1"/"#2" label. The default
   * configuration is one of them.
   */
  predicate ValidConfig(bases: seq<string>, keyBase: string) {
    && SrcRowColumn !in bases
    && keyBase !in PairLabels(bases)
    && (forall x, y :: x in bases && y in bases ==> x != Pair(y).0 && x != Pair(y).1)
    && (forall x :: x in bases ==> x != Pair(keyBase).0 && x != Pair(keyBase).1)
  }

  /**
   * The labels the model covers: unique after normalisation, and no base
   * present both plain and as its "#1" label (pandas would then hold two
   * columns of one name).
   */
  predicate ValidHeaders(cols: seq<string>, bases: seq<string>) {
    && Distinct(cols)
    && forall b :: b in bases ==> !(b in cols && Pair(b).0 in cols)
  }

  /** Step 0: normalised headers, then `_src_row` = the row's position. */
  function SourceFrame(t: Table, nfkc: string -> string): (df: Table)
    requires WellFormed(t) && Distinct(Headers(t, nfkc))
    ensures WellFormed(df) && |df.rows| == |t.rows|
    ensures ColumnSet(df.columns) == ColumnSet(Headers(t, nfkc)) + {SrcRowColumn}
    ensures forall i :: 0 <= i < |df.rows| ==> SrcRowColumn in df.rows[i] && df.rows[i][SrcRowColumn] == Int(i)
  {
    var renamed := RenameColumns(t, Normalizer(nfkc));
    var df := SetColumn(renamed, SrcRowColumn, seq(|t.rows|, i => Int(i)));
    assert ColumnSet(renamed.columns) == ColumnSet(Headers(t, nfkc));
    df
  }

  /** Every source cell reappears under its normalised label, unless that label is `_src_row`. */
  lemma SourceCell(t: Table, nfkc: string -> string, i: nat, j: nat)
    requires WellFormed(t) && Distinct(Headers(t, nfkc))
    requires i < |t.rows| && j < |t.columns| && HeaderNorm(nfkc, t.columns[j]) != SrcRowColumn
    ensures var df := SourceFrame(t, nfkc);
      i < |df.rows| && HeaderNorm(nfkc, t.columns[j]) in df.rows[i] &&
      df.rows[i][HeaderNorm(nfkc, t.columns[j])] == t.rows[i][t.columns[j]]
  {
    var renamed := RenameColumns(t, Normalizer(nfkc));
    var key := HeaderNorm(nfkc, t.columns[j]);
    assert key in renamed.rows[i] && renamed.rows[i][key] == t.rows[i][t.columns[j]] by {
      RenameCell(t, Normalizer(nfkc), i, j);
      assert Normalizer(nfkc)(t.columns[j]) == key;
    }
    var df := SourceFrame(t, nfkc);
    assert key in df.rows[i] && df.rows[i][key] == renamed.rows[i][key] by {
      assert df.rows[i] == renamed.rows[i][SrcRowColumn := Int(i)];
    }
  }

  /** The target of `rename_1`: a base's "#1" label becomes the base, other labels stay. */
  function UnpairOne(bases: seq<string>, c: string): string {
    if |c| >= 3 && c[|c| - 3..] == " #1" && c[..|c| - 3] in bases then c[..|c| - 3] else c
  }

  function Unpairer(bases: seq<string>): string -> string {
    c => UnpairOne(bases, c)
  }

  /** `rename_1` sends a base's "#1" label to the base, and leaves a label that is no base's "#1" label alone. */
  lemma UnpairOneCases(bases: seq<string>, c: string)
    ensures forall b :: b in bases && c == Pair(b).0 ==> UnpairOne(bases, c) == b
    ensures (forall b :: b in bases ==> c != Pair(b).0) ==> UnpairOne(bases, c) == c
  {
    if |c| >= 3 && c[|c| - 3..] == " #1" && c[..|c| - 3] in bases {
      var b := c[..|c| - 3];
      assert c == b + " #1";
      assert c == Pair(b).0;
    }
  }

  /** Step 1: the child-1 view, each base's "#1" column renamed to the base. */
  function ChildOneView(df: Table, bases: seq<string>): (df1: Table)
    requires WellFormed(df) && ValidHeaders(df.columns, bases)
    ensures WellFormed(df1) && |df1.rows| == |df.rows|
    ensures df1.columns == MapLabels(df.columns, Unpairer(bases))
  {
    var f := Unpairer(bases);
    UnpairDistinct(df.columns, bases);
    RenameColumns(df, f)
  }

  /** With valid headers, `rename_1` sends distinct labels to distinct labels. */
  lemma UnpairDistinct(cols: seq<string>, bases: seq<string>)
    requires ValidHeaders(cols, bases)
    ensures Distinct(MapLabels(cols, Unpairer(bases)))
  {
    var r := MapLabels(cols, Unpairer(bases));
    DistinctIff(cols);
    DistinctIff(r);
    forall i, j | 0 <= i < j < |r| ensures r[i] != r[j] {
      UnpairTwo(cols, bases, cols[i], cols[j]);
    }
  }

  /** Two different labels of a valid header keep different targets under `rename_1`. */
  lemma UnpairTwo(cols: seq<string>, bases: seq<string>, x: string, y: string)
    requires ValidHeaders(cols, bases) && x in cols && y in cols && x != y
    ensures UnpairOne(bases, x) != UnpairOne(bases, y)
  {
    var fx, fy := UnpairOne(bases, x), UnpairOne(bases, y);
    UnpairOneShape(bases, x);
    UnpairOneShape(bases, y);
    if fx != x && fy == y {
      assert !(fx in cols && Pair(fx).0 in cols);
    } else if fx == x && fy != y {
      assert !(fy in cols && Pair(fy).0 in cols);
    }
  }

  /** `rename_1` leaves a label alone or sends it to the base whose "#1" label it is. */
  lemma UnpairOneShape(bases: seq<string>, c: string)
    ensures var f := UnpairOne(bases, c);
      f == c || (f in bases && c == Pair(f).0)
  {
    if |c| >= 3 && c[|c| - 3..] == " #1" && c[..|c| - 3] in bases {
      assert c == c[..|c| - 3] + " #1";
    }
  }

  function PairLabelsOne(bases: seq<string>): set<string> {
    set b | b in bases :: Pair(b).0
  }

  /** The value a base column takes in the child-2 view: the "#2" cell, else the base cell, else missing. */
  function SecondChildCell(df: Table, i: nat, base: string): Value
    requires WellFormed(df) && i < |df.rows|
  {
    var b := Pair(base).1;
    if b in df.columns then (assert b in df.rows[i]; df.rows[i][b])
    else if base in df.columns then (assert base in df.rows[i]; df.rows[i][base])
    else Null
  }

  /** The value a base column takes in a child-1 output row: the "#1" cell, else the base cell, else missing. */
  function FirstChildCell(df: Table, i: nat, base: string): Value
    requires WellFormed(df) && i < |df.rows|
  {
    var a := Pair(base).0;
    if a in df.columns then (assert a in df.rows[i]; df.rows[i][a])
    else if base in df.columns then (assert base in df.rows[i]; df.rows[i][base])
    else Null
  }

  /** One iteration of step 2's loop: `df2[base] = df2[b]`, or `pd.NA` when neither column exists. */
  function OverwriteStep(d: Table, base: string): (r: Table)
    requires WellFormed(d)
    ensures WellFormed(r) && |r.rows| == |d.rows|
    ensures r.columns == if base in d.columns then d.columns else d.columns + [base]
  {
    var b := Pair(base).1;
    if b in d.columns then SetColumn(d, base, Cells(d, b))
    else if base !in d.columns then SetColumn(d, base, seq(|d.rows|, _ => Null))
    else d
  }

  /** Row i after one step: the base holds the child-2 cell, every other column is untouched. */
  lemma OverwriteStepCell(d: Table, base: string, i: nat)
    requires WellFormed(d) && i < |d.rows|
    ensures base in OverwriteStep(d, base).rows[i]
    ensures OverwriteStep(d, base).rows[i][base] == SecondChildCell(d, i, base)
    ensures forall c :: c in d.rows[i] && c != base ==> c in OverwriteStep(d, base).rows[i] && OverwriteStep(d, base).rows[i][c] == d.rows[i][c]
  {
  }

  /** Step 2: the child-2 view, `OverwriteStep` applied for each base in order. */
  function OverwriteBases(df: Table, bases: seq<string>): (df2: Table)
    requires WellFormed(df)
    ensures WellFormed(df2) && |df2.rows| == |df.rows|
    decreases |bases|
  {
    if bases == [] then df
    else OverwriteStep(OverwriteBases(df, bases[..|bases| - 1]), bases[|bases| - 1])
  }

  lemma ColumnSetAppend(a: seq<string>, x: string)
    ensures ColumnSet(a + [x]) == ColumnSet(a) + {x}
  {
  }

  /** Step 2 keeps the old columns in place and appends the bases that were missing. */
  lemma OverwriteBasesColumns(df: Table, bases: seq<string>)
    requires WellFormed(df)
    ensures var df2 := OverwriteBases(df, bases);
      && |df2.columns| >= |df.columns| && df2.columns[..|df.columns|] == df.columns
      && ColumnSet(df2.columns) == ColumnSet(df.columns) + ColumnSet(bases)
  {
    OverwriteBasesPrefix(df, bases);
    OverwriteBasesColumnSet(df, bases);
  }

  lemma {:induction false} OverwriteBasesPrefix(df: Table, bases: seq<string>)
    requires WellFormed(df)
    ensures var df2 := OverwriteBases(df, bases);
      |df2.columns| >= |df.columns| && df2.columns[..|df.columns|] == df.columns
    decreases |bases|
  {
    if bases != [] {
      var init := bases[..|bases| - 1];
      var base := bases[|bases| - 1];
      OverwriteBasesPrefix(df, init);
      var prev := OverwriteBases(df, init);
      var r := OverwriteStep(prev, base);
      assert r == OverwriteBases(df, bases);
      if base !in prev.columns {
        assert r.columns[..|df.columns|] == prev.columns[..|df.columns|];
      }
    }
  }

  lemma {:induction false} OverwriteBasesColumnSet(df: Table, bases: seq<string>)
    requires WellFormed(df)
    ensures ColumnSet(OverwriteBases(df, bases).columns) == ColumnSet(df.columns) + ColumnSet(bases)
    decreases |bases|
  {
    if bases != [] {
      var init := bases[..|bases| - 1];
      var base := bases[|bases| - 1];
      OverwriteBasesColumnSet(df, init);
      var prev := OverwriteBases(df, init);
      var r := OverwriteStep(prev, base);
      assert r == OverwriteBases(df, bases);
      assert bases == init + [base];
      ColumnSetAppend(init, base);
      if base !in prev.columns {
        ColumnSetAppend(prev.columns, base);
      }
    }
  }

  /**
   * After step 2 every base column holds the "#2" cell when that column
   * exists, the old base cell when only the base exists, and a missing value
   * otherwise; other columns are untouched.
   */
  lemma {:induction false} OverwriteBasesCells(df: Table, bases: seq<string>, i: nat)
    requires WellFormed(df) && i < |df.rows|
    requires forall x, y :: x in bases && y in bases ==> x != Pair(y).1
    ensures forall c :: c in bases ==>
      c in OverwriteBases(df, bases).rows[i] && OverwriteBases(df, bases).rows[i][c] == SecondChildCell(df, i, c)
    ensures forall c :: c in df.columns && c !in bases ==>
      c in OverwriteBases(df, bases).rows[i] && OverwriteBases(df, bases).rows[i][c] == df.rows[i][c]
    decreases |bases|
  {
    if bases != [] {
      var init := bases[..|bases| - 1];
      var base := bases[|bases| - 1];
      assert bases == init + [base];
      assert forall x, y :: x in init && y in init ==> x != Pair(y).1 by {
        forall x, y | x in init && y in init ensures x != Pair(y).1 {
          assert x in bases && y in bases;
        }
      }
      OverwriteBasesCells(df, init, i);
      OverwriteBasesColumns(df, init);
      var prev := OverwriteBases(df, init);
      var r := OverwriteStep(prev, base);
      assert r == OverwriteBases(df, bases);
      OverwriteStepCell(prev, base, i);
      OverwriteLastCell(df, init, base, i);
      forall c | c in bases ensures c in r.rows[i] && r.rows[i][c] == SecondChildCell(df, i, c) {
        if c != base {
          assert c in init;
        }
      }
      forall c | c in df.columns && c !in bases ensures c in r.rows[i] && r.rows[i][c] == df.rows[i][c] {
        assert c != base && c !in init;
      }
    }
  }

  /** The step for the last base leaves that base holding its child-2 cell of the source frame. */
  lemma OverwriteLastCell(df: Table, init: seq<string>, base: string, i: nat)
    requires WellFormed(df) && i < |df.rows|
    requires forall x, y :: x in init + [base] && y in init + [base] ==> x != Pair(y).1
    requires forall c :: c in init ==>
      c in OverwriteBases(df, init).rows[i] && OverwriteBases(df, init).rows[i][c] == SecondChildCell(df, i, c)
    requires forall c :: c in df.columns && c !in init ==>
      c in OverwriteBases(df, init).rows[i] && OverwriteBases(df, init).rows[i][c] == df.rows[i][c]
    ensures SecondChildCell(OverwriteBases(df, init), i, base) == SecondChildCell(df, i, base)
  {
    var prev := OverwriteBases(df, init);
    OverwriteBasesColumns(df, init);
    var b := Pair(base).1;
    assert b !in init by {
      assert base in init + [base];
      forall x | x in init ensures x != b {
        assert x in init + [base];
      }
    }
    assert b in prev.columns <==> b in df.columns by {
      assert b in ColumnSet(prev.columns) <==> b in ColumnSet(df.columns) + ColumnSet(init);
    }
    assert base in prev.columns <==> base in df.columns || base in init by {
      assert base in ColumnSet(prev.columns) <==> base in ColumnSet(df.columns) + ColumnSet(init);
    }
    if b in df.columns {
      assert SecondChildCell(prev, i, base) == prev.rows[i][b] == df.rows[i][b];
    } else if base in init {
      assert SecondChildCell(prev, i, base) == prev.rows[i][base];
    } else if base in df.columns {
      assert SecondChildCell(prev, i, base) == prev.rows[i][base] == df.rows[i][base];
    }
  }

  // ---------------------------------------------------------------------------
  // Steps 3-4: the output frame as a function of the source frame
  // ---------------------------------------------------------------------------

  /** Step 0's numbering: row i of the source frame has `_src_row` = i. */
  predicate Numbered(df: Table) {
    && SrcRowColumn in df.columns
    && forall i :: 0 <= i < |df.rows| ==> SrcRowColumn in df.rows[i] && df.rows[i][SrcRowColumn] == Int(i)
  }

  /** The frames steps 1-5 are modelled on: step 0's output under a covered configuration. */
  ghost predicate Covered(df: Table, bases: seq<string>, keyBase: string) {
    WellFormed(df) && Numbered(df) && ValidHeaders(df.columns, bases) && ValidConfig(bases, keyBase)
  }

  /** Step 3 on the child-1 view. */
  function ChildOneRows(df: Table, bases: seq<string>, keyBase: string): (d: Table)
    requires Covered(df, bases, keyBase)
    ensures WellFormed(d)
  {
    var df1 := ChildOneView(df, bases);
    SelectRows(df1, HasChild(df1, keyBase, 1))
  }

  /** Step 3 on the child-2 view. */
  function ChildTwoRows(df: Table, bases: seq<string>, keyBase: string): (d: Table)
    requires Covered(df, bases, keyBase)
    ensures WellFormed(d)
  {
    var df2 := OverwriteBases(df, bases);
    SelectRows(df2, HasChild(df2, keyBase, 2))
  }

  /** Step 4 before the drop: child-1 rows, then child-2 rows. */
  function Stacked(df: Table, bases: seq<string>, keyBase: string): (d: Table)
    requires Covered(df, bases, keyBase)
    ensures WellFormed(d)
  {
    Concat(ChildOneRows(df, bases, keyBase), ChildTwoRows(df, bases, keyBase))
  }

  /** The frame `normalize_children` returns for the source frame df (steps 1-4). */
  function Split(df: Table, bases: seq<string>, keyBase: string, keepOriginal: bool): (out: Table)
    requires Covered(df, bases, keyBase)
    ensures WellFormed(out)
  {
    var out := Stacked(df, bases, keyBase);
    if keepOriginal then out else DropColumns(out, PairLabels(bases))
  }

  /** The source rows that hold a first child, and those that hold a second child, in source order. */
  function FirstChildRows(df: Table, keyBase: string): (p: seq<nat>)
    requires WellFormed(df)
    ensures forall k :: 0 <= k < |p| ==> p[k] < |df.rows|
  {
    Positions(HasChild(df, keyBase, 1))
  }

  function SecondChildRows(df: Table, keyBase: string): (p: seq<nat>)
    requires WellFormed(df)
    ensures forall k :: 0 <= k < |p| ==> p[k] < |df.rows|
  {
    Positions(HasChild(df, keyBase, 2))
  }

  // ----- the two views, column by column -----

  /** Which labels the child-1 view has. */
  lemma ViewLabels(df: Table, bases: seq<string>, x: string)
    requires WellFormed(df) && ValidHeaders(df.columns, bases)
    ensures x in ChildOneView(df, bases).columns <==>
      (x in df.columns && x !in PairLabelsOne(bases)) || (x in bases && Pair(x).0 in df.columns)
  {
    var cols := ChildOneView(df, bases).columns;
    if x in cols {
      var j :| 0 <= j < |cols| && cols[j] == x;
      UnpairOneCases(bases, df.columns[j]);
      if df.columns[j] in PairLabelsOne(bases) {
        var b :| b in bases && df.columns[j] == Pair(b).0;
        PairInjective(b, x);
      }
    }
    if x in df.columns && x !in PairLabelsOne(bases) {
      var j := IndexOf(df.columns, x);
      UnpairOneCases(bases, x);
      assert cols[j] == x;
    }
    if x in bases && Pair(x).0 in df.columns {
      var j := IndexOf(df.columns, Pair(x).0);
      UnpairOneCases(bases, Pair(x).0);
      assert cols[j] == x;
    }
  }

  /** A source column reappears in the child-1 view under its unpaired label, cell by cell. */
  lemma ViewCell(df: Table, bases: seq<string>, i: nat, c: string)
    requires WellFormed(df) && ValidHeaders(df.columns, bases) && i < |df.rows| && c in df.columns
    ensures var df1 := ChildOneView(df, bases);
      UnpairOne(bases, c) in df1.columns && UnpairOne(bases, c) in df1.rows[i] &&
      df1.rows[i][UnpairOne(bases, c)] == df.rows[i][c]
  {
    var df1 := ChildOneView(df, bases);
    var j := IndexOf(df.columns, c);
    assert df1.columns[j] == UnpairOne(bases, c);
    RenameCell(df, Unpairer(bases), i, j);
  }

  /** Step 3's child-1 mask, taken on the view, is the mask of the source frame. */
  lemma {:induction false} MaskOne(df: Table, bases: seq<string>, keyBase: string)
    requires Covered(df, bases, keyBase)
    ensures HasChild(ChildOneView(df, bases), keyBase, 1) == HasChild(df, keyBase, 1)
  {
    var df1 := ChildOneView(df, bases);
    var a := Pair(keyBase).0;
    ViewLabels(df, bases, keyBase);
    ViewLabels(df, bases, a);
    assert keyBase !in PairLabelsOne(bases);
    if keyBase in df.columns {
      UnpairOneCases(bases, keyBase);
      SameMask(df, df1, bases, keyBase, keyBase);
    } else if a in df.columns {
      UnpairOneCases(bases, a);
      if keyBase in bases {
        SameMask(df, df1, bases, a, keyBase);
      } else {
        SameMask(df, df1, bases, a, a);
      }
    }
  }

  lemma SameMask(df: Table, df1: Table, bases: seq<string>, c: string, x: string)
    requires WellFormed(df) && ValidHeaders(df.columns, bases) && df1 == ChildOneView(df, bases)
    requires c in df.columns && UnpairOne(bases, c) == x
    ensures x in df1.columns && NonEmptyMask(df1, x) == NonEmptyMask(df, c)
  {
    var j := IndexOf(df.columns, c);
    assert ChildOneView(df, bases).columns[j] == x;
    forall i | 0 <= i < |df.rows| ensures df1.rows[i][x] == df.rows[i][c] {
      ViewCell(df, bases, i, c);
    }
  }

  /** Step 3's child-2 mask, taken on the view, is the mask of the source frame. */
  lemma MaskTwo(df: Table, bases: seq<string>, keyBase: string)
    requires Covered(df, bases, keyBase)
    ensures HasChild(OverwriteBases(df, bases), keyBase, 2) == HasChild(df, keyBase, 2)
  {
    var df2 := OverwriteBases(df, bases);
    var b := Pair(keyBase).1;
    OverwriteBasesColumns(df, bases);
    assert b !in bases;
    assert b in df2.columns <==> b in ColumnSet(df2.columns);
    if b in df.columns {
      forall i | 0 <= i < |df.rows| ensures df2.rows[i][b] == df.rows[i][b] {
        OverwriteBasesCells(df, bases, i);
      }
    }
  }

  // ----- the rows of the output -----

  /** A cell of the output is the cell of the stacked frame, for every column the drop keeps. */
  lemma SplitCell(df: Table, bases: seq<string>, keyBase: string, keepOriginal: bool, j: nat, c: string)
    requires Covered(df, bases, keyBase)
    requires j < |Stacked(df, bases, keyBase).rows| && c in Stacked(df, bases, keyBase).columns
    requires keepOriginal || c !in PairLabels(bases)
    ensures var out := Split(df, bases, keyBase, keepOriginal);
      j < |out.rows| && c in out.columns && c in out.rows[j] && out.rows[j][c] == Stacked(df, bases, keyBase).rows[j][c]
  {
    if !keepOriginal {
      DropCell(Stacked(df, bases, keyBase), PairLabels(bases), j, c);
    }
  }

  /** The stacked frame has a column for every source column and every base. */
  lemma StackedColumns(df: Table, bases: seq<string>, keyBase: string)
    requires Covered(df, bases, keyBase)
    ensures ColumnSet(Stacked(df, bases, keyBase).columns) == ColumnSet(df.columns) + ColumnSet(bases)
  {
    var df1 := ChildOneView(df, bases);
    var df2 := OverwriteBases(df, bases);
    OverwriteBasesColumns(df, bases);
    var cols := Stacked(df, bases, keyBase).columns;
    forall x ensures x in ColumnSet(cols) <==> x in ColumnSet(df.columns) + ColumnSet(bases) {
      ViewLabels(df, bases, x);
      assert x in df2.columns <==> x in ColumnSet(df2.columns);
    }
  }

  /** Row j of the stacked frame, for j below the number of child-1 rows, is that child's view row. */
  lemma StackedFirst(df: Table, bases: seq<string>, keyBase: string, j: nat)
    requires Covered(df, bases, keyBase) && j < |FirstChildRows(df, keyBase)|
    ensures var st := Stacked(df, bases, keyBase);
      && FirstChildRows(df, keyBase)[j] < |df.rows| && j < |st.rows|
      && st.rows[j] == Reindex(ChildOneView(df, bases).rows[FirstChildRows(df, keyBase)[j]], st.columns)
  {
    MaskOne(df, bases, keyBase);
  }

  /** The rows after the child-1 rows are the child-2 view rows, in source order. */
  lemma StackedSecond(df: Table, bases: seq<string>, keyBase: string, j: nat)
    requires Covered(df, bases, keyBase)
    requires |FirstChildRows(df, keyBase)| <= j < |FirstChildRows(df, keyBase)| + |SecondChildRows(df, keyBase)|
    ensures var st := Stacked(df, bases, keyBase); var p1 := FirstChildRows(df, keyBase);
      && SecondChildRows(df, keyBase)[j - |p1|] < |df.rows| && j < |st.rows|
      && st.rows[j] == Reindex(OverwriteBases(df, bases).rows[SecondChildRows(df, keyBase)[j - |p1|]], st.columns)
  {
    MaskOne(df, bases, keyBase);
    MaskTwo(df, bases, keyBase);
    var t1, t2 := ChildOneRows(df, bases, keyBase), ChildTwoRows(df, bases, keyBase);
    var p1, p2 := FirstChildRows(df, keyBase), SecondChildRows(df, keyBase);
    assert |t1.rows| == |p1|;
    assert t2.rows[j - |p1|] == OverwriteBases(df, bases).rows[p2[j - |p1|]];
  }

  /** `_src_row` is a column of the source frame, of the stacked frame, and of the output. */
  lemma SrcRowKept(df: Table, bases: seq<string>, keyBase: string)
    requires Covered(df, bases, keyBase)
    ensures SrcRowColumn in df.columns && SrcRowColumn !in bases
    ensures SrcRowColumn !in PairLabels(bases) && UnpairOne(bases, SrcRowColumn) == SrcRowColumn
    ensures SrcRowColumn in Stacked(df, bases, keyBase).columns
  {
    assert SrcRowColumn !in PairLabels(bases) && UnpairOne(bases, SrcRowColumn) == SrcRowColumn by {
      UnpairOneCases(bases, SrcRowColumn);
    }
    assert SrcRowColumn in Stacked(df, bases, keyBase).columns by {
      InStacked(df, bases, keyBase, SrcRowColumn);
    }
  }

  /** Output row j, below the number of child-1 rows, comes from the j-th first-child source row. */
  lemma SrcOfFirst(df: Table, bases: seq<string>, keyBase: string, keepOriginal: bool, out: Table, j: nat, i: nat)
    requires Covered(df, bases, keyBase) && out == Split(df, bases, keyBase, keepOriginal)
    requires j < |FirstChildRows(df, keyBase)| && i == FirstChildRows(df, keyBase)[j]
    ensures j < |out.rows| && SrcRowColumn in out.rows[j] && out.rows[j][SrcRowColumn] == Int(i)
  {
    SrcRowKept(df, bases, keyBase);
    StackedFirst(df, bases, keyBase, j);
    SplitCell(df, bases, keyBase, keepOriginal, j, SrcRowColumn);
    ViewCell(df, bases, i, SrcRowColumn);
  }

  /** The output rows after the child-1 rows come from the second-child source rows, in order. */
  lemma SrcOfSecond(df: Table, bases: seq<string>, keyBase: string, keepOriginal: bool, out: Table, j: nat, i: nat)
    requires Covered(df, bases, keyBase) && out == Split(df, bases, keyBase, keepOriginal)
    requires |FirstChildRows(df, keyBase)| <= j < |FirstChildRows(df, keyBase)| + |SecondChildRows(df, keyBase)|
    requires i == SecondChildRows(df, keyBase)[j - |FirstChildRows(df, keyBase)|]
    ensures j < |out.rows| && SrcRowColumn in out.rows[j] && out.rows[j][SrcRowColumn] == Int(i)
  {
    SrcRowKept(df, bases, keyBase);
    StackedSecond(df, bases, keyBase, j);
    SplitCell(df, bases, keyBase, keepOriginal, j, SrcRowColumn);
    OverwriteBasesCells(df, bases, i);
  }

  /** The output has one row per first child plus one row per second child. */
  lemma SplitLength(df: Table, bases: seq<string>, keyBase: string, keepOriginal: bool)
    requires Covered(df, bases, keyBase)
    ensures |Split(df, bases, keyBase, keepOriginal).rows| == |FirstChildRows(df, keyBase)| + |SecondChildRows(df, keyBase)|
  {
    MaskOne(df, bases, keyBase);
    MaskTwo(df, bases, keyBase);
  }

  /** Every source column and every base is a column of the stacked frame. */
  lemma InStacked(df: Table, bases: seq<string>, keyBase: string, c: string)
    requires Covered(df, bases, keyBase) && (c in df.columns || c in bases)
    ensures c in Stacked(df, bases, keyBase).columns
  {
    StackedColumns(df, bases, keyBase);
    assert c in ColumnSet(Stacked(df, bases, keyBase).columns);
  }

  /** A kept cell of a child-1 output row: the view's cell, or a missing value when the view lacks the column. */
  lemma OutFirst(df: Table, bases: seq<string>, keyBase: string, keepOriginal: bool, j: nat, c: string)
    requires Covered(df, bases, keyBase) && j < |FirstChildRows(df, keyBase)|
    requires c in df.columns || c in bases
    requires keepOriginal || c !in PairLabels(bases)
    ensures var out := Split(df, bases, keyBase, keepOriginal); var i := FirstChildRows(df, keyBase)[j];
      var r1 := ChildOneView(df, bases).rows[i];
      i < |df.rows| && j < |out.rows| && c in out.rows[j] && out.rows[j][c] == if c in r1 then r1[c] else Null
  {
    InStacked(df, bases, keyBase, c);
    StackedFirst(df, bases, keyBase, j);
    SplitCell(df, bases, keyBase, keepOriginal, j, c);
    var st := Stacked(df, bases, keyBase);
    var r1 := ChildOneView(df, bases).rows[FirstChildRows(df, keyBase)[j]];
    var out := Split(df, bases, keyBase, keepOriginal);
    assert out.rows[j][c] == st.rows[j][c];
    assert st.rows[j] == Reindex(r1, st.columns);
  }

  /** A kept cell of a child-2 output row: the child-2 view's cell. */
  lemma OutSecond(df: Table, bases: seq<string>, keyBase: string, keepOriginal: bool, j: nat, c: string)
    requires Covered(df, bases, keyBase)
    requires |FirstChildRows(df, keyBase)| <= j < |FirstChildRows(df, keyBase)| + |SecondChildRows(df, keyBase)|
    requires c in df.columns || c in bases
    requires keepOriginal || c !in PairLabels(bases)
    ensures var out := Split(df, bases, keyBase, keepOriginal);
      var i := SecondChildRows(df, keyBase)[j - |FirstChildRows(df, keyBase)|];
      var r2 := OverwriteBases(df, bases).rows[i];
      i < |df.rows| && j < |out.rows| && c in out.rows[j] && out.rows[j][c] == if c in r2 then r2[c] else Null
  {
    InStacked(df, bases, keyBase, c);
    StackedSecond(df, bases, keyBase, j);
    SplitCell(df, bases, keyBase, keepOriginal, j, c);
    var st := Stacked(df, bases, keyBase);
    var r2 := OverwriteBases(df, bases).rows[SecondChildRows(df, keyBase)[j - |FirstChildRows(df, keyBase)|]];
    var out := Split(df, bases, keyBase, keepOriginal);
    assert out.rows[j][c] == st.rows[j][c];
    assert st.rows[j] == Reindex(r2, st.columns);
  }

  /** In a child-1 row every base holds the source's "#1" cell, else its base cell, else a missing value. */
  lemma ChildOneCell(df: Table, bases: seq<string>, keyBase: string, keepOriginal: bool, j: nat, b: string)
    requires Covered(df, bases, keyBase) && j < |FirstChildRows(df, keyBase)| && b in bases
    ensures var out := Split(df, bases, keyBase, keepOriginal); var i := FirstChildRows(df, keyBase)[j];
      i < |df.rows| && j < |out.rows| && b in out.rows[j] && out.rows[j][b] == FirstChildCell(df, i, b)
  {
    var i := FirstChildRows(df, keyBase)[j];
    OutFirst(df, bases, keyBase, keepOriginal, j, b);
    ViewLabels(df, bases, b);
    var a := Pair(b).0;
    if a in df.columns {
      UnpairOneCases(bases, a);
      ViewCell(df, bases, i, a);
    } else if b in df.columns {
      UnpairOneCases(bases, b);
      ViewCell(df, bases, i, b);
    }
  }

  /** In a child-2 row every base holds the source's "#2" cell, else its base cell, else a missing value. */
  lemma ChildTwoCell(df: Table, bases: seq<string>, keyBase: string, keepOriginal: bool, j: nat, b: string)
    requires Covered(df, bases, keyBase) && b in bases
    requires |FirstChildRows(df, keyBase)| <= j < |FirstChildRows(df, keyBase)| + |SecondChildRows(df, keyBase)|
    ensures var out := Split(df, bases, keyBase, keepOriginal);
      var i := SecondChildRows(df, keyBase)[j - |FirstChildRows(df, keyBase)|];
      i < |df.rows| && j < |out.rows| && b in out.rows[j] && out.rows[j][b] == SecondChildCell(df, i, b)
  {
    OutSecond(df, bases, keyBase, keepOriginal, j, b);
    OverwriteBasesCells(df, bases, SecondChildRows(df, keyBase)[j - |FirstChildRows(df, keyBase)|]);
  }

  /** A column that is neither a base nor a "#1"/"#2" label passes through to a child-1 row unchanged. */
  lemma OtherCellFirst(df: Table, bases: seq<string>, keyBase: string, keepOriginal: bool, j: nat, c: string)
    requires Covered(df, bases, keyBase) && j < |FirstChildRows(df, keyBase)|
    requires c in df.columns && c !in bases && c !in PairLabels(bases)
    ensures var out := Split(df, bases, keyBase, keepOriginal); var i := FirstChildRows(df, keyBase)[j];
      i < |df.rows| && j < |out.rows| && c in out.rows[j] && out.rows[j][c] == df.rows[i][c]
  {
    OutFirst(df, bases, keyBase, keepOriginal, j, c);
    UnpairOneCases(bases, c);
    ViewCell(df, bases, FirstChildRows(df, keyBase)[j], c);
  }

  /** A column that is neither a base nor a "#1"/"#2" label passes through to a child-2 row unchanged. */
  lemma OtherCellSecond(df: Table, bases: seq<string>, keyBase: string, keepOriginal: bool, j: nat, c: string)
    requires Covered(df, bases, keyBase)
    requires |FirstChildRows(df, keyBase)| <= j < |FirstChildRows(df, keyBase)| + |SecondChildRows(df, keyBase)|
    requires c in df.columns && c !in bases && c !in PairLabels(bases)
    ensures var out := Split(df, bases, keyBase, keepOriginal);
      var i := SecondChildRows(df, keyBase)[j - |FirstChildRows(df, keyBase)|];
      i < |df.rows| && j < |out.rows| && c in out.rows[j] && out.rows[j][c] == df.rows[i][c]
  {
    OutSecond(df, bases, keyBase, keepOriginal, j, c);
    OverwriteBasesCells(df, bases, SecondChildRows(df, keyBase)[j - |FirstChildRows(df, keyBase)|]);
  }

  /**
   * The output's columns are the source's columns and the bases; without
   * `keep_original` every "#1"/"#2" label is gone.
   */
  lemma SplitColumns(df: Table, bases: seq<string>, keyBase: string, keepOriginal: bool)
    requires Covered(df, bases, keyBase)
    ensures ColumnSet(Split(df, bases, keyBase, keepOriginal).columns) ==
      if keepOriginal then ColumnSet(df.columns) + ColumnSet(bases)
      else ColumnSet(df.columns) + ColumnSet(bases) - PairLabels(bases)
  {
    StackedColumns(df, bases, keyBase);
    var st := Stacked(df, bases, keyBase);
    var out := Split(df, bases, keyBase, keepOriginal);
    if !keepOriginal {
      assert ColumnSet(out.columns) == ColumnSet(st.columns) - PairLabels(bases);
    }
  }

  // ----- the output, row by row -----

  /**
   * An output row standing for one child of source row i: it carries the
   * source row's `_src_row`, the child's cell in every base, and the source
   * cell in every other column that is not a "#1"/"#2" label.
   */
  predicate ChildRow(row: Row, df: Table, bases: seq<string>, i: nat, second: bool)
    requires WellFormed(df) && i < |df.rows|
  {
    && SrcRowColumn in row && row[SrcRowColumn] == Int(i)
    && (forall b :: b in bases ==> b in row && row[b] == if second then SecondChildCell(df, i, b) else FirstChildCell(df, i, b))
    && (forall c :: c in df.columns && c !in bases && c !in PairLabels(bases) ==> c in row && row[c] == df.rows[i][c])
  }

  /** Row j of out: the j-th first child, or past those, the second children in source order. */
  predicate RowAt(out: Table, df: Table, bases: seq<string>, keyBase: string, j: nat)
    requires WellFormed(df) && j < |out.rows| && j < |FirstChildRows(df, keyBase)| + |SecondChildRows(df, keyBase)|
  {
    var p1, p2 := FirstChildRows(df, keyBase), SecondChildRows(df, keyBase);
    if j < |p1| then ChildRow(out.rows[j], df, bases, p1[j], false)
    else ChildRow(out.rows[j], df, bases, p2[j - |p1|], true)
  }

  /** The shape of `normalize_children`'s output: one row per first child, then one per second child. */
  ghost predicate SplitShape(out: Table, df: Table, bases: seq<string>, keyBase: string)
    requires WellFormed(df)
  {
    && |out.rows| == |FirstChildRows(df, keyBase)| + |SecondChildRows(df, keyBase)|
    && forall j :: 0 <= j < |out.rows| ==> RowAt(out, df, bases, keyBase, j)
  }

  lemma FirstRowShape(df: Table, bases: seq<string>, keyBase: string, keepOriginal: bool, out: Table, j: nat)
    requires Covered(df, bases, keyBase) && out == Split(df, bases, keyBase, keepOriginal)
    requires j < |FirstChildRows(df, keyBase)|
    ensures var i := FirstChildRows(df, keyBase)[j];
      i < |df.rows| && j < |out.rows| && ChildRow(out.rows[j], df, bases, i, false)
  {
    var i := FirstChildRows(df, keyBase)[j];
    SrcOfFirst(df, bases, keyBase, keepOriginal, out, j, i);
    forall b | b in bases ensures b in out.rows[j] && out.rows[j][b] == FirstChildCell(df, i, b) {
      ChildOneCell(df, bases, keyBase, keepOriginal, j, b);
    }
    forall c | c in df.columns && c !in bases && c !in PairLabels(bases) ensures c in out.rows[j] && out.rows[j][c] == df.rows[i][c] {
      OtherCellFirst(df, bases, keyBase, keepOriginal, j, c);
    }
  }

  lemma SecondRowShape(df: Table, bases: seq<string>, keyBase: string, keepOriginal: bool, out: Table, j: nat)
    requires Covered(df, bases, keyBase) && out == Split(df, bases, keyBase, keepOriginal)
    requires |FirstChildRows(df, keyBase)| <= j < |FirstChildRows(df, keyBase)| + |SecondChildRows(df, keyBase)|
    ensures var i := SecondChildRows(df, keyBase)[j - |FirstChildRows(df, keyBase)|];
      i < |df.rows| && j < |out.rows| && ChildRow(out.rows[j], df, bases, i, true)
  {
    var i := SecondChildRows(df, keyBase)[j - |FirstChildRows(df, keyBase)|];
    SrcOfSecond(df, bases, keyBase, keepOriginal, out, j, i);
    forall b | b in bases ensures b in out.rows[j] && out.rows[j][b] == SecondChildCell(df, i, b) {
      ChildTwoCell(df, bases, keyBase, keepOriginal, j, b);
    }
    forall c | c in df.columns && c !in bases && c !in PairLabels(bases) ensures c in out.rows[j] && out.rows[j][c] == df.rows[i][c] {
      OtherCellSecond(df, bases, keyBase, keepOriginal, j, c);
    }
  }

  /** `normalize_children`'s output has the split shape. */
  lemma SplitHasShape(df: Table, bases: seq<string>, keyBase: string, keepOriginal: bool)
    requires Covered(df, bases, keyBase)
    ensures SplitShape(Split(df, bases, keyBase, keepOriginal), df, bases, keyBase)
  {
    var out := Split(df, bases, keyBase, keepOriginal);
    SplitLength(df, bases, keyBase, keepOriginal);
    forall j | 0 <= j < |out.rows| ensures RowAt(out, df, bases, keyBase, j) {
      if j < |FirstChildRows(df, keyBase)| {
        FirstRowShape(df, bases, keyBase, keepOriginal, out, j);
      } else {
        SecondRowShape(df, bases, keyBase, keepOriginal, out, j);
      }
    }
  }

  /** No source row gives more than two output rows: one as a first child, one as a second. */
  lemma AtMostTwoPerSourceRow(out: Table, df: Table, bases: seq<string>, keyBase: string, j1: nat, j2: nat, j3: nat)
    requires WellFormed(df) && SplitShape(out, df, bases, keyBase)
    requires j1 < j2 < j3 < |out.rows|
    ensures SrcRowColumn in out.rows[j1] && SrcRowColumn in out.rows[j2] && SrcRowColumn in out.rows[j3]
    ensures !(out.rows[j1][SrcRowColumn] == out.rows[j2][SrcRowColumn] == out.rows[j3][SrcRowColumn])
  {
    assert RowAt(out, df, bases, keyBase, j1) && RowAt(out, df, bases, keyBase, j2) && RowAt(out, df, bases, keyBase, j3);
  }

  // ---------------------------------------------------------------------------
  // Step 5: the self-check
  // ---------------------------------------------------------------------------

  /** The value the self-check expects for a base: the source's "#2" cell, or a missing value (not checked). */
  function Expected(df: Table, i: nat, base: string): Value
    requires WellFormed(df) && i < |df.rows|
  {
    var b := Pair(base).1;
    if b in df.columns then (assert b in df.rows[i]; df.rows[i][b]) else Null
  }

  /** An output row matches source row i's second child on every base whose expected value is not missing. */
  predicate MatchesSecond(row: Row, df: Table, i: nat, bases: seq<string>)
    requires WellFormed(df) && i < |df.rows|
  {
    forall b :: b in bases && Expected(df, i, b) != Null ==> b in row && row[b] == Expected(df, i, b)
  }

  /** The self-check of one source row: some output row with its `_src_row` matches its second child. */
  predicate RowPasses(out: Table, df: Table, i: nat, bases: seq<string>)
    requires WellFormed(df) && i < |df.rows|
  {
    exists j :: 0 <= j < |out.rows| && SrcRowColumn in out.rows[j] && out.rows[j][SrcRowColumn] == Int(i) &&
      MatchesSecond(out.rows[j], df, i, bases)
  }

  /** The failures the self-check collects among the first k source rows, in ascending order. */
  function FailuresBefore(out: Table, df: Table, bases: seq<string>, need: seq<bool>, k: nat): seq<nat>
    requires WellFormed(df) && |need| == |df.rows| && k <= |need|
  {
    if k == 0 then []
    else
      var prev := FailuresBefore(out, df, bases, need, k - 1);
      if need[k - 1] && !RowPasses(out, df, k - 1, bases) then prev + [k - 1] else prev
  }

  /** The collected failures are exactly the needed rows below k that fail, in strictly ascending order. */
  lemma {:induction false} FailuresBeforeMeaning(out: Table, df: Table, bases: seq<string>, need: seq<bool>, k: nat)
    requires WellFormed(df) && |need| == |df.rows| && k <= |need|
    ensures var f := FailuresBefore(out, df, bases, need, k);
      && (forall x: nat :: x in f <==> x < k && need[x] && !RowPasses(out, df, x, bases))
      && (forall a, b :: 0 <= a < b < |f| ==> f[a] < f[b])
      && (forall a :: 0 <= a < |f| ==> f[a] < k)
  {
    if k > 0 {
      FailuresBeforeMeaning(out, df, bases, need, k - 1);
    }
  }

  /** The rows the self-check reports: only when the key's "#2" column exists, those of its non-empty rows that fail. */
  function SelfCheckFailures(out: Table, df: Table, bases: seq<string>, keyBase: string): seq<nat>
    requires WellFormed(df)
  {
    var b := Pair(keyBase).1;
    if b in df.columns then FailuresBefore(out, df, bases, NonEmptyMask(df, b), |df.rows|) else []
  }

  /** The self-check reports, in ascending order, exactly the rows with a second child that no output row matches. */
  lemma SelfCheckFailuresMeaning(out: Table, df: Table, bases: seq<string>, keyBase: string)
    requires WellFormed(df)
    ensures var f := SelfCheckFailures(out, df, bases, keyBase);
      && (forall x: nat :: x in f <==> x < |df.rows| && HasChild(df, keyBase, 2)[x] && !RowPasses(out, df, x, bases))
      && (forall a, b :: 0 <= a < b < |f| ==> f[a] < f[b])
  {
    var b := Pair(keyBase).1;
    if b in df.columns {
      FailuresBeforeMeaning(out, df, bases, NonEmptyMask(df, b), |df.rows|);
    }
  }

  /**
   * The self-check is a theorem: in a frame of the split shape every source
   * row with a second child has an output row with its `_src_row` whose bases
   * carry that child's "#2" values, so the check never reports a row.
   */
  lemma SelfCheckHolds(out: Table, df: Table, bases: seq<string>, keyBase: string)
    requires WellFormed(df) && SplitShape(out, df, bases, keyBase)
    ensures forall i :: 0 <= i < |df.rows| && HasChild(df, keyBase, 2)[i] ==> RowPasses(out, df, i, bases)
    ensures SelfCheckFailures(out, df, bases, keyBase) == []
  {
    forall i | 0 <= i < |df.rows| && HasChild(df, keyBase, 2)[i] ensures RowPasses(out, df, i, bases) {
      SecondChildPasses(out, df, bases, keyBase, i);
    }
    var b := Pair(keyBase).1;
    if b in df.columns {
      FailuresNone(out, df, bases, NonEmptyMask(df, b), |df.rows|);
    }
  }

  /** When every needed row among the first k passes, the self-check collects nothing. */
  lemma {:induction false} FailuresNone(out: Table, df: Table, bases: seq<string>, need: seq<bool>, k: nat)
    requires WellFormed(df) && |need| == |df.rows| && k <= |need|
    requires forall x :: 0 <= x < k && need[x] ==> RowPasses(out, df, x, bases)
    ensures FailuresBefore(out, df, bases, need, k) == []
  {
    if k > 0 {
      FailuresNone(out, df, bases, need, k - 1);
    }
  }

  /** The output row of source row i's second child passes row i's check. */
  lemma SecondChildPasses(out: Table, df: Table, bases: seq<string>, keyBase: string, i: nat)
    requires WellFormed(df) && SplitShape(out, df, bases, keyBase)
    requires i < |df.rows| && HasChild(df, keyBase, 2)[i]
    ensures RowPasses(out, df, i, bases)
  {
    var p1, p2 := FirstChildRows(df, keyBase), SecondChildRows(df, keyBase);
    PositionsComplete(HasChild(df, keyBase, 2), i);
    var q :| 0 <= q < |p2| && p2[q] == i;
    var j := |p1| + q;
    assert RowAt(out, df, bases, keyBase, j);
    assert MatchesSecond(out.rows[j], df, i, bases);
  }

  /** The frame `normalize_children` builds passes its own self-check. */
  lemma SplitPassesSelfCheck(df: Table, bases: seq<string>, keyBase: string, keepOriginal: bool)
    requires Covered(df, bases, keyBase)
    ensures SelfCheckFailures(Split(df, bases, keyBase, keepOriginal), df, bases, keyBase) == []
  {
    SplitHasShape(df, bases, keyBase, keepOriginal);
    SelfCheckHolds(Split(df, bases, keyBase, keepOriginal), df, bases, keyBase);
  }

  /** A configuration is covered when no label ends in "1" or "2" and none is `_src_row`. */
  lemma ValidConfigByLastChar(bases: seq<string>, keyBase: string)
    requires SrcRowColumn !in bases
    requires forall x :: x in bases ==> |x| > 0 && x[|x| - 1] != '1' && x[|x| - 1] != '2'
    requires |keyBase| > 0 && keyBase[|keyBase| - 1] != '1' && keyBase[|keyBase| - 1] != '2'
    ensures ValidConfig(bases, keyBase)
  {
    forall y: string ensures Pair(y).0[|Pair(y).0| - 1] == '1' && Pair(y).1[|Pair(y).1| - 1] == '2' {
      PairShape(y);
    }
  }

  /** The default bases end in ")" or "а", and none is `_src_row`. */
  lemma DefaultBasesShape()
    ensures forall x :: x in DefaultBases ==> |x| > 0 && x[|x| - 1] != '1' && x[|x| - 1] != '2' && x != SrcRowColumn
  {
    var d := DefaultBases;
    assert d[0][|d[0]| - 1] == ')' && d[1][|d[1]| - 1] == ')';
    assert d[2][|d[2]| - 1] == 'а' && d[3][|d[3]| - 1] == 'а';
    assert SrcRowColumn[0] == '_';
    assert d[0][0] != '_' && d[1][0] != '_' && d[2][0] != '_' && d[3][0] != '_';
  }

  /** The default configuration is one the model covers. */
  lemma DefaultConfigCovered()
    ensures ValidConfig(DefaultBases, DefaultKeyBase)
  {
    DefaultBasesShape();
    assert DefaultKeyBase == DefaultBases[0];
    ValidConfigByLastChar(DefaultBases, DefaultKeyBase);
  }

  // ---------------------------------------------------------------------------
  // `normalize_children`, step by step
  // ---------------------------------------------------------------------------

  /** Step 0 on a table whose normalised headers are valid yields a frame the model covers. */
  lemma SourceFrameCovered(t: Table, nfkc: string -> string, bases: seq<string>, keyBase: string)
    requires WellFormed(t) && ValidHeaders(Headers(t, nfkc), bases) && ValidConfig(bases, keyBase)
    ensures Covered(SourceFrame(t, nfkc), bases, keyBase)
  {
    var df := SourceFrame(t, nfkc);
    var hs := Headers(t, nfkc);
    assert SrcRowColumn in df.columns by {
      assert SrcRowColumn in ColumnSet(df.columns);
    }
    forall b | b in bases ensures !(b in df.columns && Pair(b).0 in df.columns) {
      PairShape(b);
      assert Pair(b).0[|Pair(b).0| - 1] == '1';
      assert Pair(b).0 != SrcRowColumn;
      assert b in df.columns <==> b in ColumnSet(df.columns);
      assert Pair(b).0 in df.columns <==> Pair(b).0 in ColumnSet(df.columns);
      assert b in ColumnSet(hs) ==> b in hs;
      assert Pair(b).0 in ColumnSet(hs) ==> Pair(b).0 in hs;
    }
  }

  /** Step 2's loop: overwrite each base from its "#2" column, in order. */
  method OverwriteLoop(df: Table, bases: seq<string>) returns (df2: Table)
    requires WellFormed(df)
    ensures df2 == OverwriteBases(df, bases)
  {
    df2 := df;
    for k := 0 to |bases|
      invariant WellFormed(df2) && df2 == OverwriteBases(df, bases[..k])
    {
      assert bases[..k + 1][..k] == bases[..k];
      df2 := OverwriteStep(df2, bases[k]);
    }
    assert bases[..|bases|] == bases;
  }

  /** Steps 0-4: the frame `normalize_children` builds, before the self-check. */
  method BuildOutput(df: Table, bases: seq<string>, keyBase: string, keepOriginal: bool) returns (out: Table)
    requires Covered(df, bases, keyBase)
    ensures out == Split(df, bases, keyBase, keepOriginal)
  {
    var df1 := ChildOneView(df, bases);
    var df2 := OverwriteLoop(df, bases);
    var mask1 := HasChild(df1, keyBase, 1);
    var mask2 := HasChild(df2, keyBase, 2);
    out := Concat(SelectRows(df1, mask1), SelectRows(df2, mask2));
    if !keepOriginal {
      out := DropColumns(out, PairLabels(bases));
    }
  }

  /** The search of one expected row in `out_by_src`: some output row with its `_src_row` matches it. */
  method FindSecondChild(out: Table, df: Table, i: nat, bases: seq<string>) returns (ok: bool)
    requires WellFormed(df) && i < |df.rows|
    ensures ok == RowPasses(out, df, i, bases)
  {
    ok := false;
    var j := 0;
    while j < |out.rows| && !ok
      invariant 0 <= j <= |out.rows|
      invariant ok ==> RowPasses(out, df, i, bases)
      invariant !ok ==> forall j' :: 0 <= j' < j ==>
        !(SrcRowColumn in out.rows[j'] && out.rows[j'][SrcRowColumn] == Int(i) && MatchesSecond(out.rows[j'], df, i, bases))
    {
      var row := out.rows[j];
      if SrcRowColumn in row && row[SrcRowColumn] == Int(i) && MatchesSecond(row, df, i, bases) {
        ok := true;
      }
      j := j + 1;
    }
  }

  /** Step 5: the source rows with a non-empty "#2" key cell that no output row matches. */
  method SelfCheck(out: Table, df: Table, bases: seq<string>, keyBase: string) returns (failures: seq<nat>)
    requires WellFormed(df)
    ensures failures == SelfCheckFailures(out, df, bases, keyBase)
  {
    failures := [];
    var b := Pair(keyBase).1;
    if b in df.columns {
      var need := NonEmptyMask(df, b);
      for k := 0 to |df.rows|
        invariant failures == FailuresBefore(out, df, bases, need, k)
      {
        if need[k] {
          var ok := FindSecondChild(out, df, k, bases);
          if !ok {
            failures := failures + [k];
          }
        }
      }
    }
  }

  /**
   * `normalize_children`: the split frame, or the self-check's exception when
   * `strict_check` is set and some second child is missing from it. On the
   * tables the model covers the exception is never raised.
   */
  method NormalizeChildren(t: Table, nfkc: string -> string, bases: seq<string>, keyBase: string,
                           keepOriginal: bool, strictCheck: bool) returns (r: Result<Table, SelfCheckError>)
    requires WellFormed(t) && ValidHeaders(Headers(t, nfkc), bases) && ValidConfig(bases, keyBase)
    ensures var df := SourceFrame(t, nfkc);
      Covered(df, bases, keyBase) &&
      var out := Split(df, bases, keyBase, keepOriginal);
      var f := SelfCheckFailures(out, df, bases, keyBase);
      r == if strictCheck && f != [] then Err(SelfCheckFailed(f)) else Ok(out)
  {
    var df := SourceFrame(t, nfkc);
    SourceFrameCovered(t, nfkc, bases, keyBase);
    var out := BuildOutput(df, bases, keyBase, keepOriginal);
    var failures := SelfCheck(out, df, bases, keyBase);
    if strictCheck && failures != [] {
      return Err(SelfCheckFailed(failures));
    }
    return Ok(out);
  }

  /** On the tables the model covers, `normalize_children` never raises: its self-check finds nothing. */
  lemma NormalizeChildrenSucceeds(t: Table, nfkc: string -> string, bases: seq<string>, keyBase: string, keepOriginal: bool)
    requires WellFormed(t) && ValidHeaders(Headers(t, nfkc), bases) && ValidConfig(bases, keyBase)
    ensures var df := SourceFrame(t, nfkc);
      Covered(df, bases, keyBase) && SelfCheckFailures(Split(df, bases, keyBase, keepOriginal), df, bases, keyBase) == []
  {
    SourceFrameCovered(t, nfkc, bases, keyBase);
    SplitPassesSelfCheck(SourceFrame(t, nfkc), bases, keyBase, keepOriginal);
  }
}
