/**
 * Similarity grouping (src/estxl/analysis.py): rows that share a normalised
 * value in some column form a candidate group; candidates with the same member
 * set are merged and numbered in order of discovery; each candidate's common
 * columns are re-validated, the members' other values listed, every pair of
 * members scored, and the group kept when some pair reaches the cutoff.
 *
 * Rows are identified by their position 0..n-1. A score is kept as the pair
 * (matches, denom) rather than as a rounded percentage, and the cutoff is a
 * real number compared by cross-multiplication.
 */
module Analysis {
  import opened Wrappers
  import opened Records

  // ---------------------------------------------------------------------------
  // Value normalisation (`_norm`)
  // ---------------------------------------------------------------------------

  /** Lower case for the Latin and Cyrillic capitals; every other character is left alone. */
  function LowerChar(c: char): (r: char)
    ensures IsSpace(r) <==> IsSpace(c)
  {
    if 'A' <= c <= 'Z' then (c as int + 32) as char
    else if 'А' <= c <= 'Я' then (c as int + 32) as char
    else if c == 'Ё' then 'ё'
    else c
  }

  /** `s.lower()`. */
  function Lower(s: string): (r: string)
    ensures |r| == |s|
  {
    if s == [] then [] else Lower(s[..|s| - 1]) + [LowerChar(s[|s| - 1])]
  }

  /** Lower case works character by character. */
  lemma {:induction false} LowerChars(s: string)
    ensures forall k :: 0 <= k < |s| ==> Lower(s)[k] == LowerChar(s[k])
  {
    if s != [] {
      LowerChars(s[..|s| - 1]);
    }
  }

  /** The two spellings of "no" that `_norm` treats as a missing answer. */
  predicate IsNo(s: string) {
    s == "Нет" || s == "нет"
  }

  /**
   * `_norm`: None for a missing value, for a blank one and for exactly "Нет" or
   * "нет"; otherwise the stripped text in lower case.
   */
  function Norm(v: Value): Option<string> {
    if v.Null? then None
    else
      var s := Strip(Show(v));
      if s == "" || IsNo(s) then None else Some(Lower(s))
  }

  /**
   * What `_norm` promises: None exactly for a missing value, a blank one, or
   * an exact "Нет"/"нет" after stripping; any other value gives its stripped,
   * lower-cased text, which is non-empty and neither starts nor ends with
   * whitespace.
   */
  lemma NormMeaning(v: Value)
    ensures Norm(v).None? <==> v.Null? || AllSpace(Show(v)) || IsNo(Strip(Show(v)))
    ensures Norm(v).Some? ==> var r := Norm(v).value;
      && r == Lower(Strip(Show(v)))
      && r != [] && !IsSpace(r[0]) && !IsSpace(r[|r| - 1])
  {
    StripEmpty(Show(v));
    LowerChars(Strip(Show(v)));
  }

  /** Surrounding blanks do not hide a "no": the stripped text is compared. */
  lemma NormNoStripped()
    ensures Norm(Text(" нет ")) == None && Norm(Text("Нет")) == None
  {
    var w := " нет ";
    assert TrimLeft(w) == "нет " by {
      assert IsSpace(w[0]) && w[1..] == "нет ";
      assert !IsSpace("нет "[0]);
    }
    assert TrimRight("нет ") == "нет" by {
      var u := "нет ";
      assert IsSpace(u[|u| - 1]) && u[..|u| - 1] == "нет";
      assert !IsSpace("нет"[2]);
    }
    assert Strip(w) == "нет";
    assert !IsSpace("Нет"[0]) && !IsSpace("Нет"[2]);
    assert Strip("Нет") == "Нет";
  }

  /** Only the two exact spellings count as "no": other capitalisations are kept as text. */
  lemma NormNoIsCaseSensitive()
    ensures Norm(Text("НЕТ")) == Some("нет")
  {
    var w := "НЕТ";
    assert !IsSpace(w[0]) && !IsSpace(w[2]);
    assert Strip(w) == w;
    assert !IsNo(w) by { assert w[1] != "Нет"[1] && w[1] != "нет"[1]; }
    assert Lower(w[..1]) == "н" by { assert w[..1][..0] == []; }
    assert Lower(w[..2]) == "не" by { assert w[..2][..1] == w[..1]; }
    assert Lower(w) == "нет" by { assert w[..2] == w[..|w| - 1]; }
  }

  // ---------------------------------------------------------------------------
  // Dictionaries in insertion order
  // ---------------------------------------------------------------------------

  /** One key of a dictionary and its value. */
  datatype Cell = Cell(key: string, value: Value)

  /** The keys of a dictionary, in insertion order. */
  function KeysOf(d: seq<Cell>): (ks: seq<string>)
    ensures |ks| == |d| && forall i :: 0 <= i < |d| ==> ks[i] == d[i].key
  {
    seq(|d|, i requires 0 <= i < |d| => d[i].key)
  }

  /** No key occurs twice. */
  predicate UniqueKeys(d: seq<Cell>) {
    forall i, j :: 0 <= i < j < |d| ==> d[i].key != d[j].key
  }

  /** `d[k] = v`: replace the value in place when k is a key, else append it. */
  function Assign(d: seq<Cell>, k: string, v: Value): (r: seq<Cell>)
    ensures k in KeysOf(d) ==> |r| == |d| && KeysOf(r) == KeysOf(d)
    ensures k !in KeysOf(d) ==> r == d + [Cell(k, v)]
    ensures forall i :: 0 <= i < |r| && r[i].key == k ==> r[i].value == v
    ensures forall i :: 0 <= i < |d| && d[i].key != k ==> r[i] == d[i]
    ensures UniqueKeys(d) ==> UniqueKeys(r)
  {
    if k in KeysOf(d) then seq(|d|, i requires 0 <= i < |d| => if d[i].key == k then Cell(k, v) else d[i])
    else d + [Cell(k, v)]
  }

  // ---------------------------------------------------------------------------
  // Cells of the frame, and ordered row lists
  // ---------------------------------------------------------------------------

  /** `df.at[r, c]`; a position or label the frame lacks reads as missing. */
  function At(t: Table, r: nat, c: string): Value {
    if r < |t.rows| && c in t.rows[r] then t.rows[r][c] else Null
  }

  /** `df[c].apply(_norm)`. */
  function NormColumn(norm: Value -> Option<string>, t: Table, c: string): (ns: seq<Option<string>>)
    ensures |ns| == |t.rows|
    ensures forall k :: 0 <= k < |ns| ==> ns[k] == norm(At(t, k, c))
  {
    seq(|t.rows|, k requires 0 <= k < |t.rows| => norm(At(t, k, c)))
  }

  predicate Increasing(s: seq<nat>) {
    forall i, j :: 0 <= i < j < |s| ==> s[i] < s[j]
  }

  /** `frozenset(s)`. */
  function Members(s: seq<nat>): set<nat> {
    set x | x in s
  }

  /** An increasing list is determined by its elements, so `sorted(idxs)` of an increasing list is the list itself. */
  lemma {:induction false} IncreasingSetEq(a: seq<nat>, b: seq<nat>)
    requires Increasing(a) && Increasing(b) && Members(a) == Members(b)
    ensures a == b
  {
    assert |b| > 0 ==> b[0] in Members(b);
    if a != [] {
      assert a[0] in Members(b);
      assert b != [];
      assert b[0] in Members(a);
      var i :| 0 <= i < |a| && a[i] == b[0];
      var j :| 0 <= j < |b| && b[j] == a[0];
      assert a[0] <= a[i] && b[0] <= b[j];
      assert a[0] == b[0];
      assert Members(a[1..]) == Members(b[1..]) by {
        forall x | x in a[1..] ensures x in b[1..] {
          var p :| 1 <= p < |a| && a[p] == x;
          assert x in Members(b);
          var q :| 0 <= q < |b| && b[q] == x;
          assert q != 0;
        }
        forall x | x in b[1..] ensures x in a[1..] {
          var q :| 1 <= q < |b| && b[q] == x;
          assert x in Members(a);
          var p :| 0 <= p < |a| && a[p] == x;
          assert p != 0;
        }
      }
      IncreasingSetEq(a[1..], b[1..]);
      assert a == [a[0]] + a[1..] && b == [b[0]] + b[1..];
    }
  }

  // ---------------------------------------------------------------------------
  // Phase A, per column: `buckets.setdefault(val, []).append(idx)`
  // ---------------------------------------------------------------------------

  /** One entry of `buckets`: a normalised value and the rows that have it, in order. */
  datatype Bucket = Bucket(value: string, rows: seq<nat>)

  /** The place of `v` among the bucket keys, or |bs| when it is not a key. */
  function FindBucket(bs: seq<Bucket>, v: string): (i: nat)
    ensures i <= |bs|
    ensures i < |bs| ==> bs[i].value == v
    ensures i == |bs| ==> forall j :: 0 <= j < |bs| ==> bs[j].value != v
  {
    if bs == [] then 0
    else if bs[0].value == v then 0
    else 1 + FindBucket(bs[1..], v)
  }

  /** `buckets.setdefault(v, []).append(k)`. */
  function AddToBucket(bs: seq<Bucket>, v: string, k: nat): (r: seq<Bucket>)
    requires forall j :: 0 <= j < |bs| ==> bs[j].rows != []
    ensures forall j :: 0 <= j < |r| ==> r[j].rows != []
  {
    var i := FindBucket(bs, v);
    if i < |bs| then bs[i := Bucket(v, bs[i].rows + [k])] else bs + [Bucket(v, [k])]
  }

  /** The buckets of one normalised column after its first |ns| rows. */
  function BucketsOf(ns: seq<Option<string>>): (bs: seq<Bucket>)
    ensures forall j :: 0 <= j < |bs| ==> bs[j].rows != []
  {
    if ns == [] then []
    else
      var bs := BucketsOf(ns[..|ns| - 1]);
      match ns[|ns| - 1]
      case None => bs
      case Some(v) => AddToBucket(bs, v, |ns| - 1)
  }

  /** Which rows of the column normalise to `v`. */
  function MaskOf(ns: seq<Option<string>>, v: string): (m: seq<bool>)
    ensures |m| == |ns| && forall k :: 0 <= k < |ns| ==> (m[k] <==> ns[k] == Some(v))
  {
    seq(|ns|, k requires 0 <= k < |ns| => ns[k] == Some(v))
  }

  lemma MaskSnoc(ns: seq<Option<string>>, v: string)
    requires ns != []
    ensures var p := Positions(MaskOf(ns[..|ns| - 1], v));
      Positions(MaskOf(ns, v)) == if ns[|ns| - 1] == Some(v) then p + [|ns| - 1] else p
  {
    assert MaskOf(ns, v)[..|ns| - 1] == MaskOf(ns[..|ns| - 1], v);
  }

  predicate DistinctValues(bs: seq<Bucket>) {
    forall i, j :: 0 <= i < j < |bs| ==> bs[i].value != bs[j].value
  }

  /** No bucket key occurs twice. */
  lemma {:induction false} BucketsDistinct(ns: seq<Option<string>>)
    ensures DistinctValues(BucketsOf(ns))
  {
    if ns != [] {
      var init := ns[..|ns| - 1];
      BucketsDistinct(init);
      var bs0 := BucketsOf(init);
      if ns[|ns| - 1].Some? {
        var v := ns[|ns| - 1].value;
        var i := FindBucket(bs0, v);
        if i < |bs0| {
          var bs := BucketsOf(ns);
          assert bs == bs0[i := Bucket(v, bs0[i].rows + [|ns| - 1])];
          forall a, b | 0 <= a < b < |bs| ensures bs[a].value != bs[b].value {
            assert bs[a].value == bs0[a].value && bs[b].value == bs0[b].value;
          }
        } else {
          assert BucketsOf(ns) == bs0 + [Bucket(v, [|ns| - 1])];
        }
      }
    }
  }

  /** Each bucket lists, in increasing order, exactly the rows of `ns` whose value is its key. */
  predicate ExactRows(bs: seq<Bucket>, ns: seq<Option<string>>) {
    forall j :: 0 <= j < |bs| ==> bs[j].rows == Positions(MaskOf(ns, bs[j].value))
  }

  lemma {:induction false} BucketsRows(ns: seq<Option<string>>)
    ensures ExactRows(BucketsOf(ns), ns)
  {
    if ns != [] {
      var init := ns[..|ns| - 1];
      BucketsRows(init);
      BucketsDistinct(init);
      var bs := BucketsOf(ns);
      forall j | 0 <= j < |bs| ensures bs[j].rows == Positions(MaskOf(ns, bs[j].value)) {
        BucketRowStep(ns, j);
      }
    }
  }

  /** One row more: the bucket of the last value gains that row and no other bucket changes. */
  lemma BucketRowStep(ns: seq<Option<string>>, j: nat)
    requires ns != [] && j < |BucketsOf(ns)|
    requires ExactRows(BucketsOf(ns[..|ns| - 1]), ns[..|ns| - 1])
    requires DistinctValues(BucketsOf(ns[..|ns| - 1]))
    ensures BucketsOf(ns)[j].rows == Positions(MaskOf(ns, BucketsOf(ns)[j].value))
  {
    var init := ns[..|ns| - 1];
    var last := |ns| - 1;
    var bs0 := BucketsOf(init);
    var bs := BucketsOf(ns);
    var v := bs[j].value;
    MaskSnoc(ns, v);
    if ns[last].Some? {
      var w := ns[last].value;
      var i := FindBucket(bs0, w);
      if i < |bs0| {
        assert bs == bs0[i := Bucket(w, bs0[i].rows + [last])];
        if j != i {
          assert bs[j] == bs0[j];
          assert w != v by {
            if i < j { assert bs0[i].value != bs0[j].value; } else { assert bs0[j].value != bs0[i].value; }
          }
        }
      } else {
        assert bs == bs0 + [Bucket(w, [last])];
        if j < |bs0| {
          assert bs[j] == bs0[j];
        } else {
          var p := Positions(MaskOf(init, w));
          if p != [] {
            BucketsCover(init, p[0]);
          }
        }
      }
    } else {
      assert bs == bs0;
    }
  }

  /** Every non-None value of the column has a bucket. */
  lemma {:induction false} BucketsCover(ns: seq<Option<string>>, k: nat)
    requires k < |ns| && ns[k].Some?
    ensures FindBucket(BucketsOf(ns), ns[k].value) < |BucketsOf(ns)|
  {
    var init := ns[..|ns| - 1];
    var bs0 := BucketsOf(init);
    var bs := BucketsOf(ns);
    var i := FindBucket(bs0, ns[k].value);
    if k < |ns| - 1 {
      assert init[k] == ns[k];
      BucketsCover(init, k);
      assert bs[i].value == ns[k].value;
    } else if i == |bs0| {
      assert bs[|bs0|].value == ns[k].value;
    } else {
      assert bs[i].value == ns[k].value;
    }
  }

  // ---------------------------------------------------------------------------
  // Phase A, across columns: `groups_map`, keyed by member set
  // ---------------------------------------------------------------------------

  /**
   * One entry of `groups_map`: its key (the member set), the members in
   * increasing order, and the common columns with their representative values.
   */
  datatype Candidate = Candidate(members: set<nat>, rows: seq<nat>, common: seq<Cell>)

  /** The place of `key` among the keys of `groups_map`, or |gm| when it is not a key. */
  function FindCandidate(gm: seq<Candidate>, key: set<nat>): (i: nat)
    ensures i <= |gm|
    ensures i < |gm| ==> gm[i].members == key
    ensures i == |gm| ==> forall j :: 0 <= j < |gm| ==> gm[j].members != key
  {
    if gm == [] then 0
    else if gm[0].members == key then 0
    else 1 + FindCandidate(gm[1..], key)
  }

  /**
   * One bucket `idxs` of column c that is large enough: `setdefault` on its
   * member set (a new entry takes `sorted(idxs)`, which is `idxs` itself since
   * buckets list rows in increasing order), then `common[c]` := the raw value
   * of the bucket's first row.
   */
  function MergeBucket(gm: seq<Candidate>, t: Table, c: string, idxs: seq<nat>): seq<Candidate>
    requires idxs != []
  {
    var key := Members(idxs);
    var i := FindCandidate(gm, key);
    var rec := if i < |gm| then gm[i] else Candidate(key, idxs, []);
    var rec' := rec.(common := Assign(rec.common, c, At(t, idxs[0], c)));
    if i < |gm| then gm[i := rec'] else gm + [rec']
  }

  /** The buckets of column c, in order, merged into `groups_map`; those below `minSize` are skipped. */
  function MergeColumn(gm: seq<Candidate>, t: Table, c: string, bs: seq<Bucket>, minSize: int): seq<Candidate>
    requires forall j :: 0 <= j < |bs| ==> bs[j].rows != []
  {
    if bs == [] then gm
    else
      var g := MergeColumn(gm, t, c, bs[..|bs| - 1], minSize);
      var b := bs[|bs| - 1];
      if |b.rows| < minSize then g else MergeBucket(g, t, c, b.rows)
  }

  /** `groups_map` after phase A has gone through the comparison columns `cols`. */
  function Candidates(norm: Value -> Option<string>, t: Table, cols: seq<string>, minSize: int): seq<Candidate> {
    if cols == [] then []
    else
      var c := cols[|cols| - 1];
      MergeColumn(Candidates(norm, t, cols[..|cols| - 1], minSize), t, c, BucketsOf(NormColumn(norm, t, c)), minSize)
  }

  /**
   * Column c splits the rows as `rows` does: the first of `rows` has a
   * normalised value there, and a row has that same value exactly when it is
   * one of `rows`.
   */
  predicate SameNorm(norm: Value -> Option<string>, t: Table, rows: seq<nat>, c: string)
    requires rows != []
  {
    && norm(At(t, rows[0], c)).Some?
    && forall k :: 0 <= k < |t.rows| ==> (k in rows <==> norm(At(t, k, c)) == norm(At(t, rows[0], c)))
  }

  /** A common column of a candidate: the members are its bucket, and the representative is the first member's raw value. */
  predicate CommonOK(norm: Value -> Option<string>, t: Table, rows: seq<nat>, cell: Cell)
    requires rows != []
  {
    cell.value == At(t, rows[0], cell.key) && SameNorm(norm, t, rows, cell.key)
  }

  /** What every entry of `groups_map` satisfies. */
  ghost predicate CandidateOK(norm: Value -> Option<string>, t: Table, minSize: int, cols: seq<string>, g: Candidate) {
    && g.rows != [] && |g.rows| >= minSize && Increasing(g.rows)
    && (forall i :: 0 <= i < |g.rows| ==> g.rows[i] < |t.rows|)
    && g.members == Members(g.rows)
    && g.common != [] && UniqueKeys(g.common)
    && forall j :: 0 <= j < |g.common| ==> g.common[j].key in cols && CommonOK(norm, t, g.rows, g.common[j])
  }

  ghost predicate CandidatesOK(norm: Value -> Option<string>, t: Table, minSize: int, cols: seq<string>, gm: seq<Candidate>) {
    && (forall i :: 0 <= i < |gm| ==> CandidateOK(norm, t, minSize, cols, gm[i]))
    && forall i, j :: 0 <= i < j < |gm| ==> gm[i].members != gm[j].members
  }

  /** A bucket of a column: increasing rows of the frame, and the column splits the rows as the bucket does. */
  lemma BucketSameNorm(norm: Value -> Option<string>, t: Table, c: string, v: string)
    requires Positions(MaskOf(NormColumn(norm, t, c), v)) != []
    ensures var rows := Positions(MaskOf(NormColumn(norm, t, c), v));
      && Increasing(rows) && (forall i :: 0 <= i < |rows| ==> rows[i] < |t.rows|)
      && SameNorm(norm, t, rows, c)
  {
    var ns := NormColumn(norm, t, c);
    var m := MaskOf(ns, v);
    var rows := Positions(m);
    assert norm(At(t, rows[0], c)) == Some(v);
    forall k | 0 <= k < |t.rows| ensures k in rows <==> norm(At(t, k, c)) == Some(v) {
      if norm(At(t, k, c)) == Some(v) {
        PositionsComplete(m, k);
      }
    }
  }

  /** Merging one large-enough bucket keeps every entry of `groups_map` as described and the keys distinct. */
  lemma MergeBucketOK(norm: Value -> Option<string>, gm: seq<Candidate>, t: Table, minSize: int, cols: seq<string>, c: string, idxs: seq<nat>)
    requires CandidatesOK(norm, t, minSize, cols, gm) && c in cols
    requires idxs != [] && |idxs| >= minSize && Increasing(idxs)
    requires (forall i :: 0 <= i < |idxs| ==> idxs[i] < |t.rows|) && SameNorm(norm, t, idxs, c)
    ensures CandidatesOK(norm, t, minSize, cols, MergeBucket(gm, t, c, idxs))
  {
    var key := Members(idxs);
    var i := FindCandidate(gm, key);
    var rep := At(t, idxs[0], c);
    var r := MergeBucket(gm, t, c, idxs);
    if i < |gm| {
      var g := gm[i];
      IncreasingSetEq(g.rows, idxs);
      var g' := g.(common := Assign(g.common, c, rep));
      assert r == gm[i := g'];
      forall j | 0 <= j < |g'.common| ensures g'.common[j].key in cols && CommonOK(norm, t, g'.rows, g'.common[j]) {
        if g'.common[j].key != c {
          assert g'.common[j] == g.common[j];
        }
      }
      assert CandidateOK(norm, t, minSize, cols, g');
    } else {
      var g' := Candidate(key, idxs, [Cell(c, rep)]);
      assert Assign([], c, rep) == [Cell(c, rep)] by { assert |KeysOf([])| == 0; }
      assert CandidateOK(norm, t, minSize, cols, g');
    }
  }

  /** Merging the buckets of one column keeps `groups_map` as described. */
  lemma {:induction false} MergeColumnOK(norm: Value -> Option<string>, gm: seq<Candidate>, t: Table, minSize: int, cols: seq<string>, c: string, bs: seq<Bucket>)
    requires CandidatesOK(norm, t, minSize, cols, gm) && c in cols
    requires forall j :: 0 <= j < |bs| ==> bs[j].rows != []
    requires forall j :: 0 <= j < |bs| ==> bs[j].rows == Positions(MaskOf(NormColumn(norm, t, c), bs[j].value))
    ensures CandidatesOK(norm, t, minSize, cols, MergeColumn(gm, t, c, bs, minSize))
  {
    if bs != [] {
      var b := bs[|bs| - 1];
      MergeColumnOK(norm, gm, t, minSize, cols, c, bs[..|bs| - 1]);
      if |b.rows| >= minSize {
        BucketSameNorm(norm, t, c, b.value);
        MergeBucketOK(norm, MergeColumn(gm, t, c, bs[..|bs| - 1], minSize), t, minSize, cols, c, b.rows);
      }
    }
  }

  /** A description that holds for some comparison columns holds for more. */
  lemma CandidatesWiden(norm: Value -> Option<string>, t: Table, minSize: int, cols: seq<string>, more: seq<string>, gm: seq<Candidate>)
    requires CandidatesOK(norm, t, minSize, cols, gm) && forall c :: c in cols ==> c in more
    ensures CandidatesOK(norm, t, minSize, more, gm)
  {
    forall i | 0 <= i < |gm| ensures CandidateOK(norm, t, minSize, more, gm[i]) {
      assert CandidateOK(norm, t, minSize, cols, gm[i]);
    }
  }

  /**
   * Every candidate has at least `minSize` members (and at least one), listed
   * in increasing order; a non-empty set of common columns, each one of `cols`;
   * on each common column all members share one non-None normalised value and
   * no other row has it; the stored representative is the raw value of the
   * first member; and no two candidates have the same member set.
   */
  lemma {:induction false} CandidatesAreOK(norm: Value -> Option<string>, t: Table, cols: seq<string>, minSize: int)
    ensures CandidatesOK(norm, t, minSize, cols, Candidates(norm, t, cols, minSize))
  {
    if cols != [] {
      var init := cols[..|cols| - 1];
      var c := cols[|cols| - 1];
      CandidatesAreOK(norm, t, init, minSize);
      CandidatesWiden(norm, t, minSize, init, cols, Candidates(norm, t, init, minSize));
      var ns := NormColumn(norm, t, c);
      BucketsRows(ns);
      MergeColumnOK(norm, Candidates(norm, t, init, minSize), t, minSize, cols, c, BucketsOf(ns));
    }
  }

  /** The rows whose value in column c normalises to v, in order: the bucket of v. */
  function BucketOf(norm: Value -> Option<string>, t: Table, c: string, v: string): (rows: seq<nat>)
    ensures forall k :: 0 <= k < |t.rows| ==> (k in rows <==> norm(At(t, k, c)) == Some(v))
  {
    var rows := Positions(MaskOf(NormColumn(norm, t, c), v));
    forall k | 0 <= k < |t.rows| ensures k in rows <==> norm(At(t, k, c)) == Some(v) {
      if norm(At(t, k, c)) == Some(v) {
        PositionsComplete(MaskOf(NormColumn(norm, t, c), v), k);
      }
    }
    rows
  }

  /** Some entry of `groups_map` has the member set `key` and the column c among its common columns. */
  predicate Listed(gm: seq<Candidate>, key: set<nat>, c: string) {
    exists i :: 0 <= i < |gm| && gm[i].members == key && c in KeysOf(gm[i].common)
  }

  /** `d[k] = v` keeps every key of d, and k is a key afterwards. */
  lemma AssignKeys(d: seq<Cell>, k: string, v: Value, x: string)
    requires x in KeysOf(d) || x == k
    ensures x in KeysOf(Assign(d, k, v))
  {
    var r := Assign(d, k, v);
    if k !in KeysOf(d) {
      if x == k {
        assert KeysOf(r)[|d|] == k;
      } else {
        var i :| 0 <= i < |d| && KeysOf(d)[i] == x;
        assert KeysOf(r)[i] == x;
      }
    }
  }

  /** Merging a bucket keeps every entry's member set and common columns. */
  lemma MergeBucketKeeps(gm: seq<Candidate>, t: Table, c: string, idxs: seq<nat>, key: set<nat>, x: string)
    requires idxs != [] && Listed(gm, key, x)
    ensures Listed(MergeBucket(gm, t, c, idxs), key, x)
  {
    var i := FindCandidate(gm, Members(idxs));
    var r := MergeBucket(gm, t, c, idxs);
    var p :| 0 <= p < |gm| && gm[p].members == key && x in KeysOf(gm[p].common);
    if p == i {
      AssignKeys(gm[i].common, c, At(t, idxs[0], c), x);
      assert r[p].members == key && x in KeysOf(r[p].common);
    } else {
      assert r[p] == gm[p];
    }
  }

  /** After merging a bucket, an entry has the bucket's member set and c among its common columns. */
  lemma MergeBucketAdds(gm: seq<Candidate>, t: Table, c: string, idxs: seq<nat>)
    requires idxs != []
    ensures Listed(MergeBucket(gm, t, c, idxs), Members(idxs), c)
  {
    var i := FindCandidate(gm, Members(idxs));
    var r := MergeBucket(gm, t, c, idxs);
    var rec := if i < |gm| then gm[i] else Candidate(Members(idxs), idxs, []);
    AssignKeys(rec.common, c, At(t, idxs[0], c), c);
    assert r[i].members == Members(idxs) && c in KeysOf(r[i].common);
  }

  /** Merging the buckets of a column keeps every entry's member set and common columns. */
  lemma {:induction false} MergeColumnKeeps(gm: seq<Candidate>, t: Table, c: string, bs: seq<Bucket>, minSize: int, key: set<nat>, x: string)
    requires forall j :: 0 <= j < |bs| ==> bs[j].rows != []
    requires Listed(gm, key, x)
    ensures Listed(MergeColumn(gm, t, c, bs, minSize), key, x)
  {
    if bs != [] {
      var b := bs[|bs| - 1];
      MergeColumnKeeps(gm, t, c, bs[..|bs| - 1], minSize, key, x);
      if |b.rows| >= minSize {
        MergeBucketKeeps(MergeColumn(gm, t, c, bs[..|bs| - 1], minSize), t, c, b.rows, key, x);
      }
    }
  }

  /** Every bucket of at least `minSize` rows ends up as an entry with c among its common columns. */
  lemma {:induction false} MergeColumnAdds(gm: seq<Candidate>, t: Table, c: string, bs: seq<Bucket>, minSize: int, j: nat)
    requires forall j :: 0 <= j < |bs| ==> bs[j].rows != []
    requires j < |bs| && |bs[j].rows| >= minSize
    ensures Listed(MergeColumn(gm, t, c, bs, minSize), Members(bs[j].rows), c)
  {
    var init := bs[..|bs| - 1];
    var b := bs[|bs| - 1];
    var g := MergeColumn(gm, t, c, init, minSize);
    if j == |bs| - 1 {
      MergeBucketAdds(g, t, c, b.rows);
    } else {
      assert init[j] == bs[j];
      MergeColumnAdds(gm, t, c, init, minSize, j);
      if |b.rows| >= minSize {
        MergeBucketKeeps(g, t, c, b.rows, Members(bs[j].rows), c);
      }
    }
  }

  /**
   * The converse of `CandidatesAreOK`: rows that share a normalised value on a
   * comparison column, at least `minSize` of them, form an entry of
   * `groups_map` with that column among its common columns.
   */
  lemma {:induction false} CandidatesComplete(norm: Value -> Option<string>, t: Table, cols: seq<string>, minSize: int, m: nat, v: string)
    requires m < |cols|
    requires var rows := BucketOf(norm, t, cols[m], v); rows != [] && |rows| >= minSize
    ensures Listed(Candidates(norm, t, cols, minSize), Members(BucketOf(norm, t, cols[m], v)), cols[m])
  {
    var init := cols[..|cols| - 1];
    var c := cols[|cols| - 1];
    var bs := BucketsOf(NormColumn(norm, t, c));
    if m == |cols| - 1 {
      var ns := NormColumn(norm, t, c);
      var rows := BucketOf(norm, t, c, v);
      assert ns[rows[0]] == Some(v);
      BucketsCover(ns, rows[0]);
      BucketsRows(ns);
      var j := FindBucket(bs, v);
      assert bs[j].rows == rows;
      MergeColumnAdds(Candidates(norm, t, init, minSize), t, c, bs, minSize, j);
    } else {
      assert init[m] == cols[m];
      CandidatesComplete(norm, t, init, minSize, m, v);
      MergeColumnKeeps(Candidates(norm, t, init, minSize), t, c, bs, minSize, Members(BucketOf(norm, t, cols[m], v)), cols[m]);
    }
  }

  /** The entry of `CandidatesComplete` lists the bucket's rows themselves, in order. */
  lemma CandidateOfBucket(norm: Value -> Option<string>, t: Table, cols: seq<string>, minSize: int, m: nat, v: string)
    requires m < |cols|
    requires var rows := BucketOf(norm, t, cols[m], v); rows != [] && |rows| >= minSize
    ensures HasEntry(Candidates(norm, t, cols, minSize), BucketOf(norm, t, cols[m], v), cols[m])
  {
    var rows := BucketOf(norm, t, cols[m], v);
    var cands := Candidates(norm, t, cols, minSize);
    CandidatesComplete(norm, t, cols, minSize, m, v);
    var k :| 0 <= k < |cands| && cands[k].members == Members(rows) && cols[m] in KeysOf(cands[k].common);
    assert Increasing(cands[k].rows) && cands[k].members == Members(cands[k].rows) by {
      CandidatesAreOK(norm, t, cols, minSize);
      assert CandidateOK(norm, t, minSize, cols, cands[k]);
    }
    IncreasingSetEq(cands[k].rows, rows);
    assert 0 <= k < |cands| && cands[k].rows == rows && cols[m] in KeysOf(cands[k].common);
  }

  /** Some entry of `groups_map` lists exactly `rows` and has c among its common columns. */
  predicate HasEntry(gm: seq<Candidate>, rows: seq<nat>, c: string) {
    exists k :: 0 <= k < |gm| && gm[k].rows == rows && c in KeysOf(gm[k].common)
  }

  // ---------------------------------------------------------------------------
  // Phase B: re-validation of the common columns
  // ---------------------------------------------------------------------------

  /** `any(_norm(v) is None for v in df.loc[rows, c])`. */
  predicate HasMissing(norm: Value -> Option<string>, t: Table, rows: seq<nat>, c: string) {
    exists i :: 0 <= i < |rows| && norm(At(t, rows[i], c)).None?
  }

  /** `to_delete`: the keys of `common`, in order, on which some member is missing. */
  function StaleKeys(norm: Value -> Option<string>, t: Table, rows: seq<nat>, common: seq<Cell>): (ks: seq<string>)
    ensures |ks| <= |common|
  {
    if common == [] then []
    else
      var ks := StaleKeys(norm, t, rows, common[..|common| - 1]);
      var c := common[|common| - 1].key;
      if HasMissing(norm, t, rows, c) then ks + [c] else ks
  }

  /** The keys marked for deletion are exactly the keys on which some member is missing. */
  lemma {:induction false} StaleKeysMembers(norm: Value -> Option<string>, t: Table, rows: seq<nat>, common: seq<Cell>)
    ensures forall c :: c in StaleKeys(norm, t, rows, common) <==> c in KeysOf(common) && HasMissing(norm, t, rows, c)
  {
    if common != [] {
      var init := common[..|common| - 1];
      assert KeysOf(common) == KeysOf(init) + [common[|common| - 1].key];
      StaleKeysMembers(norm, t, rows, init);
    }
  }

  /** Nothing is marked for deletion when every key is present on every member. */
  lemma {:induction false} StaleKeysNone(norm: Value -> Option<string>, t: Table, rows: seq<nat>, common: seq<Cell>)
    requires forall j :: 0 <= j < |common| ==> !HasMissing(norm, t, rows, common[j].key)
    ensures StaleKeys(norm, t, rows, common) == []
  {
    if common != [] {
      StaleKeysNone(norm, t, rows, common[..|common| - 1]);
    }
  }

  /** `del d[k]`: the cells of `d`, in order, except the one for `k`. */
  function RemoveKey(d: seq<Cell>, k: string): (r: seq<Cell>)
    ensures |r| <= |d|
  {
    if d == [] then []
    else if d[0].key == k then RemoveKey(d[1..], k)
    else [d[0]] + RemoveKey(d[1..], k)
  }

  lemma {:induction false} RemoveKeyMembers(d: seq<Cell>, k: string)
    ensures forall x :: x in RemoveKey(d, k) <==> x in d && x.key != k
  {
    if d != [] {
      RemoveKeyMembers(d[1..], k);
      assert forall x :: x in d <==> x == d[0] || x in d[1..];
    }
  }

  /** `for col in to_delete: del common[col]`. */
  function RemoveKeys(d: seq<Cell>, ks: seq<string>): (r: seq<Cell>)
    ensures |r| <= |d|
  {
    if ks == [] then d
    else RemoveKey(RemoveKeys(d, ks[..|ks| - 1]), ks[|ks| - 1])
  }

  lemma {:induction false} RemoveKeysMembers(d: seq<Cell>, ks: seq<string>)
    ensures forall x :: x in RemoveKeys(d, ks) <==> x in d && x.key !in ks
  {
    if ks != [] {
      var init := ks[..|ks| - 1];
      RemoveKeysMembers(d, init);
      RemoveKeyMembers(RemoveKeys(d, init), ks[|ks| - 1]);
      assert forall c :: c in ks <==> c in init || c == ks[|ks| - 1];
    }
  }

  /** `common` after re-validation. */
  function Revalidated(norm: Value -> Option<string>, t: Table, rows: seq<nat>, common: seq<Cell>): seq<Cell> {
    RemoveKeys(common, StaleKeys(norm, t, rows, common))
  }

  /** Re-validation keeps exactly the common cells on which no member is missing. */
  lemma RevalidatedMeaning(norm: Value -> Option<string>, t: Table, rows: seq<nat>, common: seq<Cell>)
    ensures forall x :: x in Revalidated(norm, t, rows, common) <==> x in common && !HasMissing(norm, t, rows, x.key)
  {
    StaleKeysMembers(norm, t, rows, common);
    RemoveKeysMembers(common, StaleKeys(norm, t, rows, common));
    forall x | x in common ensures x.key in KeysOf(common) {
      var i :| 0 <= i < |common| && common[i] == x;
    }
  }

  /** A common column of a phase A candidate is present on every member. */
  lemma CommonNotMissing(norm: Value -> Option<string>, t: Table, minSize: int, cols: seq<string>, g: Candidate, j: nat)
    requires CandidateOK(norm, t, minSize, cols, g) && j < |g.common|
    ensures !HasMissing(norm, t, g.rows, g.common[j].key)
  {
    var c := g.common[j].key;
    assert CommonOK(norm, t, g.rows, g.common[j]);
    forall i | 0 <= i < |g.rows| ensures norm(At(t, g.rows[i], c)).Some? {
      assert g.rows[i] in g.rows;
    }
  }

  /** Given phase A, re-validation removes nothing: each common column is non-None on every member. */
  lemma RevalidateNoop(norm: Value -> Option<string>, t: Table, minSize: int, cols: seq<string>, g: Candidate)
    requires CandidateOK(norm, t, minSize, cols, g)
    ensures Revalidated(norm, t, g.rows, g.common) == g.common
  {
    forall j | 0 <= j < |g.common| ensures !HasMissing(norm, t, g.rows, g.common[j].key) {
      CommonNotMissing(norm, t, minSize, cols, g, j);
    }
    StaleKeysNone(norm, t, g.rows, g.common);
  }

  // ---------------------------------------------------------------------------
  // Phase B: differences
  // ---------------------------------------------------------------------------

  /** `diff_cols`: the comparison columns that are not common. */
  function DiffColumns(cols: seq<string>, common: seq<Cell>): (dcs: seq<string>)
    ensures forall c :: c in dcs <==> c in cols && c !in KeysOf(common)
  {
    Without(cols, ColumnSet(KeysOf(common)))
  }

  /** The entry for row r after the first |dcs| difference columns: `row` first, then each present value. */
  function Entry(norm: Value -> Option<string>, t: Table, r: nat, dcs: seq<string>): (e: seq<Cell>)
    ensures e != [] && e[0].key == "row" && UniqueKeys(e)
    ensures "row" !in dcs ==> e[0] == Cell("row", Int(r))
  {
    if dcs == [] then [Cell("row", Int(r))]
    else
      var e := Entry(norm, t, r, dcs[..|dcs| - 1]);
      var c := dcs[|dcs| - 1];
      assert "row" !in dcs ==> "row" !in dcs[..|dcs| - 1];
      if norm(At(t, r, c)).None? then e else Assign(e, c, At(t, r, c))
  }

  /** `diffs`: one entry per member, in member order. */
  function Differences(norm: Value -> Option<string>, t: Table, rows: seq<nat>, dcs: seq<string>): (ds: seq<seq<Cell>>)
    ensures |ds| == |rows|
  {
    seq(|rows|, i requires 0 <= i < |rows| => Entry(norm, t, rows[i], dcs))
  }

  /**
   * After `row`, a difference entry holds only difference columns whose
   * normalised value is present, each with its raw value (unless a difference
   * column is itself called "row").
   */
  predicate PresentCells(norm: Value -> Option<string>, t: Table, r: nat, dcs: seq<string>, e: seq<Cell>) {
    forall j :: 1 <= j < |e| ==> e[j].key in dcs && norm(At(t, r, e[j].key)).Some? && e[j].value == At(t, r, e[j].key)
  }

  lemma {:induction false} EntryCells(norm: Value -> Option<string>, t: Table, r: nat, dcs: seq<string>)
    requires "row" !in dcs
    ensures PresentCells(norm, t, r, dcs, Entry(norm, t, r, dcs))
  {
    if dcs != [] {
      var init := dcs[..|dcs| - 1];
      var c := dcs[|dcs| - 1];
      assert forall x :: x in init ==> x in dcs;
      EntryCells(norm, t, r, init);
      var e0 := Entry(norm, t, r, init);
      var e := Entry(norm, t, r, dcs);
      if norm(At(t, r, c)).Some? {
        assert e == Assign(e0, c, At(t, r, c));
        forall j | 1 <= j < |e| ensures e[j].key in dcs && norm(At(t, r, e[j].key)).Some? && e[j].value == At(t, r, e[j].key) {
          if e[j].key != c { assert e[j] == e0[j]; }
        }
      }
    }
  }

  /** Every difference column whose normalised value is present is a key of the entry. */
  lemma {:induction false} EntryCovers(norm: Value -> Option<string>, t: Table, r: nat, dcs: seq<string>, x: string)
    requires x in dcs && norm(At(t, r, x)).Some?
    ensures x in KeysOf(Entry(norm, t, r, dcs))
  {
    var init := dcs[..|dcs| - 1];
    var c := dcs[|dcs| - 1];
    var e0 := Entry(norm, t, r, init);
    var e := Entry(norm, t, r, dcs);
    if x != c {
      assert x in init;
      EntryCovers(norm, t, r, init, x);
      var i :| 0 <= i < |e0| && KeysOf(e0)[i] == x;
      if norm(At(t, r, c)).Some? {
        assert e == Assign(e0, c, At(t, r, c));
        assert e[i] == e0[i];
      }
      assert KeysOf(e)[i] == x;
    } else {
      assert e == Assign(e0, c, At(t, r, c));
      if c in KeysOf(e0) {
        var i :| 0 <= i < |e0| && KeysOf(e0)[i] == c;
        assert KeysOf(e)[i] == c;
      } else {
        assert KeysOf(e)[|e0|] == c;
      }
    }
  }

  // ---------------------------------------------------------------------------
  // Phase B: pairwise scores
  // ---------------------------------------------------------------------------

  /** `itertools.combinations(rows, 2)`, in its order. */
  function Pairs(rows: seq<nat>): (ps: seq<(nat, nat)>)
  {
    if rows == [] then []
    else seq(|rows| - 1, j requires 0 <= j < |rows| - 1 => (rows[0], rows[j + 1])) + Pairs(rows[1..])
  }

  /** There are n(n-1)/2 pairs. */
  lemma {:induction false} PairsCount(rows: seq<nat>)
    ensures |Pairs(rows)| == |rows| * (|rows| - 1) / 2
  {
    if rows != [] {
      var n := |rows|;
      PairsCount(rows[1..]);
      assert (n - 1) * (n - 2) + 2 * (n - 1) == n * (n - 1);
    }
  }

  /** Every pair is some (rows[i], rows[j]) with i < j. */
  lemma {:induction false} PairsSound(rows: seq<nat>, k: nat)
    requires k < |Pairs(rows)|
    ensures exists i, j :: 0 <= i < j < |rows| && Pairs(rows)[k] == (rows[i], rows[j])
  {
    var n := |rows|;
    var tl := rows[1..];
    var head := seq(n - 1, j requires 0 <= j < n - 1 => (rows[0], rows[j + 1]));
    assert Pairs(rows) == head + Pairs(tl);
    if k < n - 1 {
      assert Pairs(rows)[k] == (rows[0], rows[k + 1]);
    } else {
      PairsSound(tl, k - (n - 1));
      var i, j :| 0 <= i < j < |tl| && Pairs(tl)[k - (n - 1)] == (tl[i], tl[j]);
      assert Pairs(rows)[k] == (rows[i + 1], rows[j + 1]);
    }
  }

  /** Every (rows[i], rows[j]) with i < j is a pair. */
  lemma {:induction false} PairsComplete(rows: seq<nat>, i: nat, j: nat)
    requires i < j < |rows|
    ensures (rows[i], rows[j]) in Pairs(rows)
  {
    var n := |rows|;
    var tl := rows[1..];
    var head := seq(n - 1, j requires 0 <= j < n - 1 => (rows[0], rows[j + 1]));
    assert Pairs(rows) == head + Pairs(tl);
    if i == 0 {
      assert head[j - 1] == (rows[i], rows[j]);
    } else {
      PairsComplete(tl, i - 1, j - 1);
    }
  }

  /** The `(matches, denom)` of one pair. */
  datatype Score = Score(matches: nat, denom: nat)

  /**
   * The counters after the first |cols| comparison columns: `denom` counts the
   * columns where both normalised values are present, `matches` those where
   * they are also equal.
   */
  function ScoreOf(norm: Value -> Option<string>, t: Table, cols: seq<string>, a: nat, b: nat): (s: Score)
    ensures s.matches <= s.denom <= |cols|
  {
    if cols == [] then Score(0, 0)
    else
      var s := ScoreOf(norm, t, cols[..|cols| - 1], a, b);
      var c := cols[|cols| - 1];
      var na := norm(At(t, a, c));
      var nb := norm(At(t, b, c));
      if na.None? || nb.None? then s
      else Score(s.matches + (if na == nb then 1 else 0), s.denom + 1)
  }

  /** `round(100.0 * matches / denom, 2)` without the rounding. */
  function Percent(s: Score): (p: real)
    requires 0 < s.denom && s.matches <= s.denom
    ensures 0.0 <= p <= 100.0 && (p == 100.0 <==> s.matches == s.denom)
  {
    var m, d := s.matches as real, s.denom as real;
    assert 0.0 <= m <= d && d > 0.0;
    var q := 100.0 * m / d;
    assert q * d == 100.0 * m;
    q
  }

  /** The score reaches a cutoff exactly when 100·matches ≥ cutoff·denom. */
  lemma PercentReaches(s: Score, minPct: real)
    requires 0 < s.denom && s.matches <= s.denom
    ensures Percent(s) >= minPct <==> 100.0 * (s.matches as real) >= minPct * (s.denom as real)
  {
    var d := s.denom as real;
    var p := Percent(s);
    assert p * d == 100.0 * (s.matches as real);
    if p >= minPct {
      assert p * d >= minPct * d;
    }
    if p < minPct {
      assert p * d < minPct * d;
    }
  }

  /** The score does not depend on the order of the pair. */
  lemma {:induction false} ScoreSymmetric(norm: Value -> Option<string>, t: Table, cols: seq<string>, a: nat, b: nat)
    ensures ScoreOf(norm, t, cols, a, b) == ScoreOf(norm, t, cols, b, a)
  {
    if cols != [] {
      ScoreSymmetric(norm, t, cols[..|cols| - 1], a, b);
    }
  }

  /** `denom` is zero exactly when no column has both values present. */
  lemma {:induction false} ScoreDenomZero(norm: Value -> Option<string>, t: Table, cols: seq<string>, a: nat, b: nat)
    ensures ScoreOf(norm, t, cols, a, b).denom == 0 <==>
      forall c :: c in cols ==> norm(At(t, a, c)).None? || norm(At(t, b, c)).None?
  {
    if cols != [] {
      var init := cols[..|cols| - 1];
      ScoreDenomZero(norm, t, init, a, b);
      assert forall c :: c in cols <==> c in init || c == cols[|cols| - 1];
    }
  }

  /** Two rows that agree on every column score 100%. */
  lemma {:induction false} ScoreAllEqual(norm: Value -> Option<string>, t: Table, cols: seq<string>, a: nat, b: nat)
    requires forall c :: c in cols ==> norm(At(t, a, c)) == norm(At(t, b, c))
    ensures ScoreOf(norm, t, cols, a, b).matches == ScoreOf(norm, t, cols, a, b).denom
  {
    if cols != [] {
      var init := cols[..|cols| - 1];
      assert forall c :: c in init ==> c in cols;
      ScoreAllEqual(norm, t, init, a, b);
    }
  }

  /** A column where both rows have the same present value counts as a match. */
  lemma {:induction false} ScoreShared(norm: Value -> Option<string>, t: Table, cols: seq<string>, a: nat, b: nat, c: string)
    requires c in cols && norm(At(t, a, c)).Some? && norm(At(t, a, c)) == norm(At(t, b, c))
    ensures ScoreOf(norm, t, cols, a, b).matches >= 1
  {
    var init := cols[..|cols| - 1];
    if c != cols[|cols| - 1] {
      assert c in init;
      ScoreShared(norm, t, init, a, b, c);
    }
  }

  // ---------------------------------------------------------------------------
  // Phase B: one candidate, and all of them
  // ---------------------------------------------------------------------------

  /** A row of `sim_df`; its `similarity_%` is `Percent(score)`. */
  datatype SimRow = SimRow(group: nat, rowA: nat, rowB: nat, score: Score)

  /** An entry of the returned `groups`. */
  datatype Group = Group(id: nat, rows: seq<nat>, common: seq<Cell>, differences: seq<seq<Cell>>)

  /** The pair rows of group `gid` after the first |ps| pairs: a pair with no column to compare is skipped. */
  function PairRows(norm: Value -> Option<string>, t: Table, cols: seq<string>, gid: nat, ps: seq<(nat, nat)>): seq<SimRow> {
    if ps == [] then []
    else
      var sims := PairRows(norm, t, cols, gid, ps[..|ps| - 1]);
      var (a, b) := ps[|ps| - 1];
      var s := ScoreOf(norm, t, cols, a, b);
      if s.denom > 0 then sims + [SimRow(gid, a, b, s)] else sims
  }

  /** The pair's percentage reaches the cutoff. */
  predicate ReachesOne(r: SimRow, minPct: real) {
    0 < r.score.denom && r.score.matches <= r.score.denom && Percent(r.score) >= minPct
  }

  /** `any(p >= min_similarity_pct for p in local_sims)`. */
  predicate Reaches(sims: seq<SimRow>, minPct: real) {
    sims != [] && (Reaches(sims[..|sims| - 1], minPct) || ReachesOne(sims[|sims| - 1], minPct))
  }

  /** Some pair score reaches the cutoff exactly when one of the rows does. */
  lemma {:induction false} ReachesIff(sims: seq<SimRow>, minPct: real)
    ensures Reaches(sims, minPct) <==> exists i :: 0 <= i < |sims| && ReachesOne(sims[i], minPct)
  {
    if sims != [] {
      var init := sims[..|sims| - 1];
      ReachesIff(init, minPct);
      if Reaches(init, minPct) {
        var i :| 0 <= i < |init| && ReachesOne(init[i], minPct);
        assert sims[i] == init[i];
      }
      if exists i :: 0 <= i < |sims| && ReachesOne(sims[i], minPct) {
        var i :| 0 <= i < |sims| && ReachesOne(sims[i], minPct);
        if i < |init| { assert init[i] == sims[i]; }
      }
    }
  }

  /** A lower cutoff is reached whenever a higher one is. */
  lemma {:induction false} ReachesLower(sims: seq<SimRow>, p1: real, p2: real)
    requires p1 <= p2 && Reaches(sims, p2)
    ensures Reaches(sims, p1)
  {
    if !ReachesOne(sims[|sims| - 1], p2) {
      ReachesLower(sims[..|sims| - 1], p1, p2);
    }
  }

  /** What one pass of the `enumerate` loop adds: at most one group, and its pair rows. */
  datatype Step = Step(group: Option<Group>, sims: seq<SimRow>)

  /** The group record for members `rows` with common columns `common`. */
  function GroupFor(norm: Value -> Option<string>, t: Table, cols: seq<string>, gid: nat, rows: seq<nat>, common: seq<Cell>): Group {
    Group(gid, rows, common, Differences(norm, t, rows, DiffColumns(cols, common)))
  }

  /** One pass of the loop, for candidate `g` numbered `gid`. */
  function Process(norm: Value -> Option<string>, t: Table, cols: seq<string>, gid: nat, g: Candidate, minPct: real): Step {
    if g.common == [] then Step(None, [])
    else
      var common := Revalidated(norm, t, g.rows, g.common);
      if common == [] then Step(None, [])
      else
        var sims := PairRows(norm, t, cols, gid, Pairs(g.rows));
        if minPct > 0.0 && !Reaches(sims, minPct) then Step(None, sims)
        else Step(Some(GroupFor(norm, t, cols, gid, g.rows, common)), sims)
  }

  /** The result of `analyze_similarity`: the groups and the rows of `sim_df`. */
  datatype Analysis = Analysis(groups: seq<Group>, sims: seq<SimRow>)

  /** Every pass numbers its group with its own position, from 1. */
  predicate Numbered(steps: seq<Step>) {
    forall i :: 0 <= i < |steps| && steps[i].group.Some? ==> steps[i].group.value.id == i + 1
  }

  /** One pass per entry of `groups_map`, numbered from 1. */
  function Steps(norm: Value -> Option<string>, t: Table, cols: seq<string>, cands: seq<Candidate>, minPct: real): (st: seq<Step>)
    ensures |st| == |cands| && Numbered(st)
  {
    seq(|cands|, i requires 0 <= i < |cands| => Process(norm, t, cols, i + 1, cands[i], minPct))
  }

  /** The `groups` and `sim_rows` lists after the given passes. */
  function Collect(steps: seq<Step>): Analysis {
    if steps == [] then Analysis([], [])
    else
      var res := Collect(steps[..|steps| - 1]);
      var st := steps[|steps| - 1];
      Analysis(res.groups + (if st.group.Some? then [st.group.value] else []), res.sims + st.sims)
  }

  /** `analyze_similarity(df, ignore_cols, min_group_size, min_similarity_pct)`. */
  function Analyze(norm: Value -> Option<string>, t: Table, ignore: set<string>, minSize: int, minPct: real): Analysis {
    var cols := Compared(t, ignore);
    Collect(Steps(norm, t, cols, Candidates(norm, t, cols, minSize), minPct))
  }

  // ---------------------------------------------------------------------------
  // Properties of phase B
  // ---------------------------------------------------------------------------

  /** When every pair has a column to compare, each pair gives one row, in pair order. */
  lemma {:induction false} PairRowsAll(norm: Value -> Option<string>, t: Table, cols: seq<string>, gid: nat, ps: seq<(nat, nat)>)
    requires forall k :: 0 <= k < |ps| ==> ScoreOf(norm, t, cols, ps[k].0, ps[k].1).denom > 0
    ensures var sims := PairRows(norm, t, cols, gid, ps);
      && |sims| == |ps|
      && forall k :: 0 <= k < |ps| ==> sims[k] == SimRow(gid, ps[k].0, ps[k].1, ScoreOf(norm, t, cols, ps[k].0, ps[k].1))
  {
    if ps != [] {
      var init := ps[..|ps| - 1];
      PairRowsAll(norm, t, cols, gid, init);
      var sims := PairRows(norm, t, cols, gid, init);
      var (a, b) := ps[|ps| - 1];
      assert ScoreOf(norm, t, cols, a, b).denom > 0;
      assert PairRows(norm, t, cols, gid, ps) == sims + [SimRow(gid, a, b, ScoreOf(norm, t, cols, a, b))];
      assert forall k :: 0 <= k < |init| ==> ps[k] == init[k];
    }
  }

  /** Two members of a phase A candidate match on its first common column. */
  lemma MembersMatch(norm: Value -> Option<string>, t: Table, minSize: int, cols: seq<string>, g: Candidate, i: nat, j: nat)
    requires CandidateOK(norm, t, minSize, cols, g) && i < |g.rows| && j < |g.rows|
    ensures ScoreOf(norm, t, cols, g.rows[i], g.rows[j]).matches >= 1
  {
    var c := g.common[0].key;
    assert CommonOK(norm, t, g.rows, g.common[0]);
    assert g.rows[i] in g.rows && g.rows[j] in g.rows;
    ScoreShared(norm, t, cols, g.rows[i], g.rows[j], c);
  }

  /** The k-th pair of a phase A candidate: two members in increasing order, with at least one match. */
  lemma PairOfMembers(norm: Value -> Option<string>, t: Table, minSize: int, cols: seq<string>, g: Candidate, k: nat)
    requires CandidateOK(norm, t, minSize, cols, g) && k < |Pairs(g.rows)|
    ensures var (a, b) := Pairs(g.rows)[k];
      a < b && a in g.rows && b in g.rows && ScoreOf(norm, t, cols, a, b).matches >= 1
  {
    PairsSound(g.rows, k);
    var i, j :| 0 <= i < j < |g.rows| && Pairs(g.rows)[k] == (g.rows[i], g.rows[j]);
    MembersMatch(norm, t, minSize, cols, g, i, j);
  }

  /** A row of `sim_df` for group `gid` whose rows are members of `g` in increasing order, with at least one match. */
  predicate MemberPairRow(gid: nat, g: Candidate, r: SimRow) {
    r.group == gid && r.rowA < r.rowB && r.rowA in g.rows && r.rowB in g.rows
    && 1 <= r.score.matches <= r.score.denom
  }

  /**
   * In a candidate that survives re-validation every pair of members shares
   * a common column, so every pair gets a row: n(n-1)/2 rows, each for two
   * members in increasing order, with at least one match.
   */
  lemma CandidatePairRows(norm: Value -> Option<string>, t: Table, minSize: int, cols: seq<string>, gid: nat, g: Candidate)
    requires CandidateOK(norm, t, minSize, cols, g)
    ensures |PairRows(norm, t, cols, gid, Pairs(g.rows))| == |g.rows| * (|g.rows| - 1) / 2
    ensures forall r :: r in PairRows(norm, t, cols, gid, Pairs(g.rows)) ==> MemberPairRow(gid, g, r)
  {
    var ps := Pairs(g.rows);
    PairsCount(g.rows);
    forall k | 0 <= k < |ps| ensures ScoreOf(norm, t, cols, ps[k].0, ps[k].1).denom > 0 {
      PairOfMembers(norm, t, minSize, cols, g, k);
    }
    PairRowsAll(norm, t, cols, gid, ps);
    var sims := PairRows(norm, t, cols, gid, ps);
    forall r | r in sims ensures MemberPairRow(gid, g, r) {
      var k :| 0 <= k < |sims| && sims[k] == r;
      PairOfMembers(norm, t, minSize, cols, g, k);
    }
  }

  /** The candidate keeps its whole `common` through re-validation. */
  predicate Survives(norm: Value -> Option<string>, t: Table, g: Candidate) {
    g.common != [] && Revalidated(norm, t, g.rows, g.common) == g.common
  }

  /** Given phase A, every candidate survives re-validation. */
  lemma CandidatesSurvive(norm: Value -> Option<string>, t: Table, minSize: int, cols: seq<string>, cands: seq<Candidate>)
    requires CandidatesOK(norm, t, minSize, cols, cands)
    ensures forall k :: 0 <= k < |cands| ==> Survives(norm, t, cands[k])
  {
    forall k | 0 <= k < |cands| ensures Survives(norm, t, cands[k]) {
      RevalidateNoop(norm, t, minSize, cols, cands[k]);
    }
  }

  /**
   * One pass of the loop over a surviving candidate: the pair rows are
   * emitted whatever the cutoff, and the group is returned, with `common`
   * intact, exactly when the cutoff is off or some pair reaches it.
   */
  lemma ProcessSurvivor(norm: Value -> Option<string>, t: Table, cols: seq<string>, gid: nat, g: Candidate, minPct: real)
    requires Survives(norm, t, g)
    ensures var st := Process(norm, t, cols, gid, g, minPct);
      && st.sims == PairRows(norm, t, cols, gid, Pairs(g.rows))
      && (st.group.Some? <==> minPct <= 0.0 || Reaches(st.sims, minPct))
      && (st.group.Some? ==> st.group.value == GroupFor(norm, t, cols, gid, g.rows, g.common))
  {
  }

  /**
   * The returned groups are the groups of the passes that kept one, in order:
   * their ids are strictly increasing positions (from 1), with gaps where a
   * pass kept nothing.
   */
  predicate GroupsOf(steps: seq<Step>, gs: seq<Group>) {
    && (forall j :: 0 <= j < |gs| ==> 1 <= gs[j].id <= |steps| && steps[gs[j].id - 1].group == Some(gs[j]))
    && (forall i, j :: 0 <= i < j < |gs| ==> gs[i].id < gs[j].id)
  }

  lemma {:induction false} CollectGroups(steps: seq<Step>)
    requires Numbered(steps)
    ensures GroupsOf(steps, Collect(steps).groups)
  {
    if steps != [] {
      var init := steps[..|steps| - 1];
      CollectGroups(init);
      var gs0 := Collect(init).groups;
      var gs := Collect(steps).groups;
      forall j | 0 <= j < |gs| ensures 1 <= gs[j].id <= |steps| && steps[gs[j].id - 1].group == Some(gs[j]) {
        if j < |gs0| {
          assert gs[j] == gs0[j];
          assert init[gs0[j].id - 1] == steps[gs0[j].id - 1];
        }
      }
    }
  }

  /** One more pass appends its group, if any, and its pair rows. */
  lemma CollectNext(steps: seq<Step>, k: nat)
    requires k < |steps|
    ensures var res := Collect(steps[..k]);
      Collect(steps[..k + 1])
        == Analysis(res.groups + (if steps[k].group.Some? then [steps[k].group.value] else []), res.sims + steps[k].sims)
  {
    assert steps[..k + 1][..k] == steps[..k];
  }

  /** Pass k keeps a group exactly when a returned group has id k+1. */
  lemma {:induction false} CollectKept(steps: seq<Step>, k: nat)
    requires Numbered(steps) && k < |steps|
    ensures (exists j :: 0 <= j < |Collect(steps).groups| && Collect(steps).groups[j].id == k + 1) <==> steps[k].group.Some?
  {
    var init := steps[..|steps| - 1];
    var gs0 := Collect(init).groups;
    var gs := Collect(steps).groups;
    CollectGroups(init);
    assert forall j :: 0 <= j < |gs0| ==> gs[j] == gs0[j] && gs0[j].id <= |init|;
    if k < |init| {
      CollectKept(init, k);
      if |gs| > |gs0| {
        assert gs[|gs0|].id == |steps|;
      }
    } else if steps[k].group.Some? {
      assert gs[|gs0|].id == k + 1;
    } else {
      assert gs == gs0;
    }
  }

  /** When every pass keeps its group, every group is returned, numbered 1, 2, ... */
  lemma {:induction false} CollectAll(steps: seq<Step>)
    requires Numbered(steps) && forall i :: 0 <= i < |steps| ==> steps[i].group.Some?
    ensures var gs := Collect(steps).groups;
      |gs| == |steps| && forall j :: 0 <= j < |gs| ==> gs[j].id == j + 1
  {
    if steps != [] {
      CollectAll(steps[..|steps| - 1]);
    }
  }

  /** Passes that keep no more groups than others (the rest alike) return no more groups. */
  lemma {:induction false} CollectFewer(s1: seq<Step>, s2: seq<Step>)
    requires |s1| == |s2| && forall i :: 0 <= i < |s2| && s2[i].group.Some? ==> s1[i].group == s2[i].group
    ensures forall g :: g in Collect(s2).groups ==> g in Collect(s1).groups
  {
    if s2 != [] {
      var n := |s2| - 1;
      CollectFewer(s1[..n], s2[..n]);
    }
  }

  /** Passes with the same pair rows give the same `sim_rows`. */
  lemma {:induction false} CollectSims(s1: seq<Step>, s2: seq<Step>)
    requires |s1| == |s2| && forall i :: 0 <= i < |s2| ==> s1[i].sims == s2[i].sims
    ensures Collect(s1).sims == Collect(s2).sims
  {
    if s2 != [] {
      var n := |s2| - 1;
      CollectSims(s1[..n], s2[..n]);
    }
  }

  /** The pair rows do not depend on the cutoff: they are emitted before it is applied. */
  lemma SimsIgnoreCutoff(norm: Value -> Option<string>, t: Table, cols: seq<string>, cands: seq<Candidate>, p1: real, p2: real)
    ensures Collect(Steps(norm, t, cols, cands, p1)).sims == Collect(Steps(norm, t, cols, cands, p2)).sims
  {
    CollectSims(Steps(norm, t, cols, cands, p1), Steps(norm, t, cols, cands, p2));
  }

  /** A pass that keeps its group under a cutoff keeps the same group under a lower one. */
  lemma ProcessLower(norm: Value -> Option<string>, t: Table, cols: seq<string>, gid: nat, g: Candidate, p1: real, p2: real)
    requires p1 <= p2 && Process(norm, t, cols, gid, g, p2).group.Some?
    ensures Process(norm, t, cols, gid, g, p1).group == Process(norm, t, cols, gid, g, p2).group
  {
    var sims := Process(norm, t, cols, gid, g, p2).sims;
    if p1 > 0.0 {
      ReachesLower(sims, p1, p2);
    }
  }

  /** Raising the cutoff never adds a returned group. */
  lemma CutoffMonotone(norm: Value -> Option<string>, t: Table, cols: seq<string>, cands: seq<Candidate>, p1: real, p2: real)
    requires p1 <= p2
    ensures forall g :: g in Collect(Steps(norm, t, cols, cands, p2)).groups ==> g in Collect(Steps(norm, t, cols, cands, p1)).groups
  {
    var s1 := Steps(norm, t, cols, cands, p1);
    var s2 := Steps(norm, t, cols, cands, p2);
    forall i | 0 <= i < |s2| && s2[i].group.Some? ensures s1[i].group == s2[i].group {
      ProcessLower(norm, t, cols, i + 1, cands[i], p1, p2);
    }
    CollectFewer(s1, s2);
  }

  /** The candidate keeps its whole `common` through re-validation. */
  predicate AllSurvive(norm: Value -> Option<string>, t: Table, cands: seq<Candidate>) {
    forall k :: 0 <= k < |cands| ==> Survives(norm, t, cands[k])
  }

  /**
   * When every candidate survives re-validation, the returned groups are the
   * candidates their ids number, each with its whole `common` and its
   * differences; candidate k (id k+1) is returned exactly when the cutoff is
   * off or one of its pairs reaches it; and every candidate's pair rows are
   * emitted, returned or not.
   */
  lemma SurvivorStep(norm: Value -> Option<string>, t: Table, cols: seq<string>, cands: seq<Candidate>, minPct: real, k: nat)
    requires AllSurvive(norm, t, cands) && k < |cands|
    ensures var st := Steps(norm, t, cols, cands, minPct)[k];
      && st.sims == PairRows(norm, t, cols, k + 1, Pairs(cands[k].rows))
      && (st.group.Some? <==> minPct <= 0.0 || Reaches(st.sims, minPct))
      && (st.group.Some? ==> st.group.value == GroupFor(norm, t, cols, k + 1, cands[k].rows, cands[k].common))
  {
    ProcessSurvivor(norm, t, cols, k + 1, cands[k], minPct);
  }

  /** Without a positive cutoff every surviving candidate is returned, in order. */
  lemma NoCutoffKeepsAll(norm: Value -> Option<string>, t: Table, cols: seq<string>, cands: seq<Candidate>, minPct: real)
    requires AllSurvive(norm, t, cands) && minPct <= 0.0
    ensures var gs := Collect(Steps(norm, t, cols, cands, minPct)).groups;
      |gs| == |cands| && forall i :: 0 <= i < |gs| ==> gs[i].id == i + 1
  {
    var steps := Steps(norm, t, cols, cands, minPct);
    forall k | 0 <= k < |cands| ensures steps[k].group.Some? {
      SurvivorStep(norm, t, cols, cands, minPct, k);
    }
    CollectAll(steps);
  }

  /** Every row of `sim_rows` comes from one of the passes. */
  lemma {:induction false} CollectSimsFrom(steps: seq<Step>, r: SimRow)
    requires r in Collect(steps).sims
    ensures exists k :: 0 <= k < |steps| && r in steps[k].sims
  {
    var init := steps[..|steps| - 1];
    if r in Collect(init).sims {
      CollectSimsFrom(init, r);
      var k :| 0 <= k < |init| && r in init[k].sims;
      assert steps[k] == init[k];
    } else {
      assert r in steps[|steps| - 1].sims;
    }
  }

  // ---------------------------------------------------------------------------
  // What `analyze_similarity` returns
  // ---------------------------------------------------------------------------

  predicate MemberPairRows(gid: nat, g: Candidate, sims: seq<SimRow>) {
    forall r :: r in sims ==> MemberPairRow(gid, g, r)
  }

  /** Every phase A candidate survives re-validation. */
  lemma CandidatesAllSurvive(norm: Value -> Option<string>, t: Table, cols: seq<string>, minSize: int)
    ensures AllSurvive(norm, t, Candidates(norm, t, cols, minSize))
  {
    CandidatesAreOK(norm, t, cols, minSize);
    CandidatesSurvive(norm, t, minSize, cols, Candidates(norm, t, cols, minSize));
  }

  /** The pair rows of phase A candidate k: one per pair, each for two of its members with at least one match. */
  lemma CandidatePairRowsAt(norm: Value -> Option<string>, t: Table, cols: seq<string>, minSize: int, k: nat)
    requires k < |Candidates(norm, t, cols, minSize)|
    ensures var g := Candidates(norm, t, cols, minSize)[k];
      && |PairRows(norm, t, cols, k + 1, Pairs(g.rows))| == |g.rows| * (|g.rows| - 1) / 2
      && MemberPairRows(k + 1, g, PairRows(norm, t, cols, k + 1, Pairs(g.rows)))
  {
    CandidatesAreOK(norm, t, cols, minSize);
    CandidatePairRows(norm, t, minSize, cols, k + 1, Candidates(norm, t, cols, minSize)[k]);
  }

  /** The comparison columns: the frame's columns in order, without the ignored ones. */
  function Compared(t: Table, ignore: set<string>): (cols: seq<string>)
    ensures forall c :: c in cols <==> c in t.columns && c !in ignore
    ensures InOrder(cols, t.columns)
  {
    WithoutInOrder(t.columns, ignore);
    Without(t.columns, ignore)
  }

  /**
   * A returned group: at least `minSize` members, in increasing order; a
   * non-empty `common`, each key a comparison column, on which every member
   * has the same non-None normalised value and no other row has it, stored
   * with the first member's raw value; and one difference entry per member.
   */
  ghost predicate ValidGroup(norm: Value -> Option<string>, t: Table, minSize: int, cols: seq<string>, g: Group) {
    && CandidateOK(norm, t, minSize, cols, Candidate(Members(g.rows), g.rows, g.common))
    && g.differences == Differences(norm, t, g.rows, DiffColumns(cols, g.common))
  }

  /** The returned groups are valid and numbered by strictly increasing ids between 1 and the number of candidates. */
  lemma AnalyzeGroups(norm: Value -> Option<string>, t: Table, ignore: set<string>, minSize: int, minPct: real)
    ensures var cols := Compared(t, ignore);
      var cands := Candidates(norm, t, cols, minSize);
      var gs := Analyze(norm, t, ignore, minSize, minPct).groups;
      && (forall j :: 0 <= j < |gs| ==> 1 <= gs[j].id <= |cands| && ValidGroup(norm, t, minSize, cols, gs[j]))
      && (forall i, j :: 0 <= i < j < |gs| ==> gs[i].id < gs[j].id)
  {
    var cols := Compared(t, ignore);
    var cands := Candidates(norm, t, cols, minSize);
    var steps := Steps(norm, t, cols, cands, minPct);
    CandidatesAreOK(norm, t, cols, minSize);
    CandidatesSurvive(norm, t, minSize, cols, cands);
    CollectGroups(steps);
    var gs := Collect(steps).groups;
    forall j | 0 <= j < |gs| ensures ValidGroup(norm, t, minSize, cols, gs[j]) {
      var k := gs[j].id - 1;
      SurvivorStep(norm, t, cols, cands, minPct, k);
      assert CandidateOK(norm, t, minSize, cols, cands[k]);
    }
  }

  /** The pair rows of pass k are those of candidate k, whatever the cutoff. */
  lemma StepSims(norm: Value -> Option<string>, t: Table, cols: seq<string>, minSize: int, minPct: real, k: nat)
    requires k < |Candidates(norm, t, cols, minSize)|
    ensures var cands := Candidates(norm, t, cols, minSize);
      Steps(norm, t, cols, cands, minPct)[k].sims == PairRows(norm, t, cols, k + 1, Pairs(cands[k].rows))
  {
    var cands := Candidates(norm, t, cols, minSize);
    CandidatesAllSurvive(norm, t, cols, minSize);
    SurvivorStep(norm, t, cols, cands, minPct, k);
  }

  /**
   * Every row of `sim_df` is for two members, in increasing order, of the
   * candidate its group id numbers, with 1 <= matches <= denom.
   */
  lemma AnalyzeSims(norm: Value -> Option<string>, t: Table, ignore: set<string>, minSize: int, minPct: real)
    ensures var cands := Candidates(norm, t, Compared(t, ignore), minSize);
      forall r :: r in Analyze(norm, t, ignore, minSize, minPct).sims ==>
        1 <= r.group <= |cands| && MemberPairRow(r.group, cands[r.group - 1], r)
  {
    var cols := Compared(t, ignore);
    forall r | r in Collect(Steps(norm, t, cols, Candidates(norm, t, cols, minSize), minPct)).sims {
      SimRowOfCandidate(norm, t, cols, minSize, minPct, r);
    }
  }

  /** A row of `sim_rows` is a pair row of the candidate its group id numbers. */
  lemma SimRowOfCandidate(norm: Value -> Option<string>, t: Table, cols: seq<string>, minSize: int, minPct: real, r: SimRow)
    requires r in Collect(Steps(norm, t, cols, Candidates(norm, t, cols, minSize), minPct)).sims
    ensures var cands := Candidates(norm, t, cols, minSize);
      1 <= r.group <= |cands| && MemberPairRow(r.group, cands[r.group - 1], r)
  {
    var steps := Steps(norm, t, cols, Candidates(norm, t, cols, minSize), minPct);
    CollectSimsFrom(steps, r);
    var k :| 0 <= k < |steps| && r in steps[k].sims;
    StepSims(norm, t, cols, minSize, minPct, k);
    CandidatePairRowsAt(norm, t, cols, minSize, k);
  }

  /** Every candidate contributes one pair row for each of its n(n-1)/2 pairs of members. */
  lemma AnalyzePairCount(norm: Value -> Option<string>, t: Table, ignore: set<string>, minSize: int, minPct: real, k: nat)
    requires k < |Candidates(norm, t, Compared(t, ignore), minSize)|
    ensures var cols := Compared(t, ignore);
      var cands := Candidates(norm, t, cols, minSize);
      |Steps(norm, t, cols, cands, minPct)[k].sims| == |cands[k].rows| * (|cands[k].rows| - 1) / 2
  {
    var cols := Compared(t, ignore);
    StepSims(norm, t, cols, minSize, minPct, k);
    CandidatePairRowsAt(norm, t, cols, minSize, k);
  }

  /**
   * The cutoff: candidate k (id k+1) is returned exactly when the cutoff is not
   * positive or one of its pair scores reaches it.
   */
  lemma AnalyzeCutoff(norm: Value -> Option<string>, t: Table, ignore: set<string>, minSize: int, minPct: real, k: nat)
    requires k < |Candidates(norm, t, Compared(t, ignore), minSize)|
    ensures var cols := Compared(t, ignore);
      var cands := Candidates(norm, t, cols, minSize);
      var gs := Analyze(norm, t, ignore, minSize, minPct).groups;
      (exists j :: 0 <= j < |gs| && gs[j].id == k + 1)
        <==> minPct <= 0.0 || Reaches(PairRows(norm, t, cols, k + 1, Pairs(cands[k].rows)), minPct)
  {
    var cols := Compared(t, ignore);
    var cands := Candidates(norm, t, cols, minSize);
    var steps := Steps(norm, t, cols, cands, minPct);
    CandidatesAllSurvive(norm, t, cols, minSize);
    SurvivorStep(norm, t, cols, cands, minPct, k);
    CollectKept(steps, k);
    assert Analyze(norm, t, ignore, minSize, minPct) == Collect(steps);
  }

  /** A candidate that is returned comes back with its own members and its whole `common`. */
  lemma AnalyzeReturns(norm: Value -> Option<string>, t: Table, ignore: set<string>, minSize: int, minPct: real, k: nat)
    requires k < |Candidates(norm, t, Compared(t, ignore), minSize)|
    requires var cols := Compared(t, ignore);
      minPct <= 0.0 || Reaches(PairRows(norm, t, cols, k + 1, Pairs(Candidates(norm, t, cols, minSize)[k].rows)), minPct)
    ensures var cands := Candidates(norm, t, Compared(t, ignore), minSize);
      var gs := Analyze(norm, t, ignore, minSize, minPct).groups;
      exists j :: 0 <= j < |gs| && gs[j].id == k + 1 && gs[j].rows == cands[k].rows && gs[j].common == cands[k].common
  {
    var cols := Compared(t, ignore);
    var cands := Candidates(norm, t, cols, minSize);
    var steps := Steps(norm, t, cols, cands, minPct);
    CandidatesAllSurvive(norm, t, cols, minSize);
    SurvivorStep(norm, t, cols, cands, minPct, k);
    CollectKept(steps, k);
    CollectGroups(steps);
    assert Analyze(norm, t, ignore, minSize, minPct) == Collect(steps);
    var gs := Collect(steps).groups;
    var j :| 0 <= j < |gs| && gs[j].id == k + 1;
    assert steps[k].group == Some(gs[j]);
  }

  /**
   * Rows that share a normalised value on a comparison column, at least
   * `minSize` of them, are candidate k for some k, with that column common;
   * they are returned as group k+1, with that column common, whenever the
   * cutoff is off or one of their pairs reaches it (and only then, by
   * `AnalyzeCutoff`).
   */
  lemma AnalyzeFindsBucket(norm: Value -> Option<string>, t: Table, ignore: set<string>, minSize: int, minPct: real, m: nat, v: string)
    requires m < |Compared(t, ignore)|
    requires var rows := BucketOf(norm, t, Compared(t, ignore)[m], v); rows != [] && |rows| >= minSize
    ensures var cols := Compared(t, ignore);
      var rows := BucketOf(norm, t, cols[m], v);
      var cands := Candidates(norm, t, cols, minSize);
      var gs := Analyze(norm, t, ignore, minSize, minPct).groups;
      exists k :: 0 <= k < |cands| && cands[k].rows == rows && cols[m] in KeysOf(cands[k].common)
        && (minPct <= 0.0 || Reaches(PairRows(norm, t, cols, k + 1, Pairs(rows)), minPct) ==>
              exists j :: 0 <= j < |gs| && gs[j].id == k + 1 && gs[j].rows == rows && cols[m] in KeysOf(gs[j].common))
  {
    var cols := Compared(t, ignore);
    var rows := BucketOf(norm, t, cols[m], v);
    var cands := Candidates(norm, t, cols, minSize);
    CandidateOfBucket(norm, t, cols, minSize, m, v);
    assert HasEntry(cands, rows, cols[m]);
    var k :| 0 <= k < |cands| && cands[k].rows == rows && cols[m] in KeysOf(cands[k].common);
    if minPct <= 0.0 || Reaches(PairRows(norm, t, cols, k + 1, Pairs(rows)), minPct) {
      AnalyzeReturns(norm, t, ignore, minSize, minPct, k);
    }
  }

  /** With a cutoff <= 0 every candidate is returned, numbered 1, 2, ... without gaps. */
  lemma AnalyzeNoCutoff(norm: Value -> Option<string>, t: Table, ignore: set<string>, minSize: int, minPct: real)
    requires minPct <= 0.0
    ensures var gs := Analyze(norm, t, ignore, minSize, minPct).groups;
      |gs| == |Candidates(norm, t, Compared(t, ignore), minSize)| && forall j :: 0 <= j < |gs| ==> gs[j].id == j + 1
  {
    var cols := Compared(t, ignore);
    var cands := Candidates(norm, t, cols, minSize);
    CandidatesAllSurvive(norm, t, cols, minSize);
    NoCutoffKeepsAll(norm, t, cols, cands, minPct);
  }

  /** Raising the cutoff never adds a group, and the pair rows are the same whatever the cutoff. */
  lemma AnalyzeCutoffMonotone(norm: Value -> Option<string>, t: Table, ignore: set<string>, minSize: int, p1: real, p2: real)
    requires p1 <= p2
    ensures forall g :: g in Analyze(norm, t, ignore, minSize, p2).groups ==> g in Analyze(norm, t, ignore, minSize, p1).groups
    ensures Analyze(norm, t, ignore, minSize, p1).sims == Analyze(norm, t, ignore, minSize, p2).sims
  {
    var cols := Compared(t, ignore);
    var cands := Candidates(norm, t, cols, minSize);
    CutoffMonotone(norm, t, cols, cands, p1, p2);
    SimsIgnoreCutoff(norm, t, cols, cands, p1, p2);
  }

  // ---------------------------------------------------------------------------
  // The procedure itself, loop by loop
  // ---------------------------------------------------------------------------

  /** `cols = [c for c in df.columns if c not in ignore]`. */
  method ComparisonColumns(t: Table, ignore: set<string>) returns (cols: seq<string>)
    ensures cols == Compared(t, ignore)
  {
    cols := [];
    for m := 0 to |t.columns|
      invariant cols == Without(t.columns[..m], ignore)
    {
      assert t.columns[..m + 1][..m] == t.columns[..m];
      if t.columns[m] !in ignore {
        cols := cols + [t.columns[m]];
      }
    }
    assert t.columns[..|t.columns|] == t.columns;
  }

  /** The `buckets` loop of column c: every row with a normalised value is appended to its value's bucket. */
  method BuildBuckets(norm: Value -> Option<string>, t: Table, c: string) returns (bs: seq<Bucket>)
    ensures bs == BucketsOf(NormColumn(norm, t, c))
  {
    ghost var ns := NormColumn(norm, t, c);
    bs := [];
    for k := 0 to |t.rows|
      invariant bs == BucketsOf(ns[..k])
    {
      assert ns[..k + 1][..k] == ns[..k];
      var v := norm(At(t, k, c));
      if v.Some? {
        var i := FindBucket(bs, v.value);
        if i < |bs| {
          bs := bs[i := Bucket(v.value, bs[i].rows + [k])];
        } else {
          bs := bs + [Bucket(v.value, [k])];
        }
      }
    }
    assert ns[..|t.rows|] == ns;
  }

  /** Phase A: `groups_map` built column by column, bucket by bucket. */
  method GroupCandidates(norm: Value -> Option<string>, t: Table, cols: seq<string>, minSize: int) returns (gm: seq<Candidate>)
    ensures gm == Candidates(norm, t, cols, minSize)
  {
    gm := [];
    for m := 0 to |cols|
      invariant gm == Candidates(norm, t, cols[..m], minSize)
    {
      var c := cols[m];
      assert cols[..m + 1][..m] == cols[..m] && cols[..m + 1][m] == c;
      var bs := BuildBuckets(norm, t, c);
      gm := MergeBuckets(gm, t, c, bs, minSize);
    }
    assert cols[..|cols|] == cols;
  }

  /** The inner loop of phase A: the buckets of column c merged into `groups_map` in order. */
  method MergeBuckets(g0: seq<Candidate>, t: Table, c: string, bs: seq<Bucket>, minSize: int) returns (gm: seq<Candidate>)
    requires forall j :: 0 <= j < |bs| ==> bs[j].rows != []
    ensures gm == MergeColumn(g0, t, c, bs, minSize)
  {
    gm := g0;
    for j := 0 to |bs|
      invariant gm == MergeColumn(g0, t, c, bs[..j], minSize)
    {
      assert bs[..j + 1][..j] == bs[..j];
      var idxs := bs[j].rows;
      if |idxs| >= minSize {
        gm := MergeOne(gm, t, c, idxs);
      }
    }
    assert bs[..|bs|] == bs;
  }

  /** One `setdefault` plus the assignment of `common[c]`. */
  method MergeOne(g: seq<Candidate>, t: Table, c: string, idxs: seq<nat>) returns (gm: seq<Candidate>)
    requires idxs != []
    ensures gm == MergeBucket(g, t, c, idxs)
  {
    var key := Members(idxs);
    var i := FindCandidate(g, key);
    if i < |g| {
      gm := g[i := g[i].(common := Assign(g[i].common, c, At(t, idxs[0], c)))];
    } else {
      gm := g + [Candidate(key, idxs, Assign([], c, At(t, idxs[0], c)))];
    }
  }

  /** `any(_norm(v) is None for v in df.loc[rows, c])`. */
  method AnyMissing(norm: Value -> Option<string>, t: Table, rows: seq<nat>, c: string) returns (b: bool)
    ensures b == HasMissing(norm, t, rows, c)
  {
    b := false;
    for i := 0 to |rows|
      invariant b <==> exists i' :: 0 <= i' < i && norm(At(t, rows[i'], c)).None?
    {
      if norm(At(t, rows[i], c)).None? {
        b := true;
      }
    }
  }

  /** The re-validation of `common`: collect `to_delete`, then delete each of its keys. */
  method Revalidate(norm: Value -> Option<string>, t: Table, rows: seq<nat>, common: seq<Cell>) returns (kept: seq<Cell>)
    ensures kept == Revalidated(norm, t, rows, common)
  {
    var toDelete := [];
    for j := 0 to |common|
      invariant toDelete == StaleKeys(norm, t, rows, common[..j])
    {
      assert common[..j + 1][..j] == common[..j];
      var missing := AnyMissing(norm, t, rows, common[j].key);
      if missing {
        toDelete := toDelete + [common[j].key];
      }
    }
    assert common[..|common|] == common;
    kept := common;
    for j := 0 to |toDelete|
      invariant kept == RemoveKeys(common, toDelete[..j])
    {
      assert toDelete[..j + 1][..j] == toDelete[..j];
      kept := RemoveKey(kept, toDelete[j]);
    }
    assert toDelete[..|toDelete|] == toDelete;
  }

  /** The `diffs` loop: for each member, `row` and then each difference column with a present value. */
  method BuildDifferences(norm: Value -> Option<string>, t: Table, rows: seq<nat>, dcs: seq<string>) returns (diffs: seq<seq<Cell>>)
    ensures diffs == Differences(norm, t, rows, dcs)
  {
    diffs := [];
    for i := 0 to |rows|
      invariant |diffs| == i && forall i' :: 0 <= i' < i ==> diffs[i'] == Entry(norm, t, rows[i'], dcs)
    {
      var r := rows[i];
      var entry := [Cell("row", Int(r))];
      for j := 0 to |dcs|
        invariant entry == Entry(norm, t, r, dcs[..j])
      {
        assert dcs[..j + 1][..j] == dcs[..j];
        var v := At(t, r, dcs[j]);
        if norm(v).Some? {
          entry := Assign(entry, dcs[j], v);
        }
      }
      assert dcs[..|dcs|] == dcs;
      diffs := diffs + [entry];
    }
  }

  /** The `matches`/`denom` counters of one pair. */
  method ScorePair(norm: Value -> Option<string>, t: Table, cols: seq<string>, a: nat, b: nat) returns (s: Score)
    ensures s == ScoreOf(norm, t, cols, a, b)
  {
    var matches, denom := 0, 0;
    for m := 0 to |cols|
      invariant Score(matches, denom) == ScoreOf(norm, t, cols[..m], a, b)
    {
      assert cols[..m + 1][..m] == cols[..m];
      var na, nb := norm(At(t, a, cols[m])), norm(At(t, b, cols[m]));
      if na.Some? && nb.Some? {
        denom := denom + 1;
        if na == nb {
          matches := matches + 1;
        }
      }
    }
    assert cols[..|cols|] == cols;
    s := Score(matches, denom);
  }

  /** The pairwise loop of group `gid`: one row per pair that has a column to compare. */
  method ScoreGroup(norm: Value -> Option<string>, t: Table, cols: seq<string>, gid: nat, rows: seq<nat>) returns (local: seq<SimRow>)
    ensures local == PairRows(norm, t, cols, gid, Pairs(rows))
  {
    var ps := Pairs(rows);
    local := [];
    for k := 0 to |ps|
      invariant local == PairRows(norm, t, cols, gid, ps[..k])
    {
      assert ps[..k + 1][..k] == ps[..k];
      var (a, b) := ps[k];
      var s := ScorePair(norm, t, cols, a, b);
      if s.denom > 0 {
        local := local + [SimRow(gid, a, b, s)];
      }
    }
    assert ps[..|ps|] == ps;
  }

  /** `any(p >= min_similarity_pct for p in local_sims)`. */
  method AnyReaches(local: seq<SimRow>, minPct: real) returns (b: bool)
    ensures b == Reaches(local, minPct)
  {
    b := false;
    for k := 0 to |local|
      invariant b == Reaches(local[..k], minPct)
    {
      assert local[..k + 1][..k] == local[..k];
      if ReachesOne(local[k], minPct) {
        b := true;
      }
    }
    assert local[..|local|] == local;
  }

  /** `analyze_similarity`: phase A, then one pass per candidate in `groups_map` order. */
  method AnalyzeSimilarity(norm: Value -> Option<string>, t: Table, ignore: set<string>, minSize: int, minPct: real)
    returns (groups: seq<Group>, sims: seq<SimRow>)
    ensures Analysis(groups, sims) == Analyze(norm, t, ignore, minSize, minPct)
  {
    var cols := ComparisonColumns(t, ignore);
    var cands := GroupCandidates(norm, t, cols, minSize);
    ghost var steps := Steps(norm, t, cols, cands, minPct);
    groups, sims := [], [];
    for k := 0 to |cands|
      invariant Analysis(groups, sims) == Collect(steps[..k])
    {
      CollectNext(steps, k);
      var gid := k + 1;
      var g := cands[k];
      assert steps[k] == Process(norm, t, cols, gid, g, minPct);
      if g.common == [] {
        continue;
      }
      var common := Revalidate(norm, t, g.rows, g.common);
      if common == [] {
        continue;
      }
      var diffs := BuildDifferences(norm, t, g.rows, DiffColumns(cols, common));
      var local := ScoreGroup(norm, t, cols, gid, g.rows);
      sims := sims + local;
      var reached := AnyReaches(local, minPct);
      if minPct > 0.0 && !reached {
        continue;
      }
      groups := groups + [Group(gid, g.rows, common, diffs)];
    }
    assert steps[..|cands|] == steps;
  }
}
