/** The two routes the scripts take through the transform: building it from
    the sorted rotation matrix, and undoing it by a walk over the first and
    last columns with every symbol tagged by its rank among equal symbols. */
module BwtInverse {
  import opened Lex
  import opened Sorting
  import opened Counting
  import opened BwtSpec
  import opened BwtTheory

  /** A tagged symbol, the string `letra + str(k)`: the symbol and the
      number of equal symbols before it in its column. */
  type Label = (char, int)

  ghost predicate Distinct<T>(xs: seq<T>) {
    forall i, j :: 0 <= i < j < |xs| ==> xs[i] != xs[j]
  }

  /** The column `xs` with each symbol tagged by its rank. */
  function Labelled(xs: string): (r: seq<Label>)
    ensures |r| == |xs|
  {
    seq(|xs|, i requires 0 <= i < |xs| => (xs[i], Count(xs[..i], xs[i])))
  }

  /** Ranked tags never repeat, and a label's symbol is the column's symbol. */
  lemma LabelledDistinct(xs: string)
    ensures Distinct(Labelled(xs))
    ensures forall i :: 0 <= i < |xs| ==> Labelled(xs)[i].0 == xs[i]
  {
    var r := Labelled(xs);
    forall i, j | 0 <= i < j < |xs| ensures r[i] != r[j] {
      if xs[i] == xs[j] {
        CountStep(xs, xs[i], i);
        CountMonotone(xs, xs[i], i + 1, j);
      }
    }
  }

  // ---------------------------------------------------------------------
  // The walk of `obterSequenciaOriginal`

  /** Where the walk goes from label `l`: the first-column label on the row
      where `l` sits in the last column (`l` itself if it is not there). */
  function Step(first: seq<Label>, last: seq<Label>, l: Label): Label {
    if l in last && FirstIndex(last, l) < |first| then first[FirstIndex(last, l)] else l
  }

  /** The label reached after `k` steps. */
  function StepN(first: seq<Label>, last: seq<Label>, l: Label, k: nat): Label
    decreases k
  {
    if k == 0 then l else StepN(first, last, Step(first, last, l), k - 1)
  }

  /** The symbols collected by `k` steps from `l`, one per label visited. */
  function Walk(first: seq<Label>, last: seq<Label>, l: Label, k: nat): (r: string)
    ensures |r| == k
    ensures k > 0 ==> r[0] == l.0
    decreases k
  {
    if k == 0 then [] else [l.0] + Walk(first, last, Step(first, last, l), k - 1)
  }

  /** A walk of `a + b` steps is the walk of `a` steps followed by the walk
      of `b` steps from where it stopped. */
  lemma {:induction false} WalkSplit(first: seq<Label>, last: seq<Label>, l: Label, a: nat, b: nat)
    ensures Walk(first, last, l, a + b) == Walk(first, last, l, a) + Walk(first, last, StepN(first, last, l, a), b)
    decreases a
  {
    if a > 0 {
      WalkSplit(first, last, Step(first, last, l), a - 1, b);
    }
  }

  /** One more step appends the symbol of the label reached. */
  lemma WalkSnoc(first: seq<Label>, last: seq<Label>, l: Label, a: nat)
    ensures Walk(first, last, l, a + 1) == Walk(first, last, l, a) + [StepN(first, last, l, a).0]
    ensures StepN(first, last, l, a + 1) == Step(first, last, StepN(first, last, l, a))
  {
    WalkSplit(first, last, l, a, 1);
    StepNSnoc(first, last, l, a);
  }

  /** A pass of `obterSequenciaOriginal` meets the current label at row
      `k` of a last column without repeats: the walk records its symbol
      and moves to the first-column label of row `k`. */
  lemma PassMatch(first: seq<Label>, last: seq<Label>, l: Label, a: nat, k: nat)
    requires k < |last| <= |first| && Distinct(last) && last[k] == StepN(first, last, l, a)
    ensures Walk(first, last, l, a + 1) == Walk(first, last, l, a) + [last[k].0]
    ensures StepN(first, last, l, a + 1) == first[k]
  {
    WalkSnoc(first, last, l, a);
    assert FirstIndex(last, last[k]) == k by {
      DistinctFirstIndex(last, k);
    }
  }

  /** In a sequence without repeats, every element is first found where it is. */
  lemma DistinctFirstIndex<T>(xs: seq<T>, k: nat)
    requires k < |xs| && Distinct(xs)
    ensures FirstIndex(xs, xs[k]) == k
  {
    var f := FirstIndex(xs, xs[k]);
    forall i | 0 <= i < f ensures xs[i] in xs[..f] {
      assert xs[..f][i] == xs[i];
    }
  }

  lemma {:induction false} StepNSnoc(first: seq<Label>, last: seq<Label>, l: Label, a: nat)
    ensures StepN(first, last, l, a + 1) == Step(first, last, StepN(first, last, l, a))
    decreases a
  {
    if a > 0 {
      StepNSnoc(first, last, Step(first, last, l), a - 1);
    }
  }

  /** Read from position `j` on, a rotation is the next rotation read from `j - 1`. */
  lemma RotShift(s: string, p: nat, k: nat)
    requires p < |s| && 0 < k <= |s|
    ensures Rot(s, p)[..k] == [s[p]] + Rot(s, Next(|s|, p))[..k - 1]
  {
    var n := |s|;
    var a, b := Rot(s, p), Rot(s, Next(n, p));
    forall j | 0 <= j < k - 1 ensures a[j + 1] == b[j] {
      if p + 1 + j < n {
        assert a[j + 1] == s[p + 1 + j];
        assert b[j] == s[p + 1 + j];
      } else {
        assert a[j + 1] == s[p + 1 + j - n];
        assert b[j] == s[p + 1 + j - n];
      }
    }
  }

  /** The first-column label on the row of position `t` is the last-column
      label on the row of position `t + 1`. */
  lemma StepToNext(s: string, t: nat)
    requires Terminated(s) && t + 1 < |s|
    ensures Step(Labelled(FirstOf(s)), Labelled(BwtOf(s)), Labelled(BwtOf(s))[Rank(s, t)])
      == Labelled(BwtOf(s))[Rank(s, t + 1)]
  {
    var L, F := BwtOf(s), FirstOf(s);
    var first, last := Labelled(F), Labelled(L);
    var r, i := Rank(s, t), Rank(s, t + 1);
    LabelledDistinct(L);
    assert FirstIndex(last, last[r]) == r;
    assert LFRow(s, i) == r by {
      RankOfRow(s, LFRow(s, i));
    }
    LastFirst(s, i);
  }

  /** From the row of position `t`, `k` steps collect the symbols of `s`
      from position `t - 1` on, read cyclically. */
  lemma {:induction false} WalkFromRow(s: string, t: nat, k: nat)
    requires Terminated(s) && t < |s| && t + k <= |s|
    ensures Walk(Labelled(FirstOf(s)), Labelled(BwtOf(s)), Labelled(BwtOf(s))[Rank(s, t)], k)
      == Rot(s, Pred(|s|, t))[..k]
    decreases k
  {
    var first, last := Labelled(FirstOf(s)), Labelled(BwtOf(s));
    var n := |s|;
    if k > 0 {
      var l := last[Rank(s, t)];
      assert l.0 == s[Pred(n, t)];
      PredNext(n, t);
      RotShift(s, Pred(n, t), k);
      if k > 1 {
        StepToNext(s, t);
        WalkFromRow(s, t + 1, k - 1);
        assert Pred(n, t + 1) == t;
      }
    }
  }

  /** The sentinel's label `'$0'` sits on the row of position 0. */
  lemma SentinelLabel(s: string)
    requires Terminated(s)
    ensures Labelled(BwtOf(s))[Rank(s, 0)] == ('$', 0)
  {
    var L := BwtOf(s);
    var r := Rank(s, 0);
    assert L[r] == '$';
    assert '$' !in L[..r];
    CountAbsent(L[..r], '$');
  }

  /** The walk theorem: from `'$0'` over the ranked columns of the
      transform, `len(s)` steps collect the sentinel and then the text
      before it. */
  lemma WalkRecovers(s: string)
    requires Terminated(s)
    ensures Walk(Labelled(FirstOf(s)), Labelled(BwtOf(s)), ('$', 0), |s|) == ['$'] + s[..|s| - 1]
  {
    SentinelLabel(s);
    WalkFromRow(s, 0, |s|);
    assert Rot(s, |s| - 1)[..|s|] == Rot(s, |s| - 1);
  }

  /** Every first-column label also sits in the last column, so the walk
      never stalls. */
  lemma FirstLabelsInLast(s: string)
    requires Terminated(s)
    ensures forall i :: 0 <= i < |s| ==> Labelled(FirstOf(s))[i] in Labelled(BwtOf(s))
    ensures ('$', 0) in Labelled(BwtOf(s))
  {
    var first, last := Labelled(FirstOf(s)), Labelled(BwtOf(s));
    forall i | 0 <= i < |s| ensures first[i] in last {
      var x := LFOnto(s, i);
      LastFirst(s, x);
      assert first[i] == last[x];
    }
    SentinelLabel(s);
  }

  // ---------------------------------------------------------------------
  // The construction route

  /** The rows of `criarMatriz(s)`: row `k` is `s` rotated right `k` times. */
  function Matrix(s: string): (m: seq<string>)
    ensures |m| == |s|
  {
    seq(|s|, k requires 0 <= k < |s| => RotR(s, k))
  }

  /** Python's order on strings, as a key for `sorted`. */
  function StringLe(): (string, string) -> bool {
    (a: string, b: string) => LexLe(a, b)
  }

  /** `ordenarMatriz`: the rows in Python's string order. */
  function SortRows(m: seq<string>): (r: seq<string>)
    ensures multiset(r) == multiset(m)
  {
    Sort(m, StringLe())
  }

  /** The last symbol of every row. */
  function LastColumn(m: seq<string>): (r: string)
    requires forall i :: 0 <= i < |m| ==> |m[i]| > 0
    ensures |r| == |m|
  {
    seq(|m|, i requires 0 <= i < |m| => m[i][|m[i]| - 1])
  }

  /** Where row `k` of the matrix starts: `k` right rotations start at
      `n - k`, and none at 0. */
  function RowStart(n: nat, k: nat): (p: nat)
    requires k < n
    ensures p < n
  {
    if k == 0 then 0 else n - k
  }

  /** A right rotation is the left rotation starting where it starts. */
  lemma RotRIsRot(s: string, k: nat)
    requires k < |s|
    ensures RotR(s, k) == Rot(s, RowStart(|s|, k))
  {
  }

  /** Row `k` of the matrix is the rotation starting at `RowStart(|s|, k)`. */
  lemma MatrixRowIsRotation(s: string)
    ensures forall k :: 0 <= k < |s| ==> Matrix(s)[k] == Rot(s, RowStart(|s|, k))
  {
    forall k | 0 <= k < |s| ensures Matrix(s)[k] == Rot(s, RowStart(|s|, k)) {
      RotRIsRot(s, k);
    }
  }

  /** Every rotation is a row of the matrix. */
  lemma MatrixHasRotations(s: string)
    ensures forall p :: 0 <= p < |s| ==> Rot(s, p) in Matrix(s)
  {
    MatrixRowIsRotation(s);
    forall p | 0 <= p < |s| ensures Rot(s, p) in Matrix(s) {
      var k := if p == 0 then 0 else |s| - p;
      assert RowStart(|s|, k) == p;
      assert Matrix(s)[k] == Rot(s, p);
    }
  }

  /** The rows of the matrix are distinct. */
  lemma MatrixDistinct(s: string)
    requires Terminated(s)
    ensures Distinct(Matrix(s))
  {
    MatrixRowIsRotation(s);
    forall i, j | 0 <= i < j < |s| ensures Matrix(s)[i] != Matrix(s)[j] {
      RotationsDistinct(s, RowStart(|s|, i), RowStart(|s|, j));
    }
  }

  /** The rotations in suffix-array order. */
  ghost function SortedRotations(s: string): (m: seq<string>)
    ensures |m| == |s|
  {
    seq(|s|, i requires 0 <= i < |s| => Rot(s, SA(s)[i]))
  }

  lemma SortedRotationsSorted(s: string)
    requires Terminated(s)
    ensures Sorted(SortedRotations(s), StringLe())
    ensures Distinct(SortedRotations(s))
  {
    var m, sa := SortedRotations(s), SA(s);
    forall i, j | 0 <= i < j < |s| ensures StringLe()(m[i], m[j]) && m[i] != m[j] {
      SuffixArrayDistinct(s, i, j);
      SuffixArrayOrder(s, i, j);
      RotationOrder(s, sa[i], sa[j]);
      LexLessIrreflexive(m[i]);
    }
  }

  /** The matrix and the sorted rotations hold the same rows. */
  lemma SameRows(s: string)
    ensures forall x :: x in Matrix(s) <==> x in SortedRotations(s)
  {
    var m, r := Matrix(s), SortedRotations(s);
    MatrixRowIsRotation(s);
    MatrixHasRotations(s);
    forall x ensures x in m <==> x in r {
      if x in m {
        var k :| 0 <= k < |s| && m[k] == x;
        assert r[Rank(s, RowStart(|s|, k))] == x;
      }
      if x in r {
        var i :| 0 <= i < |s| && r[i] == x;
        assert x == Rot(s, SA(s)[i]);
      }
    }
  }

  /** The two construction routes agree: the last column of the sorted
      matrix is `s[SA[i] - 1]` row by row, the transform of `s`. */
  lemma ConstructionRoutes(s: string)
    requires Terminated(s)
    ensures SortRows(Matrix(s)) == SortedRotations(s)
    ensures forall i :: 0 <= i < |s| ==> |SortRows(Matrix(s))[i]| == |s|
    ensures LastColumn(SortRows(Matrix(s))) == BwtOf(s)
  {
    var n := |s|;
    var m, r := Matrix(s), SortedRotations(s);
    MatrixDistinct(s);
    SortedRotationsSorted(s);
    SameRows(s);
    DistinctSameElements(m, r);
    LexLeTotalOrder();
    assert TotalPreorder(StringLe());
    SortSorted(m, StringLe());
    var a := SortRows(m);
    SortedUnique(a, r, StringLe());
    forall i | 0 <= i < n ensures |a[i]| == n && a[i][n - 1] == BwtOf(s)[i] {
      RotFacts(s, SA(s)[i]);
    }
  }
}
