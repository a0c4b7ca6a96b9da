/** The objects the Burrows–Wheeler scripts compute, defined directly:
    rotations of a text, its suffix array, the transform read off the
    sorted rotations, and cyclic pattern matches. */
module BwtSpec {
  import opened Lex
  import opened PyStr
  import opened Sorting
  import opened Counting

  /** A text as the transform expects it: it ends with the sentinel `'$'`,
      which occurs nowhere else. */
  ghost predicate Terminated(s: string) {
    |s| > 0 && s[|s| - 1] == '$' && '$' !in s[..|s| - 1]
  }

  lemma SentinelAtEnd(s: string, i: nat)
    requires Terminated(s) && i < |s| && s[i] == '$'
    ensures i == |s| - 1
  {
  }

  /** `s` rotated left by `p`: the row of the matrix that starts at `s[p]`. */
  function Rot(s: string, p: nat): string
    requires p <= |s|
  {
    s[p..] + s[..p]
  }

  /** `s` rotated right `k` times. */
  function RotR(s: string, k: nat): string
    requires k <= |s|
  {
    s[|s| - k..] + s[..|s| - k]
  }

  /** Cyclic predecessor and successor of a position in a text of length `n`. */
  function Pred(n: nat, p: nat): nat
    requires p < n
  {
    if p == 0 then n - 1 else p - 1
  }

  function Next(n: nat, p: nat): nat
    requires p < n
  {
    if p + 1 == n then 0 else p + 1
  }

  /** Python's `range(n)`. */
  function Range(n: nat): seq<int> {
    seq(n, i => i)
  }

  /** The key order of `suffix_array`: indices compared by `seq[i:]`. */
  function SuffixLe(s: string): (int, int) -> bool {
    (i: int, j: int) => LexLe(PySlice(s, i, |s|), PySlice(s, j, |s|))
  }

  function CharLe(): (char, char) -> bool {
    (a: char, b: char) => a <= b
  }

  function IntLe(): (int, int) -> bool {
    (a: int, b: int) => a <= b
  }

  lemma SuffixSlice(s: string, i: int)
    requires 0 <= i <= |s|
    ensures PySlice(s, i, |s|) == s[i..]
  {
  }

  /** `sorted(range(len(seq)), key=lambda i: seq[i:])`. */
  function SuffixArray(s: string): (sa: seq<int>)
    ensures |sa| == |s|
  {
    Sort(Range(|s|), SuffixLe(s))
  }

  /** The suffix array holds every start position once, in strictly
      increasing order of the suffixes. */
  lemma SortedSuffixes(s: string)
    ensures var sa := SuffixArray(s);
      && multiset(sa) == multiset(Range(|s|))
      && (forall i :: 0 <= i < |s| ==> 0 <= sa[i] < |s|)
      && (forall i, j :: 0 <= i < j < |s| ==> LexLess(s[sa[i]..], s[sa[j]..]))
  {
    var n := |s|;
    var le := SuffixLe(s);
    var sa := Sort(Range(n), le);
    PermutationOfRange(n, sa);
    LexLeTotalOrder();
    assert TotalPreorder(le);
    SortSorted(Range(n), le);
    forall i, j | 0 <= i < j < n ensures LexLess(s[sa[i]..], s[sa[j]..]) {
      if sa[i] == sa[j] {
        TwoPositions(sa, i, j);
        RangeDistinct(n, sa[i]);
      }
      assert le(sa[i], sa[j]);
      SuffixSlice(s, sa[i]);
      SuffixSlice(s, sa[j]);
    }
  }

  /** A permutation of `range(n)` has length `n` and holds exactly `0..n-1`. */
  lemma PermutationOfRange(n: nat, sa: seq<int>)
    requires multiset(sa) == multiset(Range(n))
    ensures |sa| == n
    ensures forall i :: 0 <= i < n ==> 0 <= sa[i] < n
    ensures forall p :: 0 <= p < n ==> p in sa
  {
    assert |sa| == |multiset(sa)| == |Range(n)|;
    forall x ensures x in sa <==> 0 <= x < n {
      assert x in sa <==> x in multiset(sa);
      assert x in Range(n) <==> x in multiset(Range(n));
      if 0 <= x < n {
        assert Range(n)[x] == x;
      }
    }
    forall i | 0 <= i < n ensures 0 <= sa[i] < n {
      assert sa[i] in sa;
    }
  }

  /** Entry `i` of `sa` names a smaller suffix than entry `j`. */
  ghost predicate SuffixBelow(s: string, sa: seq<int>, i: int, j: int)
    requires 0 <= i < |sa| && 0 <= j < |sa|
  {
    LexLess(PySlice(s, sa[i], |s|), PySlice(s, sa[j], |s|))
  }

  /** What makes `sa` the suffix array of `s`: it arranges `range(len(s))`
      in strictly increasing order of the suffixes. */
  ghost predicate IsSuffixArray(s: string, sa: seq<int>) {
    && multiset(sa) == multiset(Range(|s|))
    && forall i, j :: 0 <= i < j < |sa| ==> SuffixBelow(s, sa, i, j)
  }

  lemma SuffixArrayIsOne(s: string)
    ensures IsSuffixArray(s, SuffixArray(s))
  {
    var sa := SuffixArray(s);
    SortedSuffixes(s);
    forall i, j | 0 <= i < j < |sa| ensures SuffixBelow(s, sa, i, j) {
      SuffixSlice(s, sa[i]);
      SuffixSlice(s, sa[j]);
    }
  }

  /** The suffix array, characterised by what it holds rather than by how
      `sorted` arranges it; `SuffixArrayIsSA` shows the two agree. */
  ghost function SA(s: string): (sa: seq<int>)
    ensures |sa| == |s|
    ensures forall i :: 0 <= i < |s| ==> 0 <= sa[i] < |s|
  {
    SuffixArrayIsOne(s);
    var sa :| IsSuffixArray(s, sa);
    PermutationOfRange(|s|, sa);
    sa
  }

  /** Every start position is in the suffix array. */
  lemma SuffixArrayOnto(s: string, p: nat)
    requires p < |s|
    ensures p in SA(s)
  {
    PermutationOfRange(|s|, SA(s));
  }

  /** The suffix array lists the suffixes in strictly increasing order. */
  lemma SuffixArrayOrder(s: string, i: nat, j: nat)
    requires i < j < |s|
    ensures LexLess(s[SA(s)[i]..], s[SA(s)[j]..])
  {
    var sa := SA(s);
    assert SuffixBelow(s, sa, i, j);
    SuffixSlice(s, sa[i]);
    SuffixSlice(s, sa[j]);
  }

  /** `sorted` over the suffix order yields exactly the suffix array. */
  lemma SuffixArrayIsSA(s: string)
    ensures SuffixArray(s) == SA(s)
  {
    var a, b := SuffixArray(s), SA(s);
    var le := SuffixLe(s);
    LexLeTotalOrder();
    assert TotalPreorder(le);
    SortSorted(Range(|s|), le);
    SortedSuffixes(s);
    forall i, j | 0 <= i < j < |b| ensures le(b[i], b[j]) {
      SuffixArrayOrder(s, i, j);
      SuffixSlice(s, b[i]);
      SuffixSlice(s, b[j]);
    }
    forall i, j | 0 <= i < |a| && 0 <= j < |a| && le(a[i], a[j]) && le(a[j], a[i])
      ensures a[i] == a[j]
    {
      SuffixSlice(s, a[i]);
      SuffixSlice(s, a[j]);
      LexLessAsymmetric(s[a[i]..], s[a[j]..]);
      assert |s[a[i]..]| == |s[a[j]..]|;
    }
    SortedUnique(a, b, le);
  }

  lemma RangeDistinct(n: nat, x: int)
    ensures multiset(Range(n))[x] <= 1
  {
    DistinctCount(Range(n), x);
  }

  /** The row of the sorted matrix that starts at text position `p`. */
  ghost function Rank(s: string, p: nat): (r: nat)
    requires p < |s|
    ensures r < |s| && SA(s)[r] == p
  {
    SuffixArrayOnto(s, p);
    FirstIndex(SA(s), p)
  }

  /** Distinct rows hold distinct start positions. */
  lemma SuffixArrayDistinct(s: string, i: nat, j: nat)
    requires i < |s| && j < |s| && i != j
    ensures SA(s)[i] != SA(s)[j]
  {
    var sa := SA(s);
    if i < j {
      SuffixArrayOrder(s, i, j);
      LexLessIrreflexive(s[sa[i]..]);
    } else {
      SuffixArrayOrder(s, j, i);
      LexLessIrreflexive(s[sa[j]..]);
    }
  }

  lemma RankOfRow(s: string, i: nat)
    requires i < |s|
    ensures Rank(s, SA(s)[i]) == i
  {
    var r := Rank(s, SA(s)[i]);
    if r != i {
      SuffixArrayDistinct(s, r, i);
    }
  }

  /** Rows are ordered as their suffixes. */
  lemma RankOrder(s: string, p: nat, q: nat)
    requires p < |s| && q < |s|
    ensures Rank(s, p) < Rank(s, q) <==> LexLess(s[p..], s[q..])
  {
    var rp, rq := Rank(s, p), Rank(s, q);
    if rp < rq {
      SuffixArrayOrder(s, rp, rq);
    } else if rq < rp {
      SuffixArrayOrder(s, rq, rp);
      LexLessAsymmetric(s[p..], s[q..]);
    } else {
      LexLessIrreflexive(s[p..]);
    }
  }

  /** Two positions holding the same character are ordered as the
      positions after them. */
  lemma RankStepUp(s: string, a: nat, b: nat)
    requires a + 1 < |s| && b + 1 < |s| && s[a] == s[b]
    requires Rank(s, a) < Rank(s, b)
    ensures Rank(s, a + 1) < Rank(s, b + 1)
  {
    RankOrder(s, a, b);
    LexLessSuffixStep(s, a, b);
    RankOrder(s, a + 1, b + 1);
  }

  lemma RankStepDown(s: string, a: nat, b: nat)
    requires a + 1 < |s| && b + 1 < |s| && s[a] == s[b]
    requires Rank(s, a + 1) < Rank(s, b + 1)
    ensures Rank(s, a) < Rank(s, b)
  {
    if Rank(s, b) < Rank(s, a) {
      RankStepUp(s, b, a);
    }
  }

  /** The transform of `s`: the last column of its sorted rotation matrix. */
  ghost function BwtOf(s: string): (L: string)
    ensures |L| == |s|
  {
    var sa := SA(s);
    seq(|s|, i requires 0 <= i < |s| => s[Pred(|s|, sa[i])])
  }

  /** The first column of the sorted rotation matrix. */
  ghost function FirstOf(s: string): (F: string)
    ensures |F| == |s|
  {
    var sa := SA(s);
    seq(|s|, i requires 0 <= i < |s| => s[sa[i]])
  }

  /** `w` read cyclically from position `q` of `s`: the rotation at `q`,
      repeated, starts with `w`. */
  ghost predicate CyclicMatch(s: string, q: nat, w: string)
    requires q < |s|
    decreases |w|
  {
    |w| == 0 || (s[q] == w[0] && CyclicMatch(s, Next(|s|, q), w[1..]))
  }

  /** `w` occurs in `s` at `q` (Python's `s[q:q+len(w)] == w`). */
  ghost predicate OccursAt(s: string, q: nat, w: string) {
    q + |w| <= |s| && s[q..q + |w|] == w
  }
}
