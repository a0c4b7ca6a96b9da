/** Facts about the sorted rotation matrix of a sentinel-terminated text:
    rotations sort as suffixes do, the first column is the sorted last
    column, and the k-th occurrence of a character in the last column is
    the k-th occurrence of it in the first column (the LF mapping). */
module BwtTheory {
  import opened Lex
  import opened Sorting
  import opened Counting
  import opened BwtSpec

  lemma RotFacts(s: string, p: nat)
    requires p < |s|
    ensures |Rot(s, p)| == |s|
    ensures Rot(s, p)[0] == s[p]
    ensures Rot(s, p)[|s| - 1] == s[Pred(|s|, p)]
    ensures Rot(s, p)[..|s| - p] == s[p..]
  {
  }

  lemma PredNext(n: nat, p: nat)
    requires p < n
    ensures Pred(n, Next(n, p)) == p && Next(n, Pred(n, p)) == p
  {
  }

  /** Under the sentinel, different rotations are different strings. */
  lemma RotationsDistinct(s: string, p: nat, q: nat)
    requires Terminated(s) && p < |s| && q < |s| && p != q
    ensures Rot(s, p) != Rot(s, q)
  {
    var n := |s|;
    var k := n - 1 - p;
    assert Rot(s, p)[k] == s[n - 1];
    if q < p {
      assert Rot(s, q)[k] == s[q + k];
    } else {
      assert Rot(s, q)[k] == s[k - (n - q)];
    }
  }

  /** Under the sentinel, rotations compare as the suffixes they start with. */
  lemma RotationOrder(s: string, p: nat, q: nat)
    requires Terminated(s) && p < |s| && q < |s| && p != q
    ensures LexLess(Rot(s, p), Rot(s, q)) <==> LexLess(s[p..], s[q..])
  {
    var n := |s|;
    var a, b := s[p..], s[q..];
    var m := if p > q then |a| - 1 else |b| - 1;
    assert a[m] != b[m] by {
      if p > q {
        assert a[m] == s[n - 1];
        assert b[m] == s[q + m];
      } else {
        assert b[m] == s[n - 1];
        assert a[m] == s[p + m];
      }
    }
    assert a[..0] == b[..0];
    var k := FirstDifference(a, b, 0, m);
    LexLessAtFirstDifference(a, b, k);
    var ra, rb := Rot(s, p), Rot(s, q);
    assert ra[..k] == a[..k] && ra[k] == a[k];
    assert rb[..k] == b[..k] && rb[k] == b[k];
    LexLessAtFirstDifference(ra, rb, k);
  }

  /** The first column is sorted. */
  lemma FirstColumnSorted(s: string)
    ensures Sorted(FirstOf(s), CharLe())
  {
    var sa := SA(s);
    var F := FirstOf(s);
    forall i, j | 0 <= i < j < |s| ensures CharLe()(F[i], F[j]) {
      SuffixArrayOrder(s, i, j);
      LexLessFirst(s[sa[i]..], s[sa[j]..]);
    }
  }

  /** The first column and the last column hold the same characters. */
  lemma ColumnsPermutation(s: string)
    ensures multiset(BwtOf(s)) == multiset(FirstOf(s))
  {
    forall c ensures multiset(BwtOf(s))[c] == multiset(FirstOf(s))[c] {
      ColumnsCount(s, c);
      CountMultiset(BwtOf(s), c);
      CountMultiset(FirstOf(s), c);
    }
  }

  lemma ColumnsCount(s: string, c: char)
    ensures Count(BwtOf(s), c) == Count(FirstOf(s), c)
  {
    var n := |s|;
    var L, F := BwtOf(s), FirstOf(s);
    var g := LFMap(s);
    forall k | 0 <= k < n && L[k] == c ensures 0 <= g(k) < n && F[g(k)] == c {
      RowStep(s, k);
    }
    forall x, y | 0 <= x < n && 0 <= y < n && L[x] == c && L[y] == c && g(x) == g(y) ensures x == y {
      RowStep(s, x);
      RowStep(s, y);
      LFInjective(s, x, y);
    }
    forall k | 0 <= k < n && F[k] == c ensures exists x :: 0 <= x < n && L[x] == c && g(x) == k {
      var x := LFOnto(s, k);
      RowStep(s, x);
    }
    CountBijection(L, n, F, n, c, g);
    assert L[..n] == L && F[..n] == F;
  }

  /** Every row is the step of the row one rotation to its left. */
  lemma LFOnto(s: string, k: nat) returns (x: nat)
    requires k < |s|
    ensures x < |s| && LFRow(s, x) == k && BwtOf(s)[x] == FirstOf(s)[k]
  {
    var sa := SA(s);
    x := Rank(s, Next(|s|, sa[k]));
    PredNext(|s|, sa[k]);
    RankOfRow(s, k);
  }

  /** The row holding the rotation one step to the right of row `k`:
      the row whose first character is the last character of row `k`. */
  ghost function LFRow(s: string, k: nat): (j: nat)
    requires k < |s|
    ensures j < |s| && SA(s)[j] == Pred(|s|, SA(s)[k])
  {
    Rank(s, Pred(|s|, SA(s)[k]))
  }

  /** `LFRow` as a total map on integers, for counting arguments. */
  ghost function LFMap(s: string): int -> int {
    (k: int) => if 0 <= k < |s| then LFRow(s, k) as int else -1
  }

  lemma RowStep(s: string, k: nat)
    requires k < |s|
    ensures FirstOf(s)[LFRow(s, k)] == BwtOf(s)[k]
    ensures LFMap(s)(k) == LFRow(s, k)
  {
  }

  /** Different rows step to different rows. */
  lemma LFInjective(s: string, x: nat, y: nat)
    requires x < |s| && y < |s| && LFRow(s, x) == LFRow(s, y)
    ensures x == y
  {
    if x != y {
      SuffixArrayDistinct(s, x, y);
    }
  }

  /** A sorted string with the same characters as the last column is the
      first column. */
  lemma SortedPermutationIsFirst(s: string, t: string)
    requires Sorted(t, CharLe()) && multiset(t) == multiset(BwtOf(s))
    ensures t == FirstOf(s)
  {
    FirstColumnSorted(s);
    ColumnsPermutation(s);
    SortedUnique(t, FirstOf(s), CharLe());
  }

  /** Python's `sorted(bwt)` is the first column. */
  lemma SortedBwtIsFirst(s: string)
    ensures Sort(BwtOf(s), CharLe()) == FirstOf(s)
  {
    assert TotalPreorder(CharLe());
    SortSorted(BwtOf(s), CharLe());
    SortedPermutationIsFirst(s, Sort(BwtOf(s), CharLe()));
  }

  /** In a sorted string the occurrences of `c` form one block, so the
      rank of an occurrence is its distance from the first one. */
  lemma SortedBlock(F: string, c: char, j: nat)
    requires Sorted(F, CharLe()) && j < |F| && F[j] == c
    ensures FirstIndex(F, c) <= j && Count(F[..j], c) == j - FirstIndex(F, c)
  {
    var f := FirstIndex(F, c);
    BlockCount(F, c, f, j);
  }

  lemma {:induction false} BlockCount(F: string, c: char, f: nat, k: nat)
    requires Sorted(F, CharLe()) && f <= k < |F| && F[k] == c
    requires c in F && f == FirstIndex(F, c)
    ensures Count(F[..k], c) == k - f
    decreases k - f
  {
    if k == f {
      assert c !in F[..f];
      CountAbsent(F[..f], c);
    } else {
      assert CharLe()(F[f], F[k - 1]) && CharLe()(F[k - 1], F[k]);
      BlockCount(F, c, f, k - 1);
      CountStep(F, c, k - 1);
    }
  }

  /** For a row ending with `c` other than the sentinel, the rows above it
      ending with `c` are, one step to the right, exactly the rows above
      its successor row starting with `c`. */
  lemma LFForward(s: string, i: nat, k: nat)
    requires |s| > 0 && s[|s| - 1] == '$' && k < i < |s|
    requires BwtOf(s)[k] == BwtOf(s)[i] != '$'
    ensures LFRow(s, k) < LFRow(s, i)
  {
    var n := |s|;
    var sa := SA(s);
    var c := BwtOf(s)[i];
    var p, q := sa[i], sa[k];
    assert p != 0 && q != 0;
    RankOfRow(s, k);
    RankOfRow(s, i);
    RankStepDown(s, q - 1, p - 1);
  }

  lemma LFBackward(s: string, i: nat, k: nat) returns (x: nat)
    requires |s| > 0 && s[|s| - 1] == '$' && i < |s| && BwtOf(s)[i] != '$'
    requires k < LFRow(s, i) && FirstOf(s)[k] == BwtOf(s)[i]
    ensures x < i && BwtOf(s)[x] == BwtOf(s)[i] && LFRow(s, x) == k
  {
    var n := |s|;
    var sa := SA(s);
    var c := BwtOf(s)[i];
    var p, q := sa[i], sa[k];
    assert p != 0;
    assert q != n - 1;
    x := Rank(s, q + 1);
    assert Pred(n, sa[x]) == q;
    RankOfRow(s, k);
    RankOfRow(s, i);
    assert Rank(s, q) < Rank(s, p - 1);
    RankStepUp(s, q, p - 1);
  }

  /** The LF mapping: the rank of the last-column character of row `i`
      among equal characters above it equals the rank of the same text
      character in the first column. */
  lemma LastFirst(s: string, i: nat)
    requires Terminated(s) && i < |s|
    ensures FirstOf(s)[LFRow(s, i)] == BwtOf(s)[i]
    ensures Count(FirstOf(s)[..LFRow(s, i)], BwtOf(s)[i]) == Count(BwtOf(s)[..i], BwtOf(s)[i])
  {
    RowStep(s, i);
    if BwtOf(s)[i] == '$' {
      LastFirstSentinel(s, i);
    } else {
      LastFirstLetter(s, i);
    }
  }

  /** The sentinel occurs once in each column, so both ranks are 0. */
  lemma LastFirstSentinel(s: string, i: nat)
    requires Terminated(s) && i < |s| && BwtOf(s)[i] == '$'
    ensures Count(FirstOf(s)[..LFRow(s, i)], '$') == 0 == Count(BwtOf(s)[..i], '$')
  {
    var n := |s|;
    var sa := SA(s);
    var L, F := BwtOf(s), FirstOf(s);
    var j := LFRow(s, i);
    SentinelAtEnd(s, Pred(n, sa[i]));
    forall k | 0 <= k < i ensures L[k] != '$' {
      if L[k] == '$' {
        SentinelAtEnd(s, Pred(n, sa[k]));
        SuffixArrayDistinct(s, k, i);
      }
    }
    assert '$' !in L[..i];
    CountAbsent(L[..i], '$');
    forall k | 0 <= k < j ensures F[k] != '$' {
      if F[k] == '$' {
        SentinelAtEnd(s, sa[k]);
        SuffixArrayDistinct(s, k, j);
      }
    }
    assert '$' !in F[..j];
    CountAbsent(F[..j], '$');
  }

  lemma LastFirstLetter(s: string, i: nat)
    requires |s| > 0 && s[|s| - 1] == '$' && i < |s| && BwtOf(s)[i] != '$'
    ensures Count(FirstOf(s)[..LFRow(s, i)], BwtOf(s)[i]) == Count(BwtOf(s)[..i], BwtOf(s)[i])
  {
    var L, F := BwtOf(s), FirstOf(s);
    var c := L[i];
    var j := LFRow(s, i);
    var g := LFMap(s);
    forall k | 0 <= k < i && L[k] == c ensures 0 <= g(k) < j && F[g(k)] == c {
      RowStep(s, k);
      LFForward(s, i, k);
    }
    forall x, y | 0 <= x < i && 0 <= y < i && L[x] == c && L[y] == c && g(x) == g(y) ensures x == y {
      RowStep(s, x);
      RowStep(s, y);
      LFInjective(s, x, y);
    }
    forall k | 0 <= k < j && F[k] == c ensures exists x :: 0 <= x < i && L[x] == c && g(x) == k {
      var x := LFBackward(s, i, k);
      RowStep(s, x);
    }
    CountBijection(L, i, F, j, c, g);
  }

  /** The row a backward step lands on: the first row starting with `c`
      plus the number of `c`s above row `i` in the last column. */
  lemma LFIndex(s: string, i: nat)
    requires Terminated(s) && i < |s|
    ensures BwtOf(s)[i] in FirstOf(s)
    ensures LFRow(s, i) == FirstIndex(FirstOf(s), BwtOf(s)[i]) + Count(BwtOf(s)[..i], BwtOf(s)[i])
  {
    LastFirst(s, i);
    FirstColumnSorted(s);
    SortedBlock(FirstOf(s), BwtOf(s)[i], LFRow(s, i));
  }
}
