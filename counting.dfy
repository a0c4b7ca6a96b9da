/** Occurrence counting over sequences, as Python's `list.count`,
    and the cardinality facts the index proofs lean on. */
module Counting {

  /** Number of occurrences of `c` in `xs`. */
  function Count<T(==)>(xs: seq<T>, c: T): (r: nat)
    ensures r <= |xs|
  {
    if xs == [] then 0
    else Count(xs[..|xs| - 1], c) + (if xs[|xs| - 1] == c then 1 else 0)
  }

  /** A value that does not occur is counted zero times. */
  lemma {:induction false} CountAbsent<T>(xs: seq<T>, c: T)
    requires c !in xs
    ensures Count(xs, c) == 0
  {
    if xs != [] {
      assert c !in xs[..|xs| - 1];
      CountAbsent(xs[..|xs| - 1], c);
    }
  }

  /** Counting over one more element of a prefix. */
  lemma CountStep<T>(xs: seq<T>, c: T, i: nat)
    requires i < |xs|
    ensures Count(xs[..i + 1], c) == Count(xs[..i], c) + (if xs[i] == c then 1 else 0)
  {
    assert xs[..i + 1][..i] == xs[..i];
  }

  /** Longer prefixes never hold fewer occurrences. */
  lemma {:induction false} CountMonotone<T>(xs: seq<T>, c: T, i: nat, j: nat)
    requires i <= j <= |xs|
    ensures Count(xs[..i], c) <= Count(xs[..j], c)
    decreases j - i
  {
    if i < j {
      CountStep(xs, c, j - 1);
      CountMonotone(xs, c, i, j - 1);
    }
  }

  /** `Count` is the multiplicity in the multiset of the sequence. */
  lemma {:induction false} CountMultiset<T>(xs: seq<T>, c: T)
    ensures Count(xs, c) == multiset(xs)[c]
  {
    if xs != [] {
      var init := xs[..|xs| - 1];
      assert xs == init + [xs[|xs| - 1]];
      CountMultiset(init, c);
    }
  }

  /** `Count` of a prefix is the size of the set of positions holding `c`. */
  lemma {:induction false} CountAsSet<T>(xs: seq<T>, c: T, k: nat)
    requires k <= |xs|
    ensures Count(xs[..k], c) == |set i | 0 <= i < k && xs[i] == c|
  {
    if k > 0 {
      CountAsSet(xs, c, k - 1);
      CountStep(xs, c, k - 1);
      var before := set i | 0 <= i < k - 1 && xs[i] == c;
      var now := set i | 0 <= i < k && xs[i] == c;
      if xs[k - 1] == c {
        assert now == before + {k - 1};
        assert k - 1 !in before;
      } else {
        assert now == before;
      }
    }
  }

  /** The `r`-th occurrence (counting from 0) of `c` in `xs` exists while
      fewer than `Count(xs, c)` have been passed. */
  lemma {:induction false} OccurrenceAt<T>(xs: seq<T>, c: T, r: nat)
    requires r < Count(xs, c)
    ensures exists i :: 0 <= i < |xs| && xs[i] == c && Count(xs[..i], c) == r
  {
    var init := xs[..|xs| - 1];
    assert xs[..|xs| - 1] == init;
    if r < Count(init, c) {
      OccurrenceAt(init, c, r);
      var i :| 0 <= i < |init| && init[i] == c && Count(init[..i], c) == r;
      assert init[..i] == xs[..i];
    } else {
      assert xs[|xs| - 1] == c;
    }
  }

  /** An injective map sends a finite set onto a set of the same size. */
  lemma {:induction false} CardInjectiveImage<T, U>(A: set<T>, f: T -> U)
    requires forall x, y :: x in A && y in A && f(x) == f(y) ==> x == y
    ensures |set x | x in A :: f(x)| == |A|
    decreases |A|
  {
    if A != {} {
      var x :| x in A;
      CardInjectiveImage(A - {x}, f);
      var img := set y | y in A :: f(y);
      var imgRest := set y | y in A - {x} :: f(y);
      assert img == imgRest + {f(x)};
      assert f(x) !in imgRest;
    }
  }

  /** Two prefixes hold equally many `c`s when a map pairs the positions
      holding `c` in the first one with those in the second one. */
  lemma CountBijection<T>(xs: seq<T>, i: nat, ys: seq<T>, j: nat, c: T, g: int -> int)
    requires i <= |xs| && j <= |ys|
    requires forall k :: 0 <= k < i && xs[k] == c ==> 0 <= g(k) < j && ys[g(k)] == c
    requires forall x, y :: 0 <= x < i && 0 <= y < i && xs[x] == c && xs[y] == c && g(x) == g(y) ==> x == y
    requires forall k :: 0 <= k < j && ys[k] == c ==> exists x :: 0 <= x < i && xs[x] == c && g(x) == k
    ensures Count(xs[..i], c) == Count(ys[..j], c)
  {
    CountAsSet(xs, c, i);
    CountAsSet(ys, c, j);
    var A := set k | 0 <= k < i && xs[k] == c;
    var B := set k | 0 <= k < j && ys[k] == c;
    CardInjectiveImage(A, g);
    ImageOnto(A, B, g);
  }

  lemma ImageOnto<T>(A: set<T>, B: set<T>, g: T -> T)
    requires forall k :: k in A ==> g(k) in B
    requires forall k :: k in B ==> exists x :: x in A && g(x) == k
    ensures (set x | x in A :: g(x)) == B
  {
  }

  /** Index of the first occurrence of `c` (Python's `list.index`). */
  function FirstIndex<T(==)>(xs: seq<T>, c: T): (i: nat)
    requires c in xs
    ensures i < |xs| && xs[i] == c
    ensures c !in xs[..i]
  {
    if xs[0] == c then 0
    else
      assert xs == [xs[0]] + xs[1..];
      1 + FirstIndex(xs[1..], c)
  }

  /** Every occurrence sits at or after the first one, so the first index
      plus the number of occurrences stays within the sequence. */
  lemma {:induction false} FirstIndexRoom<T>(xs: seq<T>, c: T)
    requires c in xs
    ensures FirstIndex(xs, c) + Count(xs, c) <= |xs|
  {
    if xs[0] != c {
      assert xs == [xs[0]] + xs[1..];
      assert c in xs[1..];
      FirstIndexRoom(xs[1..], c);
      CountMultiset(xs, c);
      CountMultiset(xs[1..], c);
    }
  }
}
