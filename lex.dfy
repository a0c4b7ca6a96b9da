/** Python's string ordering.  A Python `str` is a `seq<char>` here and two
    strings compare code point by code point, a proper prefix being smaller. */
module Lex {

  /** `a < b` on Python strings. */
  predicate LexLess(a: string, b: string)
    decreases |a|
  {
    if |a| == 0 then |b| > 0
    else if |b| == 0 then false
    else if a[0] != b[0] then a[0] < b[0]
    else LexLess(a[1..], b[1..])
  }

  /** `a <= b` on Python strings. */
  predicate LexLe(a: string, b: string) {
    a == b || LexLess(a, b)
  }

  lemma {:induction false} LexLessIrreflexive(a: string)
    ensures !LexLess(a, a)
    decreases |a|
  {
    if |a| > 0 {
      LexLessIrreflexive(a[1..]);
    }
  }

  lemma {:induction false} LexLessAsymmetric(a: string, b: string)
    ensures !(LexLess(a, b) && LexLess(b, a))
    decreases |a|
  {
    if |a| > 0 && |b| > 0 && a[0] == b[0] {
      LexLessAsymmetric(a[1..], b[1..]);
    }
  }

  lemma {:induction false} LexLessTransitive(a: string, b: string, c: string)
    requires LexLess(a, b) && LexLess(b, c)
    ensures LexLess(a, c)
    decreases |a|
  {
    if |a| > 0 && a[0] == b[0] && b[0] == c[0] {
      LexLessTransitive(a[1..], b[1..], c[1..]);
    }
  }

  /** Any two distinct strings are ordered one way or the other. */
  lemma {:induction false} LexLessTotal(a: string, b: string)
    ensures a == b || LexLess(a, b) || LexLess(b, a)
    decreases |a|
  {
    if |a| > 0 && |b| > 0 && a[0] == b[0] {
      LexLessTotal(a[1..], b[1..]);
      if a[1..] == b[1..] {
        assert a == [a[0]] + a[1..] && b == [b[0]] + b[1..];
      }
    }
  }

  lemma LexLeTotalOrder()
    ensures forall a: string, b: string :: LexLe(a, b) || LexLe(b, a)
    ensures forall a: string, b: string, c: string :: LexLe(a, b) && LexLe(b, c) ==> LexLe(a, c)
    ensures forall a: string, b: string :: LexLe(a, b) && LexLe(b, a) ==> a == b
  {
    forall a: string, b: string ensures LexLe(a, b) || LexLe(b, a) {
      LexLessTotal(a, b);
    }
    forall a: string, b: string, c: string | LexLe(a, b) && LexLe(b, c) ensures LexLe(a, c) {
      if a != b && b != c {
        LexLessTransitive(a, b, c);
      }
    }
    forall a: string, b: string | LexLe(a, b) && LexLe(b, a) ensures a == b {
      LexLessAsymmetric(a, b);
    }
  }

  /** Strings that agree on their first `k` characters and differ at `k`
      are ordered by the characters at `k`. */
  lemma {:induction false} LexLessAtFirstDifference(a: string, b: string, k: nat)
    requires k < |a| && k < |b|
    requires a[..k] == b[..k] && a[k] != b[k]
    ensures LexLess(a, b) <==> a[k] < b[k]
    decreases k
  {
    if k > 0 {
      assert a[0] == a[..k][0] == b[..k][0] == b[0];
      assert a[1..][..k - 1] == a[1..k] == a[..k][1..];
      assert b[1..][..k - 1] == b[1..k] == b[..k][1..];
      LexLessAtFirstDifference(a[1..], b[1..], k - 1);
    }
  }

  /** A proper prefix is smaller. */
  lemma {:induction false} LexLessPrefix(a: string, b: string)
    requires |a| < |b| && b[..|a|] == a
    ensures LexLess(a, b)
    decreases |a|
  {
    if |a| > 0 {
      assert a[0] == b[..|a|][0];
      assert b[1..][..|a| - 1] == b[1..|a|] == b[..|a|][1..];
      LexLessPrefix(a[1..], b[1..]);
    }
  }

  /** The first position where two strings differ, below a known difference. */
  lemma {:induction false} FirstDifference(a: string, b: string, from: nat, m: nat) returns (k: nat)
    requires from <= m < |a| && m < |b|
    requires a[..from] == b[..from] && a[m] != b[m]
    ensures from <= k <= m && a[..k] == b[..k] && a[k] != b[k]
    decreases m - from
  {
    if a[from] != b[from] {
      k := from;
    } else {
      assert a[..from + 1] == a[..from] + [a[from]];
      assert b[..from + 1] == b[..from] + [b[from]];
      k := FirstDifference(a, b, from + 1, m);
    }
  }

  /** A smaller non-empty string does not start with a larger character. */
  lemma LexLessFirst(a: string, b: string)
    requires |a| > 0 && |b| > 0 && LexLess(a, b)
    ensures a[0] <= b[0]
  {
  }

  /** Comparing strings with a common first character compares the rest. */
  lemma LexLessCons(c: char, a: string, b: string)
    ensures LexLess([c] + a, [c] + b) <==> LexLess(a, b)
  {
    assert ([c] + a)[1..] == a && ([c] + b)[1..] == b;
  }

  /** Two suffixes that start with the same character compare as the
      suffixes one position further on. */
  lemma LexLessSuffixStep(s: string, p: nat, q: nat)
    requires p < |s| && q < |s| && s[p] == s[q]
    ensures LexLess(s[p..], s[q..]) <==> LexLess(s[p + 1..], s[q + 1..])
  {
    assert s[p..][1..] == s[p + 1..];
    assert s[q..][1..] == s[q + 1..];
  }
}
