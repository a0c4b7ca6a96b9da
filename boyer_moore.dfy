/** The `BoyerMoore` class: a bad-character table, a good-suffix table and
    a search that compares the pattern right to left at each alignment and
    then shifts by the largest of 1, the bad-character shift and the
    good-suffix shift. */
module BoyerMooreSearch {
  import opened Lex
  import opened PyStr
  import opened SeqFacts

  /** The bad-character table of `pattern[..k]`: each symbol mapped to the
      index the loop wrote last for it. */
  function BadCharTable(pattern: string): map<char, int>
  {
    if pattern == [] then map[]
    else
      var k := |pattern| - 1;
      BadCharTable(pattern[..k])[pattern[k] := k]
  }

  /** The table holds exactly the symbols of the pattern, each mapped to its
      last index. */
  lemma {:induction false} BadCharLast(pattern: string, c: char)
    ensures c in BadCharTable(pattern) <==> c in pattern
    ensures c in BadCharTable(pattern) ==>
      var r := BadCharTable(pattern)[c];
      0 <= r < |pattern| && pattern[r] == c && forall k :: r < k < |pattern| ==> pattern[k] != c
  {
    if pattern != [] {
      var k := |pattern| - 1;
      BadCharLast(pattern[..k], c);
      assert pattern == pattern[..k] + [pattern[k]];
    }
  }

  /** The table of "ana" is {'a': 2, 'n': 1}. */
  lemma {:induction false} BadCharExample()
    ensures BadCharTable("ana") == map['a' := 2, 'n' := 1]
  {
    assert "ana"[..2] == "an";
    assert "an"[..1] == "a";
    assert "a"[..0] == "";
  }

  /** What the loop of `is_prefix(p)` checks from index `i` on:
      `pattern[k] == pattern[m - 1 - k + p]` for every `k` from `i` to the
      end. */
  predicate Mirrored(pattern: string, p: int, i: int)
    requires 0 <= p <= i <= |pattern|
    decreases |pattern| - i
  {
    i == |pattern| || (pattern[i] == pattern[|pattern| - 1 - i + p] && Mirrored(pattern, p, i + 1))
  }

  /** `is_prefix(p)`: the check from `p` itself. */
  predicate MirrorsFrom(pattern: string, p: int)
    requires 0 <= p <= |pattern|
  {
    Mirrored(pattern, p, p)
  }

  lemma {:induction false} MirroredAll(pattern: string, p: int, i: int)
    requires 0 <= p <= i <= |pattern|
    ensures Mirrored(pattern, p, i) <==> forall k :: i <= k < |pattern| ==> pattern[k] == pattern[|pattern| - 1 - k + p]
    decreases |pattern| - i
  {
    if i < |pattern| {
      MirroredAll(pattern, p, i + 1);
    }
  }

  function Reverse(s: string): (r: string)
    ensures |r| == |s|
    ensures forall i :: 0 <= i < |s| ==> r[i] == s[|s| - 1 - i]
  {
    seq(|s|, i requires 0 <= i < |s| => s[|s| - 1 - i])
  }

  /** `is_prefix(p)` holds exactly when `pattern[p:]` is a palindrome. */
  lemma {:induction false} MirrorsIsPalindrome(pattern: string, p: int)
    requires 0 <= p <= |pattern|
    ensures MirrorsFrom(pattern, p) <==> pattern[p..] == Reverse(pattern[p..])
  {
    MirroredAll(pattern, p, p);
    var s := pattern[p..];
    if MirrorsFrom(pattern, p) {
      forall k | 0 <= k < |s| ensures s[k] == Reverse(s)[k] {
        assert pattern[p + k] == pattern[|pattern| - 1 - (p + k) + p];
      }
    }
    if s == Reverse(s) {
      forall i | p <= i < |pattern| ensures pattern[i] == pattern[|pattern| - 1 - i + p] {
        assert s[i - p] == Reverse(s)[i - p];
      }
    }
  }

  /** The smallest `q >= p` for which `is_prefix(q)` holds; `q == m` always
      qualifies. */
  ghost function MinPrefix(pattern: string, p: int): (q: int)
    requires 0 <= p <= |pattern|
    ensures p <= q <= |pattern|
    decreases |pattern| - p
  {
    if p == |pattern| then p
    else if MirrorsFrom(pattern, p) then p
    else MinPrefix(pattern, p + 1)
  }

  /** `MinPrefix(p)` passes `is_prefix` and no start between `p` and it
      does. */
  lemma {:induction false} MinPrefixMeaning(pattern: string, p: int, r: int)
    requires 0 <= p <= |pattern|
    ensures MirrorsFrom(pattern, MinPrefix(pattern, p))
    ensures p <= r < MinPrefix(pattern, p) ==> !MirrorsFrom(pattern, r)
    decreases |pattern| - p
  {
    if p < |pattern| && !MirrorsFrom(pattern, p) {
      MinPrefixMeaning(pattern, p + 1, r);
    }
  }

  /** The number of matching symbols the loop of `length_of_suffix` counts
      from `pattern[i]` and `pattern[j]` backwards. */
  function SuffixRun(pattern: string, i: int, j: int): (r: nat)
    requires -1 <= i <= j < |pattern|
    ensures r <= i + 1
    decreases i + 1
  {
    if i >= 0 && pattern[i] == pattern[j] then 1 + SuffixRun(pattern, i - 1, j - 1) else 0
  }

  /** The run is a common stretch ending at `i` and at `j`, and it is
      maximal: the symbols just before it differ, or it reaches the start. */
  lemma {:induction false} SuffixRunCommon(pattern: string, i: int, j: int, d: int)
    requires -1 <= i <= j < |pattern|
    ensures 0 <= d < SuffixRun(pattern, i, j) ==> pattern[i - d] == pattern[j - d]
    ensures SuffixRun(pattern, i, j) <= i ==>
      pattern[i - SuffixRun(pattern, i, j)] != pattern[j - SuffixRun(pattern, i, j)]
    decreases i + 1
  {
    if i >= 0 && pattern[i] == pattern[j] {
      SuffixRunCommon(pattern, i - 1, j - 1, d - 1);
    }
  }

  /** `length_of_suffix(p)`: the length of the longest common suffix of
      `pattern[..p+1]` and `pattern`. */
  function SuffixLength(pattern: string, p: int): (r: nat)
    requires 0 <= p < |pattern|
    ensures r <= p + 1
  {
    SuffixRun(pattern, p, |pattern| - 1)
  }

  /** The table after the first `k` iterations of the first loop of
      `create_good_suffix_table`: iteration `k - 1` fills entry `m - k`. */
  ghost function FirstPassPartial(pattern: string, k: int): (t: seq<int>)
    requires 0 <= k <= |pattern|
    ensures |t| == |pattern| + 1
  {
    var m := |pattern|;
    if k == 0 then seq(m + 1, _ => 0)
    else
      var x := m - k;
      FirstPassPartial(pattern, k - 1)[x := MinPrefix(pattern, x + 1) - x + m - 1]
  }

  /** The table after the whole first loop. */
  ghost function FirstPass(pattern: string): (t: seq<int>)
    ensures |t| == |pattern| + 1
  {
    FirstPassPartial(pattern, |pattern|)
  }

  /** Entry `x` of the partial table: filled from `MinPrefix(x + 1)` once
      the loop has passed it, 0 before; entry `m` stays 0. */
  lemma {:induction false} FirstPassEntry(pattern: string, k: int, x: int)
    requires 0 <= k <= |pattern| && 0 <= x <= |pattern|
    ensures FirstPassPartial(pattern, k)[x]
      == if |pattern| - k <= x < |pattern| then MinPrefix(pattern, x + 1) - x + |pattern| - 1 else 0
  {
    if k > 0 {
      FirstPassEntry(pattern, k - 1, x);
    }
  }

  /** Whether iteration `i` of the second loop writes: the symbols before
      and at the end of the common suffix differ, read with Python's
      negative-index wrap-around. */
  predicate Writes(pattern: string, i: int)
    requires 0 <= i < |pattern|
  {
    var l := SuffixLength(pattern, i);
    PyAt(pattern, i - l) != PyAt(pattern, |pattern| - 1 - l)
  }

  /** The first `k` iterations of the second loop applied to `t`. */
  function SecondPass(pattern: string, t: seq<int>, k: int): (r: seq<int>)
    requires 0 <= k <= |pattern| && |t| == |pattern| + 1
    ensures |r| == |pattern| + 1
  {
    if k == 0 then t
    else
      var i := k - 1;
      var l := SuffixLength(pattern, i);
      var t' := SecondPass(pattern, t, i);
      if Writes(pattern, i) then t'[|pattern| - 1 - l := |pattern| - 1 - i + l] else t'
  }

  /** `create_good_suffix_table`. */
  ghost function GoodSuffixTable(pattern: string): (t: seq<int>)
    ensures |t| == |pattern| + 1
  {
    SecondPass(pattern, FirstPass(pattern), |pattern|)
  }

  /** A write never touches entry `m` and always stores a positive shift:
      the last iteration compares `pattern[-1]` with itself and writes
      nothing. */
  lemma {:induction false} WriteBounds(pattern: string, i: int)
    requires 0 <= i < |pattern| && Writes(pattern, i)
    ensures 0 <= |pattern| - 1 - SuffixLength(pattern, i) < |pattern|
    ensures |pattern| - 1 - i + SuffixLength(pattern, i) >= 1
  {
    SuffixRunCommon(pattern, i, |pattern| - 1, 0);
  }

  lemma {:induction false} SecondPassShape(pattern: string, t: seq<int>, k: int, x: int)
    requires 0 <= k <= |pattern| && |t| == |pattern| + 1 && 0 <= x <= |pattern|
    requires t[|pattern|] == 0 && forall y :: 0 <= y < |pattern| ==> t[y] >= 1
    ensures x == |pattern| ==> SecondPass(pattern, t, k)[x] == 0
    ensures x < |pattern| ==> SecondPass(pattern, t, k)[x] >= 1
  {
    if k > 0 {
      SecondPassShape(pattern, t, k - 1, x);
      if Writes(pattern, k - 1) {
        WriteBounds(pattern, k - 1);
      }
    }
  }

  lemma {:induction false} SecondPassStep(pattern: string, t: seq<int>, i: int, l: int, before: seq<int>, after: seq<int>)
    requires 0 <= i < |pattern| && |t| == |pattern| + 1 && before == SecondPass(pattern, t, i)
    requires l == SuffixLength(pattern, i)
    requires after == if Writes(pattern, i) then before[|pattern| - 1 - l := |pattern| - 1 - i + l] else before
    ensures after == SecondPass(pattern, t, i + 1)
  {
  }

  /** The good-suffix table has `m + 1` entries; the last is 0 and every
      other one is a shift of at least 1, so `search` always moves on. */
  lemma {:induction false} GoodSuffixShape(pattern: string)
    ensures |GoodSuffixTable(pattern)| == |pattern| + 1
    ensures GoodSuffixTable(pattern)[|pattern|] == 0
    ensures forall x :: 0 <= x < |pattern| ==> GoodSuffixTable(pattern)[x] >= 1
  {
    var t := FirstPass(pattern);
    forall y | 0 <= y <= |pattern|
      ensures y == |pattern| ==> t[y] == 0
      ensures y < |pattern| ==> t[y] >= 1
    {
      FirstPassEntry(pattern, |pattern|, y);
    }
    forall x | 0 <= x <= |pattern|
      ensures x == |pattern| ==> GoodSuffixTable(pattern)[x] == 0
      ensures x < |pattern| ==> GoodSuffixTable(pattern)[x] >= 1
    {
      SecondPassShape(pattern, t, |pattern|, x);
    }
  }

  /** Where the comparison of the pattern against `text[i..]`, from index
      `j` down, stops: the index of a mismatch or -1. */
  function Mismatch(pattern: string, text: string, i: int, j: int): (r: int)
    requires 0 <= i && -1 <= j < |pattern| && i + |pattern| <= |text|
    ensures -1 <= r <= j
    decreases j + 1
  {
    if j >= 0 && pattern[j] == text[i + j] then Mismatch(pattern, text, i, j - 1) else j
  }

  /** Every compared symbol above the stopping index agrees with the text,
      and the one at the stopping index, if any, does not. */
  lemma {:induction false} MismatchMeaning(pattern: string, text: string, i: int, j: int, k: int)
    requires 0 <= i && -1 <= j < |pattern| && i + |pattern| <= |text|
    ensures Mismatch(pattern, text, i, j) < k <= j ==> pattern[k] == text[i + k]
    ensures Mismatch(pattern, text, i, j) >= 0 ==>
      pattern[Mismatch(pattern, text, i, j)] != text[i + Mismatch(pattern, text, i, j)]
    decreases j + 1
  {
    if j >= 0 && pattern[j] == text[i + j] {
      MismatchMeaning(pattern, text, i, j - 1, k);
    }
  }

  /** A stop at -1 means the whole pattern sits in the text at `i`. */
  lemma {:induction false} FullMatch(pattern: string, text: string, i: int)
    requires 0 <= i && i + |pattern| <= |text|
    ensures Mismatch(pattern, text, i, |pattern| - 1) < 0 <==> text[i..i + |pattern|] == pattern
  {
    var j := Mismatch(pattern, text, i, |pattern| - 1);
    forall k | 0 <= k < |pattern| ensures j < 0 ==> pattern[k] == text[i + k] {
      MismatchMeaning(pattern, text, i, |pattern| - 1, k);
    }
    MismatchMeaning(pattern, text, i, |pattern| - 1, 0);
    if j >= 0 {
      assert text[i..i + |pattern|][j] == text[i + j];
    }
  }

  /** The shift after an alignment that stopped at `j`. */
  function Shift(bc: map<char, int>, gs: seq<int>, text: string, i: int, j: int): (s: int)
    requires 0 <= i + j < |text| || j < 0
    requires -1 <= j && j + 1 < |gs|
  {
    if j < 0 then gs[0]
    else
      var badCharacterShift := if text[i + j] in bc then bc[text[i + j]] else -1;
      Max(Max(1, j - badCharacterShift), gs[j + 1])
  }

  function Max(a: int, b: int): (r: int)
    ensures r >= a && r >= b && (r == a || r == b)
  {
    if a >= b then a else b
  }

  /** What alignment `i` appends: `[i]` when the comparison ran off the
      front of the pattern. */
  function Hit(pattern: string, text: string, i: int): seq<int>
    requires 0 <= i && i + |pattern| <= |text|
  {
    if Mismatch(pattern, text, i, |pattern| - 1) < 0 then [i] else []
  }

  /** The alignment after `i`; it always moves forward. */
  function Next(pattern: string, bc: map<char, int>, gs: seq<int>, text: string, i: int): (n: int)
    requires |gs| == |pattern| + 1 && gs[0] >= 1 && 0 <= i && i + |pattern| <= |text|
    ensures n > i
  {
    i + Shift(bc, gs, text, i, Mismatch(pattern, text, i, |pattern| - 1))
  }

  /** The positions `search` appends from alignment `i` on. */
  function BmSearch(pattern: string, bc: map<char, int>, gs: seq<int>, text: string, i: int): seq<int>
    requires |pattern| > 0 && |gs| == |pattern| + 1 && gs[0] >= 1 && i >= 0
    decreases |text| - i
  {
    if i > |text| - |pattern| then []
    else Hit(pattern, text, i) + BmSearch(pattern, bc, gs, text, Next(pattern, bc, gs, text, i))
  }

  /** Every position `search` returns from alignment `i` on is a full match
      at or after `i` that fits in the text. */
  lemma {:induction false} BmSearchSound(pattern: string, bc: map<char, int>, gs: seq<int>, text: string, i: int, p: int)
    requires |pattern| > 0 && |gs| == |pattern| + 1 && gs[0] >= 1 && i >= 0
    requires p in BmSearch(pattern, bc, gs, text, i)
    ensures i <= p <= |text| - |pattern| && text[p..p + |pattern|] == pattern
    decreases |text| - i
  {
    var next := Next(pattern, bc, gs, text, i);
    if p in BmSearch(pattern, bc, gs, text, next) {
      BmSearchSound(pattern, bc, gs, text, next, p);
    } else {
      assert p in Hit(pattern, text, i);
      FullMatch(pattern, text, i);
    }
  }


  /** One alignment of `search`: appending its hit and moving to the next
      alignment keeps `positions + BmSearch(i)` unchanged. */
  lemma {:induction false} SearchStep(pattern: string, bc: map<char, int>, gs: seq<int>, text: string, i: int,
                                      before: seq<int>, after: seq<int>, next: int)
    requires |pattern| > 0 && |gs| == |pattern| + 1 && gs[0] >= 1 && 0 <= i <= |text| - |pattern|
    requires after == before + Hit(pattern, text, i) && next == Next(pattern, bc, gs, text, i)
    ensures after + BmSearch(pattern, bc, gs, text, next) == before + BmSearch(pattern, bc, gs, text, i)
  {
    var hit, rest := Hit(pattern, text, i), BmSearch(pattern, bc, gs, text, next);
    assert BmSearch(pattern, bc, gs, text, i) == hit + rest;
    AppendAssoc(before, hit, rest);
  }

  /** The positions come out strictly increasing. */
  lemma {:induction false} BmSearchIncreasing(pattern: string, bc: map<char, int>, gs: seq<int>, text: string, i: int)
    requires |pattern| > 0 && |gs| == |pattern| + 1 && gs[0] >= 1 && i >= 0
    ensures forall a, b :: 0 <= a < b < |BmSearch(pattern, bc, gs, text, i)| ==>
      BmSearch(pattern, bc, gs, text, i)[a] < BmSearch(pattern, bc, gs, text, i)[b]
    decreases |text| - i
  {
    if i <= |text| - |pattern| {
      var next := Next(pattern, bc, gs, text, i);
      BmSearchIncreasing(pattern, bc, gs, text, next);
      forall k | 0 <= k < |BmSearch(pattern, bc, gs, text, next)|
        ensures BmSearch(pattern, bc, gs, text, next)[k] >= next
      {
        BmSearchSound(pattern, bc, gs, text, next, BmSearch(pattern, bc, gs, text, next)[k]);
      }
    }
  }

  /** For "ana": `is_prefix` holds from 0 ("ana"), 2 ("a") and 3 (""),
      and fails from 1 ("na"). */
  lemma MirrorsAna()
    ensures MirrorsFrom("ana", 0) && !MirrorsFrom("ana", 1) && MirrorsFrom("ana", 2) && MirrorsFrom("ana", 3)
  {
    assert Mirrored("ana", 0, 3) && Mirrored("ana", 0, 2) && Mirrored("ana", 0, 1);
    assert Mirrored("ana", 2, 3);
  }

  /** The first loop leaves [4, 3, 3, 0] for "ana". */
  lemma FirstPassAna()
    ensures FirstPass("ana") == [4, 3, 3, 0]
  {
    MirrorsAna();
    assert MinPrefix("ana", 3) == 3;
    assert MinPrefix("ana", 2) == 2;
    assert MinPrefix("ana", 1) == 2;
    assert FirstPassPartial("ana", 0) == [0, 0, 0, 0];
    assert FirstPassPartial("ana", 1) == [0, 0, 3, 0];
    assert FirstPassPartial("ana", 2) == [0, 3, 3, 0];
  }

  /** The common-suffix lengths of "ana": 1 at 0, 0 at 1 and 3 at 2. */
  lemma SuffixLengthAna()
    ensures SuffixLength("ana", 0) == 1 && SuffixLength("ana", 1) == 0 && SuffixLength("ana", 2) == 3
  {
    assert SuffixRun("ana", -1, 1) == 0;
    assert SuffixRun("ana", -1, 0) == 0 && SuffixRun("ana", 0, 1) == 0;
    assert SuffixRun("ana", -1, -1) == 0 && SuffixRun("ana", 0, 0) == 1 && SuffixRun("ana", 1, 1) == 2;
  }

  /** The good-suffix table of "ana" is [4, 3, 1, 0]: iteration 0 writes 3
      at entry 1, iteration 1 writes 1 at entry 2 and iteration 2 compares
      `pattern[-1]` with itself and writes nothing. */
  lemma GoodSuffixAna()
    ensures GoodSuffixTable("ana") == [4, 3, 1, 0]
  {
    FirstPassAna();
    SuffixLengthAna();
    var t := FirstPass("ana");
    assert Writes("ana", 0) && Writes("ana", 1) && !Writes("ana", 2);
    assert SecondPass("ana", t, 1) == [4, 3, 3, 0];
    assert SecondPass("ana", t, 2) == [4, 3, 1, 0];
  }

  /** The alignments of "ana" over "bananarama" with these tables (the
      text holds "ana" at 1 and at 3): 0
      (mismatch at 2, shift 1), 1 (full match, shift 4), 5 (mismatch at 1
      on 'r', shift 2), 7 (mismatch at 1 on 'm', shift 2), then 9 is past
      the end. */
  lemma {:induction false} SearchAnaTrace(bc: map<char, int>, gs: seq<int>)
    requires bc == map['a' := 2, 'n' := 1] && gs == [4, 3, 1, 0]
    ensures BmSearch("ana", bc, gs, "bananarama", 0) == [1]
    ensures "bananarama"[3..6] == "ana"
  {
    var text := "bananarama";
    assert Mismatch("ana", text, 0, 2) == 2;
    assert Next("ana", bc, gs, text, 0) == 1;
    assert Mismatch("ana", text, 1, 2) == -1;
    assert Next("ana", bc, gs, text, 1) == 5;
    assert Mismatch("ana", text, 5, 2) == 1;
    assert Next("ana", bc, gs, text, 5) == 7;
    assert Mismatch("ana", text, 7, 2) == 1;
    assert Next("ana", bc, gs, text, 7) == 9;
    assert BmSearch("ana", bc, gs, text, 9) == [];
    assert BmSearch("ana", bc, gs, text, 7) == [];
    assert BmSearch("ana", bc, gs, text, 5) == [];
    assert BmSearch("ana", bc, gs, text, 1) == [1];
  }

  /** `search` of "ana" in "bananarama" returns [1]: the occurrence at 3,
      which overlaps the one at 1, is jumped over by the shift of 4 after
      the match. */
  lemma SearchAna()
    ensures BmSearch("ana", BadCharTable("ana"), GoodSuffixTable("ana"), "bananarama", 0) == [1]
  {
    var bc, gs := BadCharTable("ana"), GoodSuffixTable("ana");
    BadCharExample();
    GoodSuffixAna();
    SearchAnaTrace(bc, gs);
  }

  /** The empty pattern's good-suffix table is [0]: after the match at
      every alignment `search` would add `goodSuffixRule[0] == 0` and never
      leave alignment 0. */
  lemma EmptyPatternTable()
    ensures GoodSuffixTable("") == [0]
  {
  }

  /** The object's invariant: both tables are those of its pattern. */
  class BoyerMoore {
    var pattern: string
    var patternLength: int
    var badCharacterRule: map<char, int>
    var goodSuffixRule: seq<int>

    ghost predicate Valid()
      reads this
    {
      && patternLength == |pattern|
      && badCharacterRule == BadCharTable(pattern)
      && goodSuffixRule == GoodSuffixTable(pattern)
      && |goodSuffixRule| == |pattern| + 1 && (|pattern| > 0 ==> goodSuffixRule[0] >= 1)
    }

    constructor (pattern: string)
      ensures this.pattern == pattern && Valid()
    {
      this.pattern := pattern;
      patternLength := |pattern|;
      new;
      badCharacterRule := CreateBadCharacterTable();
      goodSuffixRule := CreateGoodSuffixTable();
      GoodSuffixShape(pattern);
    }

    /** `create_bad_character_table`. */
    method CreateBadCharacterTable() returns (table: map<char, int>)
      ensures table == BadCharTable(pattern)
    {
      table := map[];
      for i := 0 to |pattern|
        invariant table == BadCharTable(pattern[..i])
      {
        assert pattern[..i + 1][..i] == pattern[..i];
        table := table[pattern[i] := i];
      }
      assert pattern[..|pattern|] == pattern;
    }

    /** `create_good_suffix_table`. */
    method CreateGoodSuffixTable() returns (table: seq<int>)
      ensures table == GoodSuffixTable(pattern)
    {
      var pat := pattern;
      var m := |pat|;
      table := seq(m + 1, _ => 0);
      var lastPrefixPosition := m;
      for i := 0 to m
        invariant lastPrefixPosition == MinPrefix(pat, if i == 0 then m else m - i + 1)
        invariant table == FirstPassPartial(pat, i)
      {
        var mirroredI := m - 1 - i;
        var b := IsPrefix(mirroredI + 1);
        if b {
          lastPrefixPosition := mirroredI + 1;
        }
        table := table[mirroredI := lastPrefixPosition - mirroredI + m - 1];
      }
      for i := 0 to m
        invariant table == SecondPass(pat, FirstPass(pat), i)
      {
        var lengthSuffix := LengthOfSuffix(i);
        ghost var before := table;
        if PyAt(pat, i - lengthSuffix) != PyAt(pat, m - 1 - lengthSuffix) {
          table := table[m - 1 - lengthSuffix := m - 1 - i + lengthSuffix];
        }
        SecondPassStep(pat, FirstPass(pat), i, lengthSuffix, before, table);
      }
    }

    /** `is_prefix(p)`. */
    method IsPrefix(p: int) returns (b: bool)
      requires 0 <= p <= |pattern|
      ensures b == MirrorsFrom(pattern, p)
    {
      for i := p to |pattern|
        invariant MirrorsFrom(pattern, p) == Mirrored(pattern, p, i)
      {
        if pattern[i] != pattern[|pattern| - 1 - i + p] {
          return false;
        }
      }
      return true;
    }

    /** `length_of_suffix(p)`. */
    method LengthOfSuffix(p: int) returns (length: int)
      requires 0 <= p < |pattern|
      ensures length == SuffixLength(pattern, p)
    {
      length := 0;
      var i := p;
      var j := |pattern| - 1;
      while i >= 0 && pattern[i] == pattern[j]
        invariant -1 <= i <= j < |pattern| && i == p - length && j == |pattern| - 1 - length
        invariant SuffixRun(pattern, p, |pattern| - 1) == length + SuffixRun(pattern, i, j)
        decreases i + 1
      {
        length := length + 1;
        i := i - 1;
        j := j - 1;
      }
    }

    /** `search(text)`. */
    method Search(text: string) returns (positions: seq<int>)
      requires Valid() && |pattern| > 0
      ensures positions == BmSearch(pattern, badCharacterRule, goodSuffixRule, text, 0)
    {
      var pat, bc, gs := pattern, badCharacterRule, goodSuffixRule;
      positions := [];
      var i := 0;
      while i <= |text| - |pat|
        invariant i >= 0
        invariant positions + BmSearch(pat, bc, gs, text, i) == BmSearch(pat, bc, gs, text, 0)
        decreases |text| - i
      {
        var shift := 1;
        var j := |pat| - 1;
        while j >= 0 && pat[j] == text[i + j]
          invariant -1 <= j < |pat|
          invariant Mismatch(pat, text, i, j) == Mismatch(pat, text, i, |pat| - 1)
        {
          j := j - 1;
        }
        ghost var before, at := positions, i;
        if j < 0 {
          positions := positions + [i];
          i := i + gs[0];
        } else {
          var badCharacterShift := if text[i + j] in bc then bc[text[i + j]] else -1;
          i := i + Max(Max(shift, j - badCharacterShift), gs[j + 1]);
        }
        SearchStep(pat, bc, gs, text, at, before, positions, i);
      }
    }
  }
}
