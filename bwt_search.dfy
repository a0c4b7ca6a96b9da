/** FM-index backward search: what `procuraPadraoBWT` computes, read with
    the count table as `Count` over prefixes of the transform and the
    first-occurrence table as `FirstIndex` in its sorted copy, and the
    proof that over the transform of a sentinel-terminated text it lists
    the rows whose rotation starts with the pattern. */
module BwtSearch {
  import opened Lex
  import opened Sorting
  import opened Counting
  import opened BwtSpec
  import opened BwtTheory

  /** The list `procuraPadraoBWT` returns, or the `KeyError` it raises. */
  datatype SearchOutcome = Found(positions: seq<int>) | KeyError(symbol: char)

  /** Where the backward search loop stops: the row interval `[top, bottom]`
      it ends with (empty when `top > bottom`), or the symbol whose lookup
      in the count table raises `KeyError`. */
  datatype SearchEnd = Rows(top: int, bottom: int) | Missing(symbol: char)

  /** The count table: `count[c][i]` is the number of `c` in `bwt[0:i]`,
      for every symbol `c` of `bwt`. */
  function CountMap(bwt: string): map<char, seq<int>> {
    map c | c in bwt :: seq(|bwt| + 1, i requires 0 <= i <= |bwt| => Count(bwt[..i], c))
  }

  /** The first-occurrence table: the first index of each symbol of the
      sorted transform. */
  function FirstMap(sortedBwt: string): map<char, int> {
    map c | c in sortedBwt :: FirstIndex(sortedBwt, c)
  }

  lemma CountMapAt(bwt: string, c: char, i: int)
    requires c in bwt && 0 <= i <= |bwt|
    ensures c in CountMap(bwt) && |CountMap(bwt)[c]| == |bwt| + 1
    ensures CountMap(bwt)[c][i] == Count(bwt[..i], c)
  {
  }

  /** What the search loop needs of its tables to stay within the rows
      `0..n-1`: every counted symbol has a first occurrence, a count list
      of length `n + 1`, and counts that keep its block within the rows. */
  ghost predicate Tables(count: map<char, seq<int>>, first: map<char, int>, n: nat) {
    forall c :: c in count ==>
      && c in first && |count[c]| == n + 1
      && forall i :: 0 <= i <= n ==> 0 <= first[c] + count[c][i] <= n
  }

  /** The tables of a transform and of its sorted copy have that shape. */
  lemma TablesOf(bwt: string, sortedBwt: string)
    requires multiset(sortedBwt) == multiset(bwt)
    ensures Tables(CountMap(bwt), FirstMap(sortedBwt), |bwt|)
  {
    forall c | c in CountMap(bwt)
      ensures && c in FirstMap(sortedBwt) && |CountMap(bwt)[c]| == |bwt| + 1
              && forall i :: 0 <= i <= |bwt| ==> 0 <= FirstMap(sortedBwt)[c] + CountMap(bwt)[c][i] <= |bwt|
    {
      forall i | 0 <= i <= |bwt|
        ensures c in FirstMap(sortedBwt) && 0 <= FirstMap(sortedBwt)[c] + CountMap(bwt)[c][i] <= |bwt|
      {
        CountMapAt(bwt, c, i);
        TableBounds(bwt, sortedBwt, c, i);
      }
      CountMapAt(bwt, c, 0);
      TableBounds(bwt, sortedBwt, c, 0);
    }
  }

  /** The search loop from the row interval `[top, bottom]` of `n` rows,
      with `p` still to be read from its end, over the count table `count`
      and the first-occurrence table `first`. */
  function SearchFrom(count: map<char, seq<int>>, first: map<char, int>, n: nat,
                      p: string, top: int, bottom: int): (e: SearchEnd)
    requires Tables(count, first, n) && 0 <= top && bottom < n
    ensures e.Rows? ==> 0 <= e.top && e.bottom < n
    decreases |p|
  {
    if top > bottom || p == [] then Rows(top, bottom)
    else
      var c := p[|p| - 1];
      if c !in count then Missing(c)
      else
        var lo, hi := count[c][top], count[c][bottom + 1];
        if hi > lo then SearchFrom(count, first, n, p[..|p| - 1], first[c] + lo, first[c] + hi - 1)
        else Rows(first[c] + lo, first[c] + hi - 1)
  }

  /** What `procuraPadraoBWT` returns once its loop ends with `e`: the
      `KeyError`, or the sorted suffix-array entries of the final rows. */
  function Outcome(e: SearchEnd, sa: seq<int>): SearchOutcome
    requires e.Rows? ==> 0 <= e.top && e.bottom < |sa|
  {
    match e
    case Missing(c) => KeyError(c)
    case Rows(top, bottom) =>
      if top > bottom then Found([]) else Found(Sort(sa[top..bottom + 1], IntLe()))
  }

  /** The whole search, as `procuraPadraoBWT` runs it: the loop from all
      rows over the tables of `bwt` and `sortedBwt`, then the outcome of
      the interval it ends with. */
  function Search(bwt: string, sortedBwt: string, sa: seq<int>, p: string): SearchOutcome
    requires multiset(sortedBwt) == multiset(bwt) && |sa| == |bwt|
  {
    TablesOf(bwt, sortedBwt);
    Outcome(SearchFrom(CountMap(bwt), FirstMap(sortedBwt), |bwt|, p, 0, |bwt| - 1), sa)
  }

  /** One step of the search loop over the tables of `bwt` and `sortedBwt`:
      reading the last symbol `c` of `p`, a symbol of the transform,
      continues with the rest `p'` from the interval `[top', bottom']` that
      the counts and first index of `c` select, or stops there when it is
      empty. */
  lemma SearchFromStep(count: map<char, seq<int>>, first: map<char, int>, n: nat,
                        bwt: string, sortedBwt: string, p: string, top: nat, bottom: int,
                        c: char, p': string, top': int, bottom': int)
    requires multiset(sortedBwt) == multiset(bwt)
    requires count == CountMap(bwt) && first == FirstMap(sortedBwt) && n == |bwt|
    requires top <= bottom < n && p != [] && c == p[|p| - 1] && c in bwt && c in sortedBwt
    requires p' == p[..|p| - 1]
    requires top' == FirstIndex(sortedBwt, c) + Count(bwt[..top], c)
    requires bottom' == FirstIndex(sortedBwt, c) + Count(bwt[..bottom + 1], c) - 1
    ensures Tables(count, first, n) && 0 <= top' && bottom' < n
    ensures SearchFrom(count, first, n, p, top, bottom)
            == if top' <= bottom' then SearchFrom(count, first, n, p', top', bottom')
               else Rows(top', bottom')
  {
    TablesOf(bwt, sortedBwt);
    CountMapAt(bwt, c, top);
    CountMapAt(bwt, c, bottom + 1);
    assert first[c] == FirstIndex(sortedBwt, c);
    TableStep(count, first, n, p, top, bottom, c, p', top', bottom');
  }

  /** The step of `SearchFrom` for a symbol `c` of the count table, read
      off the tables alone. */
  lemma TableStep(count: map<char, seq<int>>, first: map<char, int>, n: nat,
                  p: string, top: nat, bottom: int, c: char, p': string, top': int, bottom': int)
    requires Tables(count, first, n) && top <= bottom < n
    requires p != [] && c == p[|p| - 1] && c in count && p' == p[..|p| - 1]
    requires top' == first[c] + count[c][top] && bottom' == first[c] + count[c][bottom + 1] - 1
    ensures 0 <= top' && bottom' < n
    ensures SearchFrom(count, first, n, p, top, bottom)
            == if top' <= bottom' then SearchFrom(count, first, n, p', top', bottom')
               else Rows(top', bottom')
  {
  }

  /** A symbol of the transform has a first occurrence in its sorted copy,
      and its block there ends within the copy. */
  lemma TableBounds(bwt: string, sortedBwt: string, c: char, k: nat)
    requires multiset(sortedBwt) == multiset(bwt) && c in bwt && k <= |bwt|
    ensures c in sortedBwt
    ensures FirstIndex(sortedBwt, c) + Count(bwt[..k], c) <= |bwt|
  {
    assert c in multiset(bwt);
    assert c in sortedBwt;
    FirstIndexRoom(sortedBwt, c);
    CountMonotone(bwt, c, k, |bwt|);
    assert bwt[..|bwt|] == bwt;
    CountMultiset(bwt, c);
    CountMultiset(sortedBwt, c);
  }

  /** Python raises `KeyError` while some symbol of `x` is missing from `s`
      and the part of `x` after it still matches somewhere. */
  ghost predicate RaisesKeyError(s: string, x: string) {
    exists k :: 0 <= k < |x| && x[k] !in s && MatchesSomewhere(s, x[k + 1..])
  }

  /** `w` matches `s` cyclically at some position. */
  ghost predicate MatchesSomewhere(s: string, w: string) {
    exists q: nat :: q < |s| && CyclicMatch(s, q, w)
  }

  ghost predicate Increasing(ps: seq<int>) {
    forall i, j :: 0 <= i < j < |ps| ==> ps[i] < ps[j]
  }

  /** `ps` lists, strictly increasing, exactly the positions where `x`
      matches `s` cyclically. */
  ghost predicate ListsMatches(s: string, x: string, ps: seq<int>) {
    && Increasing(ps)
    && (forall q :: q in ps <==> 0 <= q < |s| && CyclicMatch(s, q, x))
  }

  /** What the search of `x` in the transform of `s` should give. */
  ghost predicate SearchMeets(s: string, x: string, r: SearchOutcome) {
    && (r.KeyError? <==> RaisesKeyError(s, x))
    && (r.KeyError? ==> r.symbol !in s && r.symbol in x)
    && (r.Found? ==> ListsMatches(s, x, r.positions))
  }

  /** Rows `[top, bottom]` are exactly the rows whose rotation starts with `w`. */
  ghost predicate IsInterval(s: string, w: string, top: int, bottom: int) {
    forall i :: 0 <= i < |s| ==> (top <= i <= bottom <==> CyclicMatch(s, SA(s)[i], w))
  }

  lemma CyclicMatchCons(s: string, q: nat, c: char, w: string)
    requires q < |s|
    ensures CyclicMatch(s, q, [c] + w) <==> s[q] == c && CyclicMatch(s, Next(|s|, q), w)
  {
    assert ([c] + w)[1..] == w;
  }

  /** A cyclic match of `u + v` continues with a cyclic match of `v`. */
  lemma {:induction false} CyclicMatchSuffix(s: string, q: nat, u: string, v: string) returns (q': nat)
    requires q < |s| && CyclicMatch(s, q, u + v)
    ensures q' < |s| && CyclicMatch(s, q', v)
    decreases |u|
  {
    if u == [] {
      assert u + v == v;
      q' := q;
    } else {
      assert (u + v)[1..] == u[1..] + v;
      q' := CyclicMatchSuffix(s, Next(|s|, q), u[1..], v);
    }
  }

  /** Every symbol of the text is in the transform and in its first column. */
  lemma SymbolsOfColumns(s: string, c: char)
    requires c in s
    ensures c in BwtOf(s) && c in FirstOf(s)
  {
    var p :| 0 <= p < |s| && s[p] == c;
    var sa := SA(s);
    var r := Rank(s, p);
    assert FirstOf(s)[r] == c;
    var r' := Rank(s, Next(|s|, p));
    PredNext(|s|, p);
    assert BwtOf(s)[r'] == c;
  }

  lemma SymbolsOfBwt(s: string, c: char)
    requires c in BwtOf(s)
    ensures c in s
  {
    var i :| 0 <= i < |s| && BwtOf(s)[i] == c;
    assert s[Pred(|s|, SA(s)[i])] == c;
  }

  /** A row in the stepped interval starts with `c` followed by `w`. */
  lemma StepInto(s: string, w: string, c: char, top: nat, bottom: nat, j: nat)
    requires Terminated(s) && top <= bottom < |s| && IsInterval(s, w, top, bottom)
    requires c in FirstOf(s) && j < |s|
    requires FirstIndex(FirstOf(s), c) + Count(BwtOf(s)[..top], c) <= j
    requires j < FirstIndex(FirstOf(s), c) + Count(BwtOf(s)[..bottom + 1], c)
    ensures CyclicMatch(s, SA(s)[j], [c] + w)
  {
    var L, F, sa := BwtOf(s), FirstOf(s), SA(s);
    var fo := FirstIndex(F, c);
    var r: nat := j - fo;
    assert Count(L[..top], c) <= r < Count(L[..bottom + 1], c);
    var i := FindOccurrence(L, c, top, bottom + 1, r);
    LFIndex(s, i);
    assert LFRow(s, i) == j;
    PredNext(|s|, sa[i]);
    CyclicMatchCons(s, sa[j], c, w);
  }

  /** The occurrence of `c` of a given rank between two prefix counts. */
  lemma FindOccurrence(L: string, c: char, lo: nat, hi: nat, r: nat) returns (i: nat)
    requires lo <= hi <= |L| && Count(L[..lo], c) <= r < Count(L[..hi], c)
    ensures lo <= i < hi && L[i] == c && Count(L[..i], c) == r
  {
    OccurrenceAt(L[..hi], c, r);
    var k :| 0 <= k < hi && L[..hi][k] == c && Count(L[..hi][..k], c) == r;
    assert L[..hi][..k] == L[..k];
    i := k;
    if i < lo {
      CountStep(L, c, i);
      CountMonotone(L, c, i + 1, lo);
    }
  }

  /** A row starting with `c` followed by `w` lies in the stepped interval. */
  lemma StepOnto(s: string, w: string, c: char, top: nat, bottom: nat, j: nat)
    requires Terminated(s) && top <= bottom < |s| && IsInterval(s, w, top, bottom)
    requires c in FirstOf(s) && j < |s| && CyclicMatch(s, SA(s)[j], [c] + w)
    ensures FirstIndex(FirstOf(s), c) + Count(BwtOf(s)[..top], c) <= j
    ensures j < FirstIndex(FirstOf(s), c) + Count(BwtOf(s)[..bottom + 1], c)
  {
    var L := BwtOf(s);
    var i := StepBack(s, w, c, top, bottom, j);
    CountBetween(L, c, top, i, bottom + 1);
  }

  /** The row a matching row steps back from: it lies among the rows
      starting with `w`, ends with `c`, and the LF mapping takes it to `j`. */
  lemma StepBack(s: string, w: string, c: char, top: nat, bottom: nat, j: nat) returns (i: nat)
    requires Terminated(s) && top <= bottom < |s| && IsInterval(s, w, top, bottom)
    requires c in FirstOf(s) && j < |s| && CyclicMatch(s, SA(s)[j], [c] + w)
    ensures top <= i <= bottom && BwtOf(s)[i] == c
    ensures j == FirstIndex(FirstOf(s), c) + Count(BwtOf(s)[..i], c)
  {
    var sa := SA(s);
    CyclicMatchCons(s, sa[j], c, w);
    i := Rank(s, Next(|s|, sa[j]));
    PredNext(|s|, sa[j]);
    assert BwtOf(s)[i] == c;
    RankOfRow(s, j);
    assert LFRow(s, i) == j;
    LFIndex(s, i);
  }

  /** An occurrence at `i` between `lo` and `hi` is counted after `lo`
      and before `hi`. */
  lemma CountBetween(L: string, c: char, lo: nat, i: nat, hi: nat)
    requires lo <= i < hi <= |L| && L[i] == c
    ensures Count(L[..lo], c) <= Count(L[..i], c) < Count(L[..hi], c)
  {
    CountMonotone(L, c, lo, i);
    CountStep(L, c, i);
    CountMonotone(L, c, i + 1, hi);
  }

  /** One backward step: from the rows starting with `w` to those starting
      with `c` followed by `w`. */
  lemma BackwardStep(s: string, w: string, c: char, top: nat, bottom: nat)
    requires Terminated(s) && top <= bottom < |s| && IsInterval(s, w, top, bottom)
    requires c in FirstOf(s)
    ensures IsInterval(s, [c] + w,
      FirstIndex(FirstOf(s), c) + Count(BwtOf(s)[..top], c),
      FirstIndex(FirstOf(s), c) + Count(BwtOf(s)[..bottom + 1], c) - 1)
  {
    var lo := FirstIndex(FirstOf(s), c) + Count(BwtOf(s)[..top], c);
    var hi := FirstIndex(FirstOf(s), c) + Count(BwtOf(s)[..bottom + 1], c) - 1;
    forall j | 0 <= j < |s|
      ensures lo <= j <= hi <==> CyclicMatch(s, SA(s)[j], [c] + w)
    {
      if lo <= j <= hi {
        StepInto(s, w, c, top, bottom, j);
      }
      if CyclicMatch(s, SA(s)[j], [c] + w) {
        StepOnto(s, w, c, top, bottom, j);
      }
    }
  }

  /** The positions listed for an interval are the sorted start positions
      of its rows. */
  lemma IntervalPositions(s: string, w: string, top: nat, bottom: nat)
    requires top <= bottom < |s| && IsInterval(s, w, top, bottom)
    ensures ListsMatches(s, w, Sort(SA(s)[top..bottom + 1], IntLe()))
  {
    var sa := SA(s);
    var rows := sa[top..bottom + 1];
    var ps := Sort(rows, IntLe());
    assert TotalPreorder(IntLe());
    SortSorted(rows, IntLe());
    forall q ensures q in ps <==> q in rows {
      assert q in ps <==> q in multiset(ps);
      assert q in rows <==> q in multiset(rows);
    }
    forall q ensures q in rows <==> 0 <= q < |s| && CyclicMatch(s, q, w) {
      if q in rows {
        var k :| 0 <= k < |rows| && rows[k] == q;
        assert sa[top + k] == q;
      }
      if 0 <= q < |s| && CyclicMatch(s, q, w) {
        var r := Rank(s, q);
        assert rows[r - top] == q;
      }
    }
    forall i, j | 0 <= i < j < |ps| ensures ps[i] < ps[j] {
      assert IntLe()(ps[i], ps[j]);
      if ps[i] == ps[j] {
        TwoPositions(ps, i, j);
        IntervalDistinct(s, top, bottom, ps[i]);
      }
    }
  }

  lemma IntervalDistinct(s: string, top: nat, bottom: nat, q: int)
    requires top <= bottom < |s|
    ensures multiset(SA(s)[top..bottom + 1])[q] <= 1
  {
    var rows := SA(s)[top..bottom + 1];
    forall i, j | 0 <= i < j < |rows| ensures rows[i] != rows[j] {
      SuffixArrayDistinct(s, top + i, top + j);
    }
    DistinctCount(rows, q);
  }

  /** No row matches `w`, so nothing matches anything ending with `w`. */
  lemma NoMatchEnding(s: string, p: string, w: string)
    requires forall q :: 0 <= q < |s| ==> !CyclicMatch(s, q, w)
    requires forall k :: 0 <= k < |w| ==> w[k] in s
    ensures forall q :: 0 <= q < |s| ==> !CyclicMatch(s, q, p + w)
    ensures !RaisesKeyError(s, p + w)
  {
    NoMatchExtended(s, p, w);
    NoKeyErrorAfter(s, p, w);
  }

  /** No position matches `p + w` when none matches `w`. */
  lemma NoMatchExtended(s: string, p: string, w: string)
    requires forall q :: 0 <= q < |s| ==> !CyclicMatch(s, q, w)
    ensures forall q :: 0 <= q < |s| ==> !CyclicMatch(s, q, p + w)
  {
    forall q | 0 <= q < |s| ensures !CyclicMatch(s, q, p + w) {
      if CyclicMatch(s, q, p + w) {
        var q' := CyclicMatchSuffix(s, q, p, w);
      }
    }
  }

  /** No `KeyError` is due for `p + w` when no position matches `w` and
      every symbol of `w` is in `s`. */
  lemma NoKeyErrorAfter(s: string, p: string, w: string)
    requires forall q :: 0 <= q < |s| ==> !CyclicMatch(s, q, w)
    requires forall k :: 0 <= k < |w| ==> w[k] in s
    ensures !RaisesKeyError(s, p + w)
  {
    forall k | 0 <= k < |p + w| && (p + w)[k] !in s
      ensures !MatchesSomewhere(s, (p + w)[k + 1..])
    {
      if k < |p| {
        NoMatchBefore(s, p[k + 1..], w);
        assert (p + w)[k + 1..] == p[k + 1..] + w;
      }
    }
  }

  /** Nothing matches `u + v` where nothing matches `v`. */
  lemma NoMatchBefore(s: string, u: string, v: string)
    requires forall q :: 0 <= q < |s| ==> !CyclicMatch(s, q, v)
    ensures !MatchesSomewhere(s, u + v)
  {
    if MatchesSomewhere(s, u + v) {
      var q: nat :| q < |s| && CyclicMatch(s, q, u + v);
      var q' := CyclicMatchSuffix(s, q, u, v);
    }
  }

  /** What the loop should end with for the pattern `x`: the `KeyError`
      exactly when the specification raises it, and otherwise the rows
      whose rotation starts with `x`. */
  ghost predicate EndMeets(s: string, x: string, e: SearchEnd) {
    match e
    case Missing(c) => c !in s && c in x && RaisesKeyError(s, x)
    case Rows(top, bottom) => !RaisesKeyError(s, x) && IsInterval(s, x, top, bottom)
  }

  /** The search from an interval of the rows starting with `w` meets the
      specification for the whole pattern `p + w`. */
  lemma {:induction false} SearchFromCorrect(s: string, F: string, count: map<char, seq<int>>, first: map<char, int>,
                                             p: string, w: string, top: nat, bottom: int)
    requires Terminated(s) && F == FirstOf(s) && multiset(F) == multiset(BwtOf(s))
    requires count == CountMap(BwtOf(s)) && first == FirstMap(F) && Tables(count, first, |s|)
    requires bottom < |s| && IsInterval(s, w, top, bottom)
    requires forall k :: 0 <= k < |w| ==> w[k] in s
    ensures EndMeets(s, p + w, SearchFrom(count, first, |s|, p, top, bottom))
    decreases |p|, 1
  {
    if top > bottom {
      EmptyInterval(s, w, top, bottom);
      NoMatchEnding(s, p, w);
      EmptyEnd(s, p + w, top, bottom);
    } else if p == [] {
      assert p + w == w;
    } else if p[|p| - 1] !in BwtOf(s) {
      MissingSymbol(s, p, w, top, bottom);
    } else {
      SearchStepCorrect(s, F, count, first, p, w, top, bottom);
    }
  }

  /** The backward step for a symbol of the transform, then the search of
      the rest of the pattern from the stepped interval. */
  lemma {:induction false} SearchStepCorrect(s: string, F: string, count: map<char, seq<int>>, first: map<char, int>,
                                             p: string, w: string, top: nat, bottom: int)
    requires Terminated(s) && F == FirstOf(s) && multiset(F) == multiset(BwtOf(s))
    requires count == CountMap(BwtOf(s)) && first == FirstMap(F) && Tables(count, first, |s|)
    requires bottom < |s| && IsInterval(s, w, top, bottom)
    requires forall k :: 0 <= k < |w| ==> w[k] in s
    requires top <= bottom && p != [] && p[|p| - 1] in BwtOf(s)
    ensures EndMeets(s, p + w, SearchFrom(count, first, |s|, p, top, bottom))
    decreases |p|, 0
  {
    var L := BwtOf(s);
    var c := p[|p| - 1];
    var p' := p[..|p| - 1];
    var x := [c] + w;
    assert p + w == p' + x;
    SymbolsOfBwt(s, c);
    SymbolsOfColumns(s, c);
    BackwardStep(s, w, c, top, bottom);
    KnownSymbols(s, c, w);
    var f := FirstIndex(F, c);
    var top' := f + Count(L[..top], c);
    var bottom' := f + Count(L[..bottom + 1], c) - 1;
    SearchFromStep(count, first, |s|, L, F, p, top, bottom, c, p', top', bottom');
    if top' <= bottom' {
      SearchFromCorrect(s, F, count, first, p', x, top', bottom');
    } else {
      EmptyInterval(s, x, top', bottom');
      NoMatchEnding(s, p', x);
      EmptyEnd(s, p + w, top', bottom');
    }
  }

  /** An empty interval ends the search correctly once nothing matches. */
  lemma EmptyEnd(s: string, x: string, top: int, bottom: int)
    requires top > bottom && !RaisesKeyError(s, x)
    requires forall q :: 0 <= q < |s| ==> !CyclicMatch(s, q, x)
    ensures EndMeets(s, x, Rows(top, bottom))
  {
  }

  /** An empty interval of rows means no position matches. */
  lemma EmptyInterval(s: string, w: string, top: int, bottom: int)
    requires top > bottom && IsInterval(s, w, top, bottom)
    ensures forall q :: 0 <= q < |s| ==> !CyclicMatch(s, q, w)
  {
    forall q | 0 <= q < |s| ensures !CyclicMatch(s, q, w) {
      var i := Rank(s, q);
    }
  }

  /** The last unread symbol of the pattern is missing from the transform
      while the rows matching the rest are not empty: Python raises
      `KeyError`, as the specification asks. */
  lemma MissingSymbol(s: string, p: string, w: string, top: nat, bottom: nat)
    requires Terminated(s) && top <= bottom < |s| && IsInterval(s, w, top, bottom)
    requires p != [] && p[|p| - 1] !in BwtOf(s)
    ensures p[|p| - 1] !in s && RaisesKeyError(s, p + w)
  {
    var c := p[|p| - 1];
    assert c !in s by {
      if c in s {
        SymbolsOfColumns(s, c);
      }
    }
    assert (p + w)[|p| - 1] == c;
    assert (p + w)[|p|..] == w;
    var q := SA(s)[top];
    assert CyclicMatch(s, q, w);
    assert MatchesSomewhere(s, (p + w)[|p|..]);
  }

  lemma KnownSymbols(s: string, c: char, w: string)
    requires c in s && forall k :: 0 <= k < |w| ==> w[k] in s
    ensures forall k :: 0 <= k < |[c] + w| ==> ([c] + w)[k] in s
  {
    forall k | 0 <= k < |[c] + w| ensures ([c] + w)[k] in s {
      if k > 0 {
        assert ([c] + w)[k] == w[k - 1];
      }
    }
  }

  /** Search correctness: over the transform of a sentinel-terminated text,
      its sorted copy and its suffix array, the search lists exactly the
      positions where the pattern matches the text read cyclically, in
      increasing order, or raises `KeyError` for a symbol missing from the
      text exactly when the reading of the pattern reaches it. */
  lemma SearchCorrect(s: string, p: string)
    requires Terminated(s)
    ensures SearchMeets(s, p, Search(BwtOf(s), Sort(BwtOf(s), CharLe()), SuffixArray(s), p))
  {
    var L, F := BwtOf(s), Sort(BwtOf(s), CharLe());
    assert IsInterval(s, [], 0, |s| - 1) by {
      forall i | 0 <= i < |s| ensures CyclicMatch(s, SA(s)[i], []) {
      }
    }
    assert p + [] == p;
    SortedBwtIsFirst(s);
    TablesOf(L, F);
    SearchFromCorrect(s, F, CountMap(L), FirstMap(F), p, [], 0, |s| - 1);
    SuffixArrayIsSA(s);
    OutcomeCorrect(s, p, SearchFrom(CountMap(L), FirstMap(F), |L|, p, 0, |L| - 1));
  }

  /** From the interval the loop ends with to the outcome the search returns. */
  lemma OutcomeCorrect(s: string, p: string, e: SearchEnd)
    requires e.Rows? ==> 0 <= e.top && e.bottom < |s|
    requires EndMeets(s, p, e)
    ensures SearchMeets(s, p, Outcome(e, SA(s)))
  {
    match e
    case Missing(c) =>
    case Rows(top, bottom) =>
      if top > bottom {
        EmptyOutcome(s, p, top, bottom);
      } else {
        RowsOutcome(s, p, top, bottom);
      }
  }

  lemma EmptyOutcome(s: string, p: string, top: int, bottom: int)
    requires top > bottom && 0 <= top && bottom < |s| && EndMeets(s, p, Rows(top, bottom))
    ensures SearchMeets(s, p, Outcome(Rows(top, bottom), SA(s)))
  {
    EmptyInterval(s, p, top, bottom);
  }

  lemma RowsOutcome(s: string, p: string, top: nat, bottom: nat)
    requires top <= bottom < |s| && EndMeets(s, p, Rows(top, bottom))
    ensures SearchMeets(s, p, Outcome(Rows(top, bottom), SA(s)))
  {
    IntervalPositions(s, p, top, bottom);
    FoundMeets(s, p, Sort(SA(s)[top..bottom + 1], IntLe()));
  }

  lemma FoundMeets(s: string, p: string, ps: seq<int>)
    requires !RaisesKeyError(s, p) && ListsMatches(s, p, ps)
    ensures SearchMeets(s, p, Found(ps))
  {
  }

  /** A cyclic match that stays inside the text is an occurrence, and
      every occurrence is such a match. */
  lemma {:induction false} CyclicWithin(s: string, q: nat, w: string)
    requires q < |s|
    ensures CyclicMatch(s, q, w) && q + |w| <= |s| <==> OccursAt(s, q, w)
    decreases |w|
  {
    if w != [] {
      if q + 1 < |s| {
        CyclicWithin(s, q + 1, w[1..]);
        if q + |w| <= |s| {
          assert s[q..q + |w|] == [s[q]] + s[q + 1..q + |w|];
          assert w == [w[0]] + w[1..];
        }
      } else if |w| > 1 {
        assert !OccursAt(s, q, w);
      } else {
        assert s[q..q + |w|] == [s[q]];
        assert w == [w[0]];
      }
    }
  }

  /** With no sentinel before its last symbol, a pattern matches a
      sentinel-terminated text cyclically only where it occurs. */
  lemma {:induction false} CyclicIsLinear(s: string, q: nat, w: string)
    requires Terminated(s) && q < |s| && (|w| > 0 ==> '$' !in w[..|w| - 1])
    ensures CyclicMatch(s, q, w) <==> OccursAt(s, q, w)
    decreases |w|
  {
    CyclicWithin(s, q, w);
    if |w| > 1 && CyclicMatch(s, q, w) {
      assert s[q] == w[0];
      assert q != |s| - 1;
      assert w[1..][..|w[1..]| - 1] == w[..|w| - 1][1..];
      CyclicIsLinear(s, q + 1, w[1..]);
    }
  }

  /** The search as written also reports wrap-around matches: in "ab$" the
      rotation at 2 is "$ab", so "$a" is reported at 2, where it does not
      occur. */
  lemma WrapAroundMatch()
    ensures var s, p := "ab$", "$a";
      && Terminated(s)
      && Search(BwtOf(s), Sort(BwtOf(s), CharLe()), SuffixArray(s), p).Found?
      && 2 in Search(BwtOf(s), Sort(BwtOf(s), CharLe()), SuffixArray(s), p).positions
      && !OccursAt(s, 2, p)
  {
    var s, p := "ab$", "$a";
    assert s[..|s| - 1] == "ab";
    SearchCorrect(s, p);
    assert CyclicMatch(s, 2, p) by {
      assert p[1..] == "a";
      assert CyclicMatch(s, 0, "a") by {
        assert "a"[1..] == [];
      }
    }
    assert !RaisesKeyError(s, p) by {
      forall k | 0 <= k < |p| ensures p[k] in s {
        assert s[2] == '$' && s[0] == 'a';
      }
    }
  }

  /** The search restricted to matches that stay inside the text: the
      occurrence list of the pattern. */
  function LinearMatches(n: nat, p: string, ps: seq<int>): (r: seq<int>)
    ensures forall q :: q in r <==> q in ps && q + |p| <= n
    ensures Increasing(ps) ==> Increasing(r)
  {
    if ps == [] then []
    else
      assert ps == [ps[0]] + ps[1..];
      assert Increasing(ps) ==> Increasing(ps[1..]);
      var rest := LinearMatches(n, p, ps[1..]);
      if ps[0] + |p| <= n then
        assert Increasing(ps) ==> Increasing([ps[0]] + rest) by {
          if Increasing(ps) {
            forall i, j | 0 <= i < j < |rest| + 1 ensures ([ps[0]] + rest)[i] < ([ps[0]] + rest)[j] {
              assert rest[j - 1] in rest;
            }
          }
        }
        [ps[0]] + rest
      else rest
  }

  /** The corrected search meets the occurrence specification: it lists,
      increasing, exactly the positions where the pattern occurs. */
  lemma LinearSearchCorrect(s: string, p: string)
    requires Terminated(s)
    ensures var r := Search(BwtOf(s), Sort(BwtOf(s), CharLe()), SuffixArray(s), p);
      r.Found? ==>
        && Increasing(LinearMatches(|s|, p, r.positions))
        && forall q :: q in LinearMatches(|s|, p, r.positions) <==> 0 <= q < |s| && OccursAt(s, q, p)
  {
    SearchCorrect(s, p);
    var r := Search(BwtOf(s), Sort(BwtOf(s), CharLe()), SuffixArray(s), p);
    if r.Found? {
      forall q ensures q in LinearMatches(|s|, p, r.positions) <==> 0 <= q < |s| && OccursAt(s, q, p) {
        if 0 <= q < |s| {
          CyclicWithin(s, q, p);
        }
      }
    }
  }
}
