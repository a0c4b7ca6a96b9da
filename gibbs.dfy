/** The deterministic parts of the Gibbs motif sampler: the alphabet of a
    sequence type, the position weight matrix of aligned sequences, the
    windows a sampling step keeps, and the score of a set of offsets. The
    fields of the `pwm` and `Gibbs` objects (`seqs`, `w`, `seq_type`,
    `pseudo`) are parameters here. */
module GibbsMotifs {
  import opened Optional
  import opened PyStr
  import opened Counting

  const DnaAlphabet := "ACGT"
  const RnaAlphabet := "ACGU"
  const ProteinAlphabet := "ABCDEFGHIKLMNPQRSTVWYZ"

  const LengthMessage := "As sequencias devem possuir o mesmo tamanho"
  const IndexMessage := "list index out of range"

  function TypeMessage(seqType: string): string
  {
    " The seq type " + seqType + " is not a valid biological sequence"
  }

  /** `str(n)` for a natural number. */
  function Decimal(n: nat): (r: string)
    ensures |r| > 0
  {
    var d := ['0' + (n % 10) as char];
    if n < 10 then d else Decimal(n / 10) + d
  }

  function ElementMessage(elem: char, pos: nat, s: string, seqType: string): string
  {
    "The element '" + [elem] + "' at position " + Decimal(pos + 1) + " in sequence " + s
    + " is not in the alphabet of " + seqType + ". Please ensure all elements are in uppercase."
  }

  /** No symbol occurs twice in `s`. */
  predicate Distinct(s: string)
  {
    |s| == 0 || (s[0] !in s[1..] && Distinct(s[1..]))
  }

  /** Each symbol of `s` comes before the next one in character order. */
  predicate Ascending(s: string)
  {
    forall i :: 0 < i < |s| ==> s[i - 1] < s[i]
  }

  /** An ascending string has no repetitions, and starts with its least
      symbol. */
  lemma {:induction false} AscendingDistinct(s: string)
    requires Ascending(s)
    ensures Distinct(s)
    ensures |s| > 0 ==> forall j :: 0 <= j < |s| ==> s[0] <= s[j]
  {
    if |s| > 0 {
      assert Ascending(s[1..]) by {
        forall i | 0 < i < |s[1..]|
          ensures s[1..][i - 1] < s[1..][i]
        {
          assert s[1..][i - 1] == s[i] && s[1..][i] == s[i + 1];
        }
      }
      AscendingDistinct(s[1..]);
      forall j | 1 <= j < |s|
        ensures s[0] < s[j]
      {
        assert s[1..][j - 1] == s[j];
      }
    }
  }

  /** `alfabeto()`: the symbols of the sequence type, named in any case;
      any other type fails its assertion. */
  function Alphabet(seqType: string): (r: Result<string>)
    ensures r.Ok? <==> Upper(seqType) in ["DNA", "RNA", "PROTEIN"]
    ensures r.Fail? ==> r.message == TypeMessage(seqType)
    ensures r.Ok? && Upper(seqType) == "DNA" ==> r.value == DnaAlphabet
    ensures r.Ok? && Upper(seqType) == "RNA" ==> r.value == RnaAlphabet
    ensures r.Ok? && Upper(seqType) == "PROTEIN" ==> r.value == ProteinAlphabet
  {
    var t := Upper(seqType);
    if t == "DNA" then Ok(DnaAlphabet)
    else if t == "RNA" then Ok(RnaAlphabet)
    else if t == "PROTEIN" then Ok(ProteinAlphabet)
    else Fail(TypeMessage(seqType))
  }

  /** An alphabet is not empty and repeats no symbol. */
  lemma AlphabetDistinct(seqType: string)
    requires Alphabet(seqType).Ok?
    ensures |Alphabet(seqType).value| > 0 && Distinct(Alphabet(seqType).value)
  {
    var t := Upper(seqType);
    if t == "DNA" {
      AscendingDistinct(DnaAlphabet);
    } else if t == "RNA" {
      AscendingDistinct(RnaAlphabet);
    } else {
      ProteinDistinct();
    }
  }

  lemma ProteinDistinct()
    ensures Distinct(ProteinAlphabet)
  {
    ProteinAscending();
    AscendingDistinct(ProteinAlphabet);
  }

  lemma ProteinAscending()
    ensures Ascending(ProteinAlphabet)
  {
  }

  /** The alphabet depends on the type's name only up to case. */
  lemma AlphabetIgnoresCase(seqType: string)
    ensures Alphabet(Upper(seqType)).Ok? == Alphabet(seqType).Ok?
    ensures Alphabet(seqType).Ok? ==> Alphabet(Upper(seqType)) == Alphabet(seqType)
  {
    UpperIdempotent(seqType);
  }

  // ---------------------------------------------------------------------
  // The position weight matrix

  /** `all(len(seqs[0]) == len(seq) for seq in seqs)`. */
  predicate SameLengths(seqs: seq<string>)
  {
    forall k :: 0 <= k < |seqs| ==> |seqs[k]| == |seqs[0]|
  }

  /** Every symbol of every sequence is in the alphabet. */
  predicate InAlphabet(seqs: seq<string>, alpha: string)
  {
    forall k, i :: 0 <= k < |seqs| && 0 <= i < |seqs[k]| ==> seqs[k][i] in alpha
  }

  /** The first position at or after `i` whose symbol is not in the
      alphabet. */
  function Stray(s: string, alpha: string, i: nat): (r: Option<nat>)
    requires i <= |s|
    ensures r.None? <==> forall j :: i <= j < |s| ==> s[j] in alpha
    ensures r.Some? ==> i <= r.value < |s| && s[r.value] !in alpha
    decreases |s| - i
  {
    if i == |s| then None
    else if s[i] !in alpha then Some(i)
    else Stray(s, alpha, i + 1)
  }

  /** The assertions on the symbols of the sequences from the `k`-th on:
      the first symbol outside the alphabet fails. */
  function CheckSymbols(seqs: seq<string>, alpha: string, seqType: string, k: nat): (r: Result<()>)
    requires k <= |seqs|
    ensures r.Ok? <==> forall k', i :: k <= k' < |seqs| && 0 <= i < |seqs[k']| ==> seqs[k'][i] in alpha
    decreases |seqs| - k
  {
    if k == |seqs| then Ok(())
    else match Stray(seqs[k], alpha, 0)
      case Some(i) => Fail(ElementMessage(seqs[k][i], i, seqs[k], seqType))
      case None => CheckSymbols(seqs, alpha, seqType, k + 1)
  }

  /** The common denominator of a column: the sequences plus a
      pseudocount for every symbol. */
  function Denominator(n: nat, alpha: string, pseudo: nat): (r: nat)
    ensures n <= r
  {
    n + Cap(|alpha|, pseudo)
  }

  /** The column `contagem` of one position: each symbol of the alphabet
      with its count plus the pseudocount, over the denominator. */
  function Probabilities(col: seq<char>, alpha: string, pseudo: nat): (r: map<char, real>)
    requires Denominator(|col|, alpha, pseudo) > 0
    ensures r.Keys == set c | c in alpha
    ensures forall c :: c in alpha ==>
      r[c] == (Count(col, c) + pseudo) as real / Denominator(|col|, alpha, pseudo) as real
    ensures pseudo > 0 ==> forall c :: c in alpha ==> r[c] > 0.0
  {
    map c | c in alpha :: (Count(col, c) + pseudo) as real / Denominator(|col|, alpha, pseudo) as real
  }

  /** One column of probabilities per position of the sequences, none when
      there are no sequences. */
  function Matrix(seqs: seq<string>, alpha: string, pseudo: nat): (r: seq<map<char, real>>)
    requires SameLengths(seqs)
    ensures |r| == if |seqs| == 0 then 0 else |seqs[0]|
    ensures forall i :: 0 <= i < |r| ==> r[i].Keys == set c | c in alpha
  {
    if |seqs| == 0 then []
    else seq(|seqs[0]|, i requires 0 <= i < |seqs[0]| => Probabilities(Column(seqs, i), alpha, pseudo))
  }

  /** What `generate_pwm()` returns or the assertion it fails: the lengths
      are checked first, then the type, then the symbols. */
  function Pwm(seqs: seq<string>, seqType: string, pseudo: nat): (r: Result<seq<map<char, real>>>)
    ensures r.Ok? <==> SameLengths(seqs) && Alphabet(seqType).Ok? && InAlphabet(seqs, Alphabet(seqType).value)
    ensures !SameLengths(seqs) ==> r == Fail(LengthMessage)
    ensures SameLengths(seqs) && Alphabet(seqType).Fail? ==> r == Fail(TypeMessage(seqType))
    ensures r.Ok? ==> |r.value| == (if |seqs| == 0 then 0 else |seqs[0]|)
    ensures r.Ok? ==> forall i :: 0 <= i < |r.value| ==> r.value[i].Keys == set c | c in Alphabet(seqType).value
  {
    if !SameLengths(seqs) then Fail(LengthMessage)
    else match Alphabet(seqType)
      case Fail(m) => Fail(m)
      case Ok(alpha) =>
        match CheckSymbols(seqs, alpha, seqType, 0)
        case Fail(m) => Fail(m)
        case Ok(_) => Ok(Matrix(seqs, alpha, pseudo))
  }

  /** `generate_pwm()`: the length check, the symbol checks and the
      columns are loops. */
  method GeneratePwm(seqs: seq<string>, seqType: string, pseudo: nat) returns (r: Result<seq<map<char, real>>>)
    ensures r == Pwm(seqs, seqType, pseudo)
  {
    var k := 0;
    while k < |seqs|
      invariant 0 <= k <= |seqs|
      invariant forall j :: 0 <= j < k ==> |seqs[j]| == |seqs[0]|
    {
      if |seqs[k]| != |seqs[0]| {
        return Fail(LengthMessage);
      }
      k := k + 1;
    }
    var alpha: string;
    match Alphabet(seqType) {
      case Fail(m) =>
        return Fail(m);
      case Ok(a) =>
        alpha := a;
    }
    k := 0;
    while k < |seqs|
      invariant 0 <= k <= |seqs|
      invariant CheckSymbols(seqs, alpha, seqType, k) == CheckSymbols(seqs, alpha, seqType, 0)
    {
      var pos := 0;
      while pos < |seqs[k]|
        invariant 0 <= pos <= |seqs[k]|
        invariant Stray(seqs[k], alpha, pos) == Stray(seqs[k], alpha, 0)
      {
        if seqs[k][pos] !in alpha {
          return Fail(ElementMessage(seqs[k][pos], pos, seqs[k], seqType));
        }
        pos := pos + 1;
      }
      k := k + 1;
    }
    var pwm := Columns(seqs, alpha, pseudo);
    return Ok(pwm);
  }

  /** The loop of `generate_pwm()` over `zip(*seqs)` that appends one
      column of probabilities per position. */
  method Columns(seqs: seq<string>, alpha: string, pseudo: nat) returns (pwm: seq<map<char, real>>)
    requires SameLengths(seqs)
    ensures pwm == Matrix(seqs, alpha, pseudo)
  {
    pwm := [];
    if |seqs| == 0 {
      return;
    }
    var i := 0;
    while i < |seqs[0]|
      invariant 0 <= i <= |seqs[0]|
      invariant pwm == Matrix(seqs, alpha, pseudo)[..i]
    {
      pwm := pwm + [Probabilities(Column(seqs, i), alpha, pseudo)];
      i := i + 1;
    }
    assert Matrix(seqs, alpha, pseudo)[..i] == Matrix(seqs, alpha, pseudo);
  }

  /** The sum of the counts in `col` of the symbols of `beta`. */
  function CountSum(col: seq<char>, beta: string): nat
  {
    if |beta| == 0 then 0 else Count(col, beta[0]) + CountSum(col, beta[1..])
  }

  /** The sum of the entries of a column for the symbols of `beta`. */
  function SumOver(m: map<char, real>, beta: string): real
    requires forall c :: c in beta ==> c in m
  {
    if |beta| == 0 then 0.0 else m[beta[0]] + SumOver(m, beta[1..])
  }

  /** A symbol occurs once in a string without repetitions. */
  lemma {:induction false} DistinctCount(s: string, c: char)
    requires Distinct(s) && c in s
    ensures Count(s, c) == 1
  {
    CountMultiset(s, c);
    assert s == [s[0]] + s[1..];
    if s[0] == c {
      assert multiset(s[1..])[c] == 0;
    } else {
      DistinctCount(s[1..], c);
      CountMultiset(s[1..], c);
    }
  }

  /** One more symbol in a column adds its occurrences in `beta` to the
      sum. */
  lemma {:induction false} CountSumSnoc(col: seq<char>, c: char, beta: string)
    ensures CountSum(col + [c], beta) == CountSum(col, beta) + Count(beta, c)
  {
    if |beta| > 0 {
      assert multiset(col + [c]) == multiset(col) + multiset{c};
      assert beta == [beta[0]] + beta[1..];
      CountMultiset(col + [c], beta[0]);
      CountMultiset(col, beta[0]);
      CountMultiset(beta, c);
      CountMultiset(beta[1..], c);
      CountSumSnoc(col, c, beta[1..]);
    }
  }

  /** Counting every symbol of the alphabet once counts the whole column. */
  lemma {:induction false} CountSumAll(col: seq<char>, alpha: string)
    requires Distinct(alpha) && forall k :: 0 <= k < |col| ==> col[k] in alpha
    ensures CountSum(col, alpha) == |col|
  {
    if |col| > 0 {
      var col', c := col[..|col| - 1], col[|col| - 1];
      assert col == col' + [c];
      CountSumAll(col', alpha);
      CountSumSnoc(col', c, alpha);
      DistinctCount(alpha, c);
    } else {
      assert forall c :: Count(col, c) == 0;
      CountSumZero(alpha);
    }
  }

  lemma {:induction false} CountSumZero(beta: string)
    ensures CountSum([], beta) == 0
  {
    if |beta| > 0 {
      CountSumZero(beta[1..]);
    }
  }

  lemma AddFractions(x: real, y: real, d: real)
    requires d > 0.0
    ensures x / d + y / d == (x + y) / d
  {
  }

  /** The entries of a column for the symbols of `beta` sum to their counts
      and pseudocounts over the denominator. */
  lemma {:induction false} SumOverProbabilities(col: seq<char>, alpha: string, pseudo: nat, beta: string)
    requires Denominator(|col|, alpha, pseudo) > 0 && forall c :: c in beta ==> c in alpha
    ensures SumOver(Probabilities(col, alpha, pseudo), beta)
         == (CountSum(col, beta) + Cap(|beta|, pseudo)) as real / Denominator(|col|, alpha, pseudo) as real
  {
    if |beta| > 0 {
      var d := Denominator(|col|, alpha, pseudo) as real;
      var a := (Count(col, beta[0]) + pseudo) as real;
      var b := (CountSum(col, beta[1..]) + Cap(|beta[1..]|, pseudo)) as real;
      SumOverProbabilities(col, alpha, pseudo, beta[1..]);
      assert (CountSum(col, beta) + Cap(|beta|, pseudo)) as real == a + b;
      assert Probabilities(col, alpha, pseudo)[beta[0]] == a / d;
      AddFractions(a, b, d);
    }
  }

  lemma DivSelf(d: real)
    requires d > 0.0
    ensures d / d == 1.0
  {
  }

  /** Over an alphabet without repetitions that holds every symbol, each
      column of the matrix sums to one. */
  lemma MatrixSumsToOne(seqs: seq<string>, alpha: string, pseudo: nat, i: nat)
    requires SameLengths(seqs) && InAlphabet(seqs, alpha) && Distinct(alpha) && i < |Matrix(seqs, alpha, pseudo)|
    ensures SumOver(Matrix(seqs, alpha, pseudo)[i], alpha) == 1.0
  {
    var col := Column(seqs, i);
    assert Matrix(seqs, alpha, pseudo)[i] == Probabilities(col, alpha, pseudo);
    ColumnSumsToOne(col, alpha, pseudo);
  }

  /** A column whose symbols all lie in an alphabet without repetitions
      has probabilities summing to one. */
  lemma ColumnSumsToOne(col: seq<char>, alpha: string, pseudo: nat)
    requires |col| > 0 && Distinct(alpha) && forall k :: 0 <= k < |col| ==> col[k] in alpha
    ensures SumOver(Probabilities(col, alpha, pseudo), alpha) == 1.0
  {
    var d := Denominator(|col|, alpha, pseudo);
    CountSumAll(col, alpha);
    SumOverProbabilities(col, alpha, pseudo, alpha);
    assert CountSum(col, alpha) + Cap(|alpha|, pseudo) == d;
    DivSelf(d as real);
  }

  /** Every column of a matrix `generate_pwm()` returns is a probability
      distribution over the alphabet. */
  lemma ColumnsSumToOne(seqs: seq<string>, seqType: string, pseudo: nat)
    requires Pwm(seqs, seqType, pseudo).Ok?
    ensures forall i :: 0 <= i < |Pwm(seqs, seqType, pseudo).value| ==>
      SumOver(Pwm(seqs, seqType, pseudo).value[i], Alphabet(seqType).value) == 1.0
  {
    var alpha := Alphabet(seqType).value;
    assert Pwm(seqs, seqType, pseudo).value == Matrix(seqs, alpha, pseudo);
    AlphabetDistinct(seqType);
    MatrixColumnsSumToOne(seqs, alpha, pseudo);
  }

  lemma MatrixColumnsSumToOne(seqs: seq<string>, alpha: string, pseudo: nat)
    requires SameLengths(seqs) && InAlphabet(seqs, alpha) && Distinct(alpha)
    ensures forall i :: 0 <= i < |Matrix(seqs, alpha, pseudo)| ==> SumOver(Matrix(seqs, alpha, pseudo)[i], alpha) == 1.0
  {
    forall i | 0 <= i < |Matrix(seqs, alpha, pseudo)|
      ensures SumOver(Matrix(seqs, alpha, pseudo)[i], alpha) == 1.0
    {
      MatrixSumsToOne(seqs, alpha, pseudo, i);
    }
  }

  // ---------------------------------------------------------------------
  // Windows and score

  /** `seqs[p:p + w]` for the `k`-th sequence and offset. */
  function Window(seqs: seq<string>, w: nat, pos: seq<int>, k: nat): string
    requires k < |pos| && k < |seqs|
  {
    PySlice(seqs[k], pos[k], pos[k] + w)
  }

  /** `[seqs[I][p:p + w] for I, p in enumerate(off)]`. */
  function Snips(seqs: seq<string>, w: nat, off: seq<int>): (r: seq<string>)
    requires |off| <= |seqs|
    ensures |r| == |off| && forall k :: 0 <= k < |off| ==> r[k] == Window(seqs, w, off, k) && |r[k]| <= w
  {
    seq(|off|, k requires 0 <= k < |off| => SliceWidth(seqs[k], off[k], w); Window(seqs, w, off, k))
  }

  /** The sequence `seqs[i]` names: negative indices count from the end. */
  function PyIndex(i: int, n: nat): (r: nat)
    requires -(n as int) <= i < n
    ensures r < n && (i >= 0 ==> r == i)
  {
    if i < 0 then i + n else i
  }

  /** `new_seqs(pos, seq_idx)`: the windows of every offset but the
      `seq_idx`-th, in order, and the sequence `seq_idx` names; an index
      past the sequences raises `IndexError`. A negative `seq_idx` names a
      sequence from the end but excludes no window. */
  function NewSeqs(seqs: seq<string>, w: nat, pos: seq<int>, seqIdx: int): (r: Result<(seq<string>, string)>)
    ensures r.Ok? <==> -|seqs| <= seqIdx < |seqs| && |pos| <= |seqs|
    ensures r.Ok? ==> r.value.1 == seqs[PyIndex(seqIdx, |seqs|)]
    ensures r.Ok? ==> |r.value.0| == |pos| - (if 0 <= seqIdx < |pos| then 1 else 0)
    ensures r.Ok? ==> forall j :: 0 <= j < |r.value.0| ==>
      var k := if 0 <= seqIdx <= j then j + 1 else j;
      k < |seqs| && r.value.0[j] == Window(seqs, w, pos, k)
  {
    if !(-|seqs| <= seqIdx < |seqs| && |pos| <= |seqs|) then Fail(IndexMessage)
    else
      var all := Snips(seqs, w, pos);
      if 0 <= seqIdx < |pos| then Ok((all[..seqIdx] + all[seqIdx + 1..], seqs[seqIdx]))
      else Ok((all, seqs[PyIndex(seqIdx, |seqs|)]))
  }

  /** Putting the excluded sequence's window back where it was gives the
      windows of all the offsets, the snips `score` compares. */
  lemma NewSeqsRestore(seqs: seq<string>, w: nat, pos: seq<int>, seqIdx: nat)
    requires seqIdx < |pos| <= |seqs|
    ensures NewSeqs(seqs, w, pos, seqIdx).Ok?
    ensures var ws := NewSeqs(seqs, w, pos, seqIdx).value.0;
      ws[..seqIdx] + [Window(seqs, w, pos, seqIdx)] + ws[seqIdx..] == Snips(seqs, w, pos)
  {
    var ws := NewSeqs(seqs, w, pos, seqIdx).value.0;
    var all := ws[..seqIdx] + [Window(seqs, w, pos, seqIdx)] + ws[seqIdx..];
    assert |all| == |pos|;
    forall k | 0 <= k < |pos|
      ensures all[k] == Snips(seqs, w, pos)[k]
    {
      if k > seqIdx {
        assert all[k] == ws[k - 1];
      }
    }
  }

  /** The number of columns of `zip(*snips)`: the length of the shortest
      snip, none without snips. */
  function ZipLength(snips: seq<string>): (r: nat)
    ensures forall k :: 0 <= k < |snips| ==> r <= |snips[k]|
  {
    if |snips| == 0 then 0
    else if |snips| == 1 then |snips[0]|
    else
      var m := ZipLength(snips[1..]);
      assert forall k :: 1 <= k < |snips| ==> snips[k] == snips[1..][k - 1];
      if |snips[0]| < m then |snips[0]| else m
  }

  /** Some snip is as short as `zip(*snips)`. */
  lemma {:induction false} ShortestSnip(snips: seq<string>) returns (k: nat)
    requires |snips| > 0
    ensures k < |snips| && |snips[k]| == ZipLength(snips)
  {
    if |snips| == 1 || |snips[0]| < ZipLength(snips[1..]) {
      k := 0;
    } else {
      var k' := ShortestSnip(snips[1..]);
      k := k' + 1;
      assert snips[k] == snips[1..][k'];
    }
  }

  /** `max({x: col.count(x) for x in alfa}.values())`. */
  function MaxCount(col: seq<char>, alpha: string): (r: nat)
    requires |alpha| > 0
    ensures forall j :: 0 <= j < |alpha| ==> Count(col, alpha[j]) <= r
  {
    if |alpha| == 1 then Count(col, alpha[0])
    else
      var m := MaxCount(col, alpha[1..]);
      assert forall j :: 1 <= j < |alpha| ==> alpha[j] == alpha[1..][j - 1];
      if Count(col, alpha[0]) > m then Count(col, alpha[0]) else m
  }

  /** The best count is the count of some symbol of the alphabet. */
  lemma {:induction false} MaxCountAttained(col: seq<char>, alpha: string) returns (j: nat)
    requires |alpha| > 0
    ensures j < |alpha| && MaxCount(col, alpha) == Count(col, alpha[j])
  {
    if |alpha| == 1 || Count(col, alpha[0]) > MaxCount(col, alpha[1..]) {
      j := 0;
    } else {
      var j' := MaxCountAttained(col, alpha[1..]);
      j := j' + 1;
      assert alpha[j] == alpha[1..][j'];
    }
  }

  /** The best counts of the first `m` columns of the snips. */
  function ColumnsScore(snips: seq<string>, alpha: string, m: nat): nat
    requires |alpha| > 0 && forall k :: 0 <= k < |snips| ==> m <= |snips[k]|
  {
    if m == 0 then 0 else ColumnsScore(snips, alpha, m - 1) + MaxCount(Column(snips, m - 1), alpha)
  }

  /** `score(off)`: over the columns of the offsets' windows, the count of
      the most frequent symbol of the alphabet. The type's assertion comes
      first; an offset past the sequences raises `IndexError`. */
  function Score(seqs: seq<string>, w: nat, seqType: string, off: seq<int>): (r: Result<nat>)
    ensures r.Ok? <==> Alphabet(seqType).Ok? && |off| <= |seqs|
    ensures Alphabet(seqType).Fail? ==> r == Fail(TypeMessage(seqType))
  {
    match Alphabet(seqType)
    case Fail(m) => Fail(m)
    case Ok(alpha) =>
      if |off| > |seqs| then Fail(IndexMessage)
      else
        var snips := Snips(seqs, w, off);
        Ok(ColumnsScore(snips, alpha, ZipLength(snips)))
  }

  lemma {:induction false} CountBound(col: seq<char>, c: char)
    ensures Count(col, c) <= |col|
    ensures Count(col, c) == |col| <==> forall k :: 0 <= k < |col| ==> col[k] == c
  {
    if |col| > 0 {
      var col' := col[..|col| - 1];
      assert col == col' + [col[|col| - 1]];
      assert multiset(col) == multiset(col') + multiset{col[|col| - 1]};
      CountBound(col', c);
    }
  }

  /** Column `i` of the snips is one symbol of the alphabet throughout. */
  predicate ColumnUniform(snips: seq<string>, alpha: string, i: nat)
    requires forall k :: 0 <= k < |snips| ==> i < |snips[k]|
  {
    forall k :: 0 <= k < |snips| ==> snips[k][i] in alpha && snips[k][i] == snips[0][i]
  }

  /** A column's best count is at most the number of snips. */
  lemma MaxCountBound(snips: seq<string>, alpha: string, i: nat)
    requires |alpha| > 0 && forall k :: 0 <= k < |snips| ==> i < |snips[k]|
    ensures MaxCount(Column(snips, i), alpha) <= |snips|
  {
    var col := Column(snips, i);
    var j := MaxCountAttained(col, alpha);
    CountBound(col, alpha[j]);
  }

  /** A column's best count reaches the number of snips exactly when the
      whole column is one symbol of the alphabet. */
  lemma MaxCountFull(snips: seq<string>, alpha: string, i: nat)
    requires |alpha| > 0 && forall k :: 0 <= k < |snips| ==> i < |snips[k]|
    ensures MaxCount(Column(snips, i), alpha) == |snips| <==> ColumnUniform(snips, alpha, i)
  {
    var col := Column(snips, i);
    var j := MaxCountAttained(col, alpha);
    CountBound(col, alpha[j]);
    if ColumnUniform(snips, alpha, i) && |snips| > 0 {
      var x :| 0 <= x < |alpha| && alpha[x] == col[0];
      CountBound(col, alpha[x]);
    }
  }

  /** One point per snip for each of `m` columns: `m * n`, added up. */
  function Cap(m: nat, n: nat): nat
  {
    if m == 0 then 0 else Cap(m - 1, n) + n
  }

  lemma {:induction false} CapProduct(m: nat, n: nat)
    ensures Cap(m, n) == m * n
  {
    if m > 0 {
      CapProduct(m - 1, n);
      assert m * n == (m - 1) * n + n;
    }
  }

  /** The first `m` columns score at most one point per snip each. */
  lemma {:induction false} ColumnsScoreBound(snips: seq<string>, alpha: string, m: nat)
    requires |alpha| > 0 && forall k :: 0 <= k < |snips| ==> m <= |snips[k]|
    ensures ColumnsScore(snips, alpha, m) <= Cap(m, |snips|)
  {
    if m > 0 {
      ColumnsScoreBound(snips, alpha, m - 1);
      MaxCountBound(snips, alpha, m - 1);
    }
  }

  /** Each of the first `m` columns has a symbol in every snip. */
  predicate FullUpTo(snips: seq<string>, alpha: string, m: nat)
    requires |alpha| > 0 && forall k :: 0 <= k < |snips| ==> m <= |snips[k]|
  {
    m == 0 || (FullUpTo(snips, alpha, m - 1) && MaxCount(Column(snips, m - 1), alpha) == |snips|)
  }

  /** Two bounded terms reach the sum of their bounds exactly when each
      reaches its own. */
  lemma SumReaches(s: nat, c: nat, x: nat, n: nat, a: bool, b: bool)
    requires s <= c && x <= n && (s == c <==> a) && (x == n <==> b)
    ensures s + x == c + n <==> a && b
  {
  }

  /** The first `m` columns reach that bound exactly when each of them
      does. */
  lemma {:induction false} ColumnsScoreFull(snips: seq<string>, alpha: string, m: nat)
    requires |alpha| > 0 && forall k :: 0 <= k < |snips| ==> m <= |snips[k]|
    ensures ColumnsScore(snips, alpha, m) == Cap(m, |snips|) <==> FullUpTo(snips, alpha, m)
  {
    if m > 0 {
      ColumnsScoreBound(snips, alpha, m - 1);
      ColumnsScoreFull(snips, alpha, m - 1);
      MaxCountBound(snips, alpha, m - 1);
      SumReaches(ColumnsScore(snips, alpha, m - 1), Cap(m - 1, |snips|), MaxCount(Column(snips, m - 1), alpha), |snips|,
                 FullUpTo(snips, alpha, m - 1), MaxCount(Column(snips, m - 1), alpha) == |snips|);
    }
  }

  /** Each of the first `m` columns reaching its bound is each of them
      being one symbol of the alphabet. */
  lemma {:induction false} FullUpToUniform(snips: seq<string>, alpha: string, m: nat)
    requires |alpha| > 0 && forall k :: 0 <= k < |snips| ==> m <= |snips[k]|
    ensures FullUpTo(snips, alpha, m) <==> forall i :: 0 <= i < m ==> ColumnUniform(snips, alpha, i)
  {
    if m > 0 {
      FullUpToUniform(snips, alpha, m - 1);
      MaxCountFull(snips, alpha, m - 1);
      UniformUpToStep(snips, alpha, m);
    }
  }

  lemma UniformUpToStep(snips: seq<string>, alpha: string, m: nat)
    requires m > 0 && forall k :: 0 <= k < |snips| ==> m <= |snips[k]|
    ensures (forall i :: 0 <= i < m ==> ColumnUniform(snips, alpha, i))
      <==> (forall i :: 0 <= i < m - 1 ==> ColumnUniform(snips, alpha, i)) && ColumnUniform(snips, alpha, m - 1)
  {
  }

  /** The snips are one and the same string of length `w` over the
      alphabet. */
  predicate Agree(snips: seq<string>, alpha: string, w: nat)
  {
    forall k :: 0 <= k < |snips| ==>
      snips[k] == snips[0] && |snips[k]| == w && forall i :: 0 <= i < w ==> snips[k][i] in alpha
  }

  /** Snips of equal length `w` agree exactly when each of their `w`
      columns is one symbol of the alphabet. */
  lemma AgreeColumns(snips: seq<string>, alpha: string, w: nat)
    requires forall k :: 0 <= k < |snips| ==> |snips[k]| == w
    ensures Agree(snips, alpha, w) <==> forall i :: 0 <= i < w ==> ColumnUniform(snips, alpha, i)
  {
    if forall i :: 0 <= i < w ==> ColumnUniform(snips, alpha, i) {
      forall k | 0 <= k < |snips|
        ensures snips[k] == snips[0] && forall i :: 0 <= i < w ==> snips[k][i] in alpha
      {
        forall i | 0 <= i < w
          ensures snips[k][i] == snips[0][i] && snips[k][i] in alpha
        {
          assert ColumnUniform(snips, alpha, i);
        }
      }
    }
  }

  /** More columns, more points: `Cap` grows with its first argument. */
  lemma {:induction false} CapMono(m: nat, w: nat, n: nat)
    requires m <= w
    ensures Cap(m, n) <= Cap(w, n)
    ensures m < w && n > 0 ==> Cap(m, n) < Cap(w, n)
  {
    if m < w {
      CapMono(m, w - 1, n);
    }
  }

  /** Snips no longer than `w` score at most `w` points per snip, and
      exactly that when they are one string of length `w` over the
      alphabet. */
  lemma SnipsScore(snips: seq<string>, alpha: string, w: nat)
    requires |alpha| > 0 && forall k :: 0 <= k < |snips| ==> |snips[k]| <= w
    ensures ColumnsScore(snips, alpha, ZipLength(snips)) <= Cap(w, |snips|)
    ensures ColumnsScore(snips, alpha, ZipLength(snips)) == Cap(w, |snips|) <==>
      (|snips| == 0 || w == 0 || Agree(snips, alpha, w))
  {
    var m, n := ZipLength(snips), |snips|;
    ColumnsScoreBound(snips, alpha, m);
    if n == 0 {
      CapProduct(w, n);
    } else {
      assert m <= w by { assert m <= |snips[0]|; }
      CapMono(m, w, n);
      if m < w {
        var k := ShortestSnip(snips);
        assert !Agree(snips, alpha, w) by { assert |snips[k]| != w; }
      } else {
        assert forall k :: 0 <= k < |snips| ==> |snips[k]| == w;
        ColumnsScoreFull(snips, alpha, m);
        FullUpToUniform(snips, alpha, m);
        AgreeColumns(snips, alpha, w);
      }
    }
  }

  /** The score of `n` offsets with windows of width `w` is at most
      `n * w`. */
  lemma ScoreBound(seqs: seq<string>, w: nat, seqType: string, off: seq<int>)
    requires Score(seqs, w, seqType, off).Ok?
    ensures Score(seqs, w, seqType, off).value <= |off| * w
  {
    var alpha := Alphabet(seqType).value;
    var snips := Snips(seqs, w, off);
    assert Score(seqs, w, seqType, off).value == ColumnsScore(snips, alpha, ZipLength(snips));
    SnipsScore(snips, alpha, w);
    CapProduct(w, |off|);
  }

  /** The score reaches `n * w` when the windows are one and the same
      string of length `w` over the alphabet, and only then. */
  lemma ScoreFull(seqs: seq<string>, w: nat, seqType: string, off: seq<int>)
    requires Score(seqs, w, seqType, off).Ok?
    ensures Score(seqs, w, seqType, off).value == |off| * w <==>
      (|off| == 0 || w == 0 || Agree(Snips(seqs, w, off), Alphabet(seqType).value, w))
  {
    var alpha := Alphabet(seqType).value;
    var snips := Snips(seqs, w, off);
    assert Score(seqs, w, seqType, off).value == ColumnsScore(snips, alpha, ZipLength(snips));
    SnipsScore(snips, alpha, w);
    CapProduct(w, |off|);
  }
}
