/** The evolutionary motif finder `ea_motif_finder`: a motif is one start
    position per sequence, scored by how well its windows agree with their
    consensus. The random draws of the algorithm are parameters. */
module EvolMotifs {
  import opened Optional
  import opened PyStr
  import opened Counting

  const DnaMessage := "DNA sequences should only contain characters: A, C, G, T."
  const ProteinMessage := "Protein sequences should only contain valid amino acid characters."
  const LengthMessage := "Motif length cannot be greater than the length of any sequence provided."

  /** A finder built by `ea_motif_finder(...)`; `sequenceType` is stored
      upper-cased. */
  datatype Finder = Finder(sequences: seq<string>, motifLength: nat, sequenceType: string,
                           populationSize: nat, generations: nat, mutationRate: real)

  const DnaChars: set<char> := {'A', 'C', 'G', 'T'}
  const ProteinChars: set<char> :=
    {'A', 'C', 'D', 'E', 'F', 'G', 'H', 'I', 'K', 'L', 'M', 'N', 'P', 'Q', 'R', 'S', 'T', 'V', 'W', 'Y'}

  /** `set(s.upper()).issubset(chars)`. */
  predicate AllIn(s: string, chars: set<char>)
  {
    forall i :: 0 <= i < |s| ==> UpperChar(s[i]) in chars
  }

  /** The check `validate_sequences` makes of one sequence. */
  predicate SequenceOk(stype: string, s: string)
  {
    (stype == "DNA" ==> AllIn(s, DnaChars)) && (stype == "PROTEIN" ==> AllIn(s, ProteinChars))
  }

  /** `validate_sequences`: the first sequence with a symbol outside the
      alphabet of its type raises; any other type is not checked. */
  function ValidateSequences(seqs: seq<string>, stype: string): (r: Result<()>)
    ensures r.Ok? <==> forall k :: 0 <= k < |seqs| ==> SequenceOk(stype, seqs[k])
    ensures r.Fail? ==> r.message == if stype == "DNA" then DnaMessage else ProteinMessage
  {
    if |seqs| == 0 then Ok(())
    else if stype == "DNA" && !AllIn(seqs[0], DnaChars) then Fail(DnaMessage)
    else if stype == "PROTEIN" && !AllIn(seqs[0], ProteinChars) then Fail(ProteinMessage)
    else
      var r := ValidateSequences(seqs[1..], stype);
      assert forall k :: 1 <= k < |seqs| ==> seqs[k] == seqs[1..][k - 1];
      r
  }

  /** Lower-case letters are accepted exactly where their capitals are. */
  lemma {:induction false} ValidateIgnoresCase(seqs: seq<string>, stype: string)
    ensures ValidateSequences(seqs, stype).Ok? <==> ValidateSequences(UpperAll(seqs), stype).Ok?
  {
    forall k | 0 <= k < |seqs|
      ensures SequenceOk(stype, seqs[k]) <==> SequenceOk(stype, UpperAll(seqs)[k])
    {
      UpperIdempotent(seqs[k]);
    }
  }

  function UpperAll(seqs: seq<string>): (r: seq<string>)
    ensures |r| == |seqs| && forall k :: 0 <= k < |seqs| ==> r[k] == Upper(seqs[k])
  {
    seq(|seqs|, k requires 0 <= k < |seqs| => Upper(seqs[k]))
  }

  /** `validate_motif_length`: raises if some sequence is shorter than the
      motif. */
  function ValidateMotifLength(seqs: seq<string>, motifLength: nat): (r: Result<()>)
    ensures r.Ok? <==> forall k :: 0 <= k < |seqs| ==> motifLength <= |seqs[k]|
    ensures r.Fail? ==> r.message == LengthMessage
  {
    if exists k :: 0 <= k < |seqs| && |seqs[k]| < motifLength then Fail(LengthMessage) else Ok(())
  }

  /** `ea_motif_finder(sequences, motif_length, sequence_type, ...)`: the
      sequences are validated, then the motif length. */
  function NewFinder(sequences: seq<string>, motifLength: nat, sequenceType: string,
                     populationSize: nat, generations: nat, mutationRate: real): (r: Result<Finder>)
    ensures r.Ok? <==>
      (forall k :: 0 <= k < |sequences| ==> SequenceOk(Upper(sequenceType), sequences[k]) && motifLength <= |sequences[k]|)
    ensures r.Ok? ==> r.value.sequenceType == Upper(sequenceType) && r.value.sequences == sequences
  {
    var stype := Upper(sequenceType);
    match ValidateSequences(sequences, stype)
    case Fail(m) => Fail(m)
    case Ok(_) =>
      match ValidateMotifLength(sequences, motifLength)
      case Fail(m) => Fail(m)
      case Ok(_) => Ok(Finder(sequences, motifLength, stype, populationSize, generations, mutationRate))
  }

  /** An individual: one start per sequence, each leaving room for a whole
      motif. */
  predicate ValidIndividual(f: Finder, ind: seq<int>)
  {
    |ind| == |f.sequences|
    && forall k :: 0 <= k < |ind| ==> 0 <= ind[k] && ind[k] + f.motifLength <= |f.sequences[k]|
  }

  /** `[seq[start:start + motif_length] for seq, start in zip(...)]`. */
  function Windows(f: Finder, ind: seq<int>): (r: seq<string>)
    ensures |r| == if |ind| < |f.sequences| then |ind| else |f.sequences|
    ensures ValidIndividual(f, ind) ==>
      forall k :: 0 <= k < |r| ==> r[k] == f.sequences[k][ind[k]..ind[k] + f.motifLength] && |r[k]| == f.motifLength
  {
    var n := if |ind| < |f.sequences| then |ind| else |f.sequences|;
    seq(n, k requires 0 <= k < n => PySlice(f.sequences[k], ind[k], ind[k] + f.motifLength))
  }

  /** The first of the most frequent symbols among the first `k` of
      `col`. */
  function Pick(col: seq<char>, k: nat): (r: char)
    requires 0 < k <= |col|
    ensures r in col[..k] && forall j :: 0 <= j < k ==> Count(col, col[j]) <= Count(col, r)
  {
    if k == 1 then col[0]
    else
      var b := Pick(col, k - 1);
      assert col[..k - 1] <= col[..k];
      if Count(col, col[k - 1]) > Count(col, b) then col[k - 1] else b
  }

  /** `max(set(column), key=column.count)`: a most frequent symbol. */
  function MostFrequent(col: seq<char>): (r: char)
    requires |col| > 0
    ensures r in col && forall c :: Count(col, c) <= Count(col, r)
  {
    var r := Pick(col, |col|);
    assert col[..|col|] == col;
    forall c | c in col
      ensures Count(col, c) <= Count(col, r)
    {
      var j :| 0 <= j < |col| && col[j] == c;
    }
    forall c | c !in col
      ensures Count(col, c) == 0
    {
      CountAbsent(col, c);
    }
    r
  }

  /** `build_consensus(motifs)`: column by column, a most frequent
      symbol. A motif shorter than the motif length raises an
      `IndexError`, and no motifs at all a `ValueError` from `max`. */
  function BuildConsensus(motifs: seq<string>, motifLength: nat): (r: Option<string>)
    ensures r.Some? <==> (motifLength == 0 || (|motifs| > 0 && forall k :: 0 <= k < |motifs| ==> motifLength <= |motifs[k]|))
    ensures r.Some? ==> |r.value| == motifLength
    ensures r.Some? ==> forall i :: 0 <= i < motifLength ==>
      (r.value[i] in Column(motifs, i) && forall c :: Count(Column(motifs, i), c) <= Count(Column(motifs, i), r.value[i]))
  {
    if motifLength == 0 then Some([])
    else if |motifs| == 0 || exists k :: 0 <= k < |motifs| && |motifs[k]| < motifLength then None
    else Some(seq(motifLength, i requires 0 <= i < motifLength => MostFrequent(Column(motifs, i))))
  }

  /** `match_score(motif, consensus)`: the positions of the shorter of the
      two where they agree. */
  function MatchScore(a: string, b: string): (r: nat)
    ensures r <= |a| && r <= |b|
  {
    if |a| == 0 || |b| == 0 then 0
    else (if a[0] == b[0] then 1 else 0) + MatchScore(a[1..], b[1..])
  }

  /** A string matches itself everywhere, and only there. */
  lemma {:induction false} MatchScoreSelf(a: string, b: string)
    requires |a| == |b|
    ensures MatchScore(a, b) == |a| <==> a == b
  {
    if |a| > 0 {
      MatchScoreSelf(a[1..], b[1..]);
      if a[1..] == b[1..] && a[0] == b[0] {
        assert a == [a[0]] + a[1..] && b == [b[0]] + b[1..];
      }
    }
  }

  lemma {:induction false} MatchScoreSymmetric(a: string, b: string)
    ensures MatchScore(a, b) == MatchScore(b, a)
  {
    if |a| > 0 && |b| > 0 {
      MatchScoreSymmetric(a[1..], b[1..]);
    }
  }

  /** The total agreement of the motifs with the consensus: the match
      scores of all motifs added up. */
  function SumScores(motifs: seq<string>, consensus: string): (r: nat)
    ensures r <= |motifs| * |consensus|
  {
    if |motifs| == 0 then 0
    else MatchScore(motifs[0], consensus) + SumScores(motifs[1..], consensus)
  }

  /** `fitness(individual)`: how well the windows of the individual agree
      with their consensus; None where building the consensus raises. */
  function Fitness(f: Finder, ind: seq<int>): (r: Option<nat>)
  {
    var motifs := Windows(f, ind);
    match BuildConsensus(motifs, f.motifLength)
    case None => None
    case Some(c) => Some(SumScores(motifs, c))
  }

  /** The fitness of a valid individual is defined when there are
      sequences, and at most one point per position of every window. */
  lemma FitnessBounds(f: Finder, ind: seq<int>)
    requires ValidIndividual(f, ind) && (|f.sequences| > 0 || f.motifLength == 0)
    ensures Fitness(f, ind).Some? && Fitness(f, ind).value <= |f.sequences| * f.motifLength
  {
  }

  /** When every window is the same, the fitness is the highest possible. */
  lemma {:induction false} FitnessOfEqualWindows(f: Finder, ind: seq<int>)
    requires ValidIndividual(f, ind) && |f.sequences| > 0
    requires forall k :: 0 <= k < |ind| ==> Windows(f, ind)[k] == Windows(f, ind)[0]
    ensures Fitness(f, ind) == Some(|f.sequences| * f.motifLength)
  {
    var motifs := Windows(f, ind);
    var w := motifs[0];
    var c := BuildConsensus(motifs, f.motifLength).value;
    forall i | 0 <= i < f.motifLength
      ensures c[i] == w[i]
    {
      var col := Column(motifs, i);
      assert col[0] == w[i];
      assert forall k :: 0 <= k < |col| ==> col[k] == w[i];
      assert c[i] in col;
    }
    assert c == w;
    MatchScoreSelf(w, w);
    SumEqual(motifs, w);
  }

  lemma {:induction false} SumEqual(motifs: seq<string>, w: string)
    requires forall k :: 0 <= k < |motifs| ==> motifs[k] == w
    requires MatchScore(w, w) == |w|
    ensures SumScores(motifs, w) == |motifs| * |w|
  {
    if |motifs| > 0 {
      SumEqual(motifs[1..], w);
    }
  }

  /** `initialize_population()`: `draws[p][k]` is the start
      `random.randint(0, len(seq) - motif_length)` gives for sequence `k`
      of individual `p`. */
  method InitializePopulation(f: Finder, draws: seq<seq<int>>) returns (population: seq<seq<int>>)
    requires |draws| == f.populationSize
    requires forall p :: 0 <= p < |draws| ==> ValidIndividual(f, draws[p])
    ensures |population| == f.populationSize && forall p :: 0 <= p < |population| ==> ValidIndividual(f, population[p])
    ensures population == draws
  {
    population := [];
    for p := 0 to f.populationSize
      invariant population == draws[..p]
    {
      var individual := [];
      for k := 0 to |f.sequences|
        invariant individual == draws[p][..k]
      {
        individual := individual + [draws[p][k]];
      }
      assert draws[p][..|f.sequences|] == draws[p];
      population := population + [individual];
    }
  }

  /** `crossover(parent1, parent2)` at the point `random.randint(1,
      len(parent1) - 1)` gives. */
  function Crossover(parent1: seq<int>, parent2: seq<int>, point: int): (child: seq<int>)
    requires 1 <= point < |parent1|
    ensures |child| >= point && (|parent1| == |parent2| ==> |child| == |parent1|)
    ensures child[..point] == parent1[..point]
    ensures point <= |parent2| ==> child[point..] == parent2[point..]
  {
    parent1[..point] + (if point <= |parent2| then parent2[point..] else [])
  }

  /** The child of two valid parents is valid. */
  lemma CrossoverValid(f: Finder, parent1: seq<int>, parent2: seq<int>, point: int)
    requires ValidIndividual(f, parent1) && ValidIndividual(f, parent2) && 1 <= point < |parent1|
    ensures ValidIndividual(f, Crossover(parent1, parent2, point))
  {
    var child := Crossover(parent1, parent2, point);
    forall k | 0 <= k < |child|
      ensures 0 <= child[k] && child[k] + f.motifLength <= |f.sequences[k]|
    {
      if k < point {
        assert child[k] == child[..point][k];
      } else {
        assert child[k] == child[point..][k - point];
      }
    }
  }

  /** `mutate(individual)`: when the roll `random.random()` is below the
      mutation rate, the gene `seqIndex` gets the new start `value`; the
      list is changed in place. */
  method Mutate(f: Finder, individual: array<int>, roll: real, seqIndex: int, value: int)
    requires roll < f.mutationRate ==>
      0 <= seqIndex < individual.Length && seqIndex < |f.sequences|
      && 0 <= value && value + f.motifLength <= |f.sequences[seqIndex]|
    modifies individual
    ensures roll < f.mutationRate ==> individual[..] == old(individual[..])[seqIndex := value]
    ensures roll >= f.mutationRate ==> individual[..] == old(individual[..])
    ensures ValidIndividual(f, old(individual[..])) ==> ValidIndividual(f, individual[..])
  {
    if roll < f.mutationRate {
      individual[seqIndex] := value;
    }
  }
}
