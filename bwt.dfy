/** The `BWT` class: the forward transform through the rotation matrix, the
    inverse through ranked columns and the occurrence dictionary it keeps as
    state, and the FM-index pattern search. */
module Bwt {
  import opened Lex
  import opened PyStr
  import opened Sorting
  import opened Counting
  import opened BwtSpec
  import opened BwtTheory
  import opened BwtSearch
  import opened BwtInverse
  import opened Optional

  /** The keys of `{letra: -1 for letra in xs}`, in insertion order. */
  function Dedup(xs: string): (r: string)
    ensures forall c :: c in r <==> c in xs
    ensures Distinct(r)
  {
    if xs == [] then []
    else
      var d := Dedup(xs[..|xs| - 1]);
      if xs[|xs| - 1] in d then d else d + [xs[|xs| - 1]]
  }

  /** The labels `preencherLista` appends for `xs` when the counters start
      at `d`: the k-th occurrence of a key `c` gets `d[c] + k`, and a
      symbol that is not a key gets nothing. */
  function Tagged(xs: string, d: map<char, int>): seq<Label>
  {
    if xs == [] then []
    else
      var c := xs[|xs| - 1];
      Tagged(xs[..|xs| - 1], d)
        + (if c in d then [(c, d[c] + 1 + Count(xs[..|xs| - 1], c))] else [])
  }

  /** With every counter at -1 and every symbol a key, the tags are the
      ranks: `preencherLista` produces the ranked column. */
  lemma {:induction false} TaggedFresh(xs: string, d: map<char, int>)
    requires forall c :: c in d ==> d[c] == -1
    requires forall i :: 0 <= i < |xs| ==> xs[i] in d
    ensures Tagged(xs, d) == Labelled(xs)
  {
    if xs != [] {
      var init := xs[..|xs| - 1];
      TaggedFresh(init, d);
      LabelledSnoc(xs);
    }
  }

  lemma LabelledSnoc(xs: string)
    requires xs != []
    ensures Labelled(xs) == Labelled(xs[..|xs| - 1]) + [(xs[|xs| - 1], Count(xs[..|xs| - 1], xs[|xs| - 1]))]
  {
    var init := xs[..|xs| - 1];
    forall k | 0 <= k < |init| ensures Labelled(xs)[k] == Labelled(init)[k] {
      assert init[..k] == xs[..k];
    }
  }

  /** `construirBWT`: the last symbol of every row, in row order. */
  method ConstruirBWT(matriz: seq<string>) returns (bwt: string)
    requires forall i :: 0 <= i < |matriz| ==> |matriz[i]| > 0
    ensures bwt == LastColumn(matriz)
  {
    bwt := "";
    for i := 0 to |matriz|
      invariant bwt == LastColumn(matriz)[..i]
    {
      var linha := matriz[i];
      bwt := bwt + [PyAt(linha, -1)];
    }
  }

  /** `criarMatriz`: row `k` is `s` rotated right `k` times. */
  method CriarMatriz(s: string) returns (matriz: seq<string>)
    ensures matriz == Matrix(s)
  {
    matriz := [];
    var linha := s;
    for indice := 0 to |s|
      invariant linha == RotR(s, indice)
      invariant matriz == Matrix(s)[..indice]
    {
      matriz := matriz + [linha];
      RotRStep(s, indice);
      linha := [PyAt(linha, -1)] + PySlice(linha, 0, |linha| - 1);
    }
  }

  /** One more right rotation moves the last symbol to the front. */
  lemma RotRStep(s: string, k: nat)
    requires k < |s|
    ensures RotR(s, k + 1) == [RotR(s, k)[|s| - 1]] + RotR(s, k)[..|s| - 1]
  {
    var n := |s|;
    var a, b := RotR(s, k + 1), RotR(s, k);
    assert |a| == n;
    forall j | 0 <= j < n ensures a[j] == ([b[n - 1]] + b[..n - 1])[j] {
      if j == 0 {
        if k == 0 {
          assert a[0] == s[n - 1] == b[n - 1];
        } else {
          assert a[0] == s[n - k - 1] == b[n - 1];
        }
      } else if j <= k {
        assert a[j] == s[n - k - 1 + j] == b[j - 1];
      } else {
        assert a[j] == s[j - k - 1] == b[j - 1];
      }
    }
  }

  /** `criarPrimeiraColuna`: the symbols of the transform in sorted order. */
  function CriarPrimeiraColuna(bwt: string): (r: string)
    ensures multiset(r) == multiset(bwt)
  {
    Sort(bwt, CharLe())
  }

  /** The first column is sorted. */
  lemma PrimeiraColunaSorted(bwt: string)
    ensures Sorted(CriarPrimeiraColuna(bwt), CharLe())
  {
    assert TotalPreorder(CharLe());
    SortSorted(bwt, CharLe());
  }

  /** `criarUltimaColuna`: the transform symbol by symbol. */
  method CriarUltimaColuna(bwt: string) returns (lista: string)
    ensures lista == bwt
  {
    lista := [];
    for i := 0 to |bwt|
      invariant lista == bwt[..i]
    {
      lista := lista + [bwt[i]];
    }
  }

  /** `procuraPadraoBWT`: the count table, the first-occurrence table and
      the backward search over them. */
  method ProcuraPadraoBWT(bwt: string, sortedBwt: string, suffixArray: seq<int>, pattern: string)
    returns (r: SearchOutcome)
    requires multiset(sortedBwt) == multiset(bwt) && |suffixArray| == |bwt|
    ensures r == Search(bwt, sortedBwt, suffixArray, pattern)
  {
    var count := CountTable(bwt);
    var first := FirstOccurrence(sortedBwt);
    TablesOf(bwt, sortedBwt);
    r := FmSearch(count, first, |bwt|, suffixArray, pattern);
  }

  /** The FM search loop of `procuraPadraoBWT` over tables of the shape it
      needs: it ends as `SearchFrom` says, with the outcome `Outcome`
      gives for that end. */
  method FmSearch(count: map<char, seq<int>>, first: map<char, int>, n: nat,
                  suffixArray: seq<int>, pattern: string) returns (r: SearchOutcome)
    requires Tables(count, first, n) && |suffixArray| == n
    ensures r == Outcome(SearchFrom(count, first, n, pattern, 0, n - 1), suffixArray)
  {
    var top, bottom := 0, n - 1;
    var p := pattern;
    ghost var end := SearchFrom(count, first, n, pattern, 0, n - 1);
    while top <= bottom
      invariant 0 <= top && bottom < n
      invariant end == SearchFrom(count, first, n, p, top, bottom)
      decreases |p|
    {
      if p != [] {
        ghost var whole := p;
        var symbol := PyAt(p, -1);
        p := PySlice(p, 0, -1);
        assert symbol == whole[|whole| - 1] && p == whole[..|whole| - 1];
        if symbol !in count {
          assert end == Missing(symbol);
          return KeyError(symbol);
        }
        var lo, hi := count[symbol][top], count[symbol][bottom + 1];
        TableStep(count, first, n, whole, top, bottom, symbol, p,
                  first[symbol] + lo, first[symbol] + hi - 1);
        if hi > lo {
          top, bottom := first[symbol] + lo, first[symbol] + hi - 1;
        } else {
          assert end == Rows(first[symbol] + lo, first[symbol] + hi - 1);
          return Found([]);
        }
      } else {
        assert end == Rows(top, bottom);
        return Found(Sort(suffixArray[top..bottom + 1], IntLe()));
      }
    }
    assert end == Rows(top, bottom);
    return Found([]);
  }

  /** `count[c][i]` is the number of `c` in `bwt[0:i]`, for every symbol of
      `bwt` and every `i` from 0 to `len(bwt)`. */
  method CountTable(bwt: string) returns (count: map<char, seq<int>>)
    ensures count == CountMap(bwt)
  {
    var n := |bwt|;
    count := map c | c in bwt :: seq(n + 1, _ => 0);
    for i := 1 to n + 1
      invariant forall c :: c in count <==> c in bwt
      invariant forall c :: c in count ==> |count[c]| == n + 1
      invariant forall c, k :: c in count && 0 <= k < i ==> count[c][k] == Count(bwt[..k], c)
    {
      ghost var before := count;
      count := CarryForward(count, i);
      var b := bwt[i - 1];
      count := count[b := count[b][i := count[b][i] + 1]];
      forall c | c in count ensures count[c][i] == Count(bwt[..i], c) {
        CountStep(bwt, c, i - 1);
      }
      assert forall c, k :: c in count && 0 <= k < i ==> count[c][k] == before[c][k];
    }
    CountMapIs(bwt, count);
  }

  /** A table with the keys and entries of the count table is the count table. */
  lemma CountMapIs(bwt: string, count: map<char, seq<int>>)
    requires forall c :: c in count <==> c in bwt
    requires forall c :: c in count ==> |count[c]| == |bwt| + 1
    requires forall c, k :: c in count && 0 <= k < |bwt| + 1 ==> count[c][k] == Count(bwt[..k], c)
    ensures count == CountMap(bwt)
  {
    forall c | c in count ensures count[c] == CountMap(bwt)[c] {
      forall k | 0 <= k < |bwt| + 1 ensures count[c][k] == CountMap(bwt)[c][k] {
        CountMapAt(bwt, c, k);
      }
    }
  }

  /** The inner loop of the count table: every column copies its entry
      `i - 1` into entry `i`. */
  function CarryForward(count: map<char, seq<int>>, i: nat): (r: map<char, seq<int>>)
    requires 0 < i && forall c :: c in count ==> i < |count[c]|
    ensures r.Keys == count.Keys
    ensures forall c :: c in r ==> r[c] == count[c][i := count[c][i - 1]]
  {
    map c | c in count :: count[c][i := count[c][i - 1]]
  }

  /** `first_occurrence[c]` is the first index of `c` in `sorted_bwt`. */
  method FirstOccurrence(sortedBwt: string) returns (first: map<char, int>)
    ensures first == FirstMap(sortedBwt)
  {
    first := map[];
    for i := 0 to |sortedBwt|
      invariant forall c :: c in first <==> c in sortedBwt[..i]
      invariant forall c :: c in first ==> c in sortedBwt && first[c] == FirstIndex(sortedBwt, c)
    {
      var c := sortedBwt[i];
      assert sortedBwt[..i + 1] == sortedBwt[..i] + [c];
      if c !in first {
        var f := FirstIndex(sortedBwt, c);
        assert f == i;
        first := first[c := i];
      }
    }
    assert sortedBwt[..|sortedBwt|] == sortedBwt;
  }

  /** The script's forward transform: `construirBWT(ordenarMatriz(criarMatriz(s)))`
      is the transform of `s`. */
  method Transformar(s: string) returns (bwt: string)
    requires Terminated(s)
    ensures bwt == BwtOf(s)
  {
    var matriz := CriarMatriz(s);
    ConstructionRoutes(s);
    bwt := ConstruirBWT(SortRows(matriz));
  }

  /** Where one pass of `obterSequenciaOriginal` over the last column ends:
      the `return` with the list it leaves, or the end of the column, with
      the list and the label handed to the recursive call. */
  datatype PassEnd = Returned(lista: string) | NextPass(lista: string, letra: Label)

  /** One pass from column index `k`, on an object whose list already holds
      `lista`: a match records the label's symbol and moves to the
      first-column label on that row, and the pass returns as soon as the
      list holds exactly `n` symbols. */
  function PassFrom(lista: string, n: int, letra: Label, primeira: seq<Label>, ultima: seq<Label>, k: nat): PassEnd
    requires k <= |ultima| <= |primeira|
    decreases |ultima| - k
  {
    if k == |ultima| then NextPass(lista, letra)
    else
      var lista' := if ultima[k] == letra then lista + [letra.0] else lista;
      var letra' := if ultima[k] == letra then primeira[k] else letra;
      if |lista'| == n then Returned(lista') else PassFrom(lista', n, letra', primeira, ultima, k + 1)
  }

  /** `obterSequenciaOriginal` as it recurses, cut off after `fuel` passes:
      the list it returns with, or `None` when no pass among them
      returns. */
  function Passes(lista: string, n: int, letra: Label, primeira: seq<Label>, ultima: seq<Label>, fuel: nat): Option<string>
    requires |ultima| <= |primeira|
    decreases fuel
  {
    if fuel == 0 then None
    else
      match PassFrom(lista, n, letra, primeira, ultima, 0)
      case Returned(l) => Some(l)
      case NextPass(l, x) => Passes(l, n, x, primeira, ultima, fuel - 1)
  }

  /** A pass that starts with more than `n` symbols never returns, and it
      hands on a list that is still longer than `n`. */
  lemma {:induction false} PassOverfull(lista: string, n: int, letra: Label, primeira: seq<Label>, ultima: seq<Label>, k: nat)
    requires k <= |ultima| <= |primeira| && |lista| > n
    ensures PassFrom(lista, n, letra, primeira, ultima, k).NextPass?
    ensures |PassFrom(lista, n, letra, primeira, ultima, k).lista| > n
    decreases |ultima| - k
  {
    if k < |ultima| {
      var lista' := if ultima[k] == letra then lista + [letra.0] else lista;
      var letra' := if ultima[k] == letra then primeira[k] else letra;
      PassOverfull(lista', n, letra', primeira, ultima, k + 1);
    }
  }

  /** `listaSequenciaOriginal` is emptied only by `__init__`. A second
      inverse on the same object, for a text shorter than the one already
      recovered, starts with more than `n` symbols: no pass ever returns,
      and Python recurses until `RecursionError`. */
  lemma {:induction false} StaleListNeverReturns(lista: string, n: int, letra: Label, primeira: seq<Label>, ultima: seq<Label>, fuel: nat)
    requires |ultima| <= |primeira| && |lista| > n
    ensures Passes(lista, n, letra, primeira, ultima, fuel) == None
    decreases fuel
  {
    if fuel > 0 {
      PassOverfull(lista, n, letra, primeira, ultima, 0);
      var next := PassFrom(lista, n, letra, primeira, ultima, 0);
      StaleListNeverReturns(next.lista, n, next.letra, primeira, ultima, fuel - 1);
    }
  }

  /** With exactly `n` symbols already recorded, a pass whose first row
      does not hold the label returns at once, and the object keeps the
      symbols of the previous text. */
  lemma StaleListReturnsAtOnce(lista: string, n: int, letra: Label, primeira: seq<Label>, ultima: seq<Label>)
    requires 0 < |ultima| <= |primeira| && |lista| == n && ultima[0] != letra
    ensures PassFrom(lista, n, letra, primeira, ultima, 0) == Returned(lista)
  {
  }

  /** The state of a `BWT` object: the recovered symbols and the occurrence
      dictionary, with its keys in insertion order. */
  class BWT {
    var listaSequenciaOriginal: string
    var dicionarioOcorrencias: map<char, int>
    var chaves: seq<char>

    /** The key order lists each key of the dictionary once. */
    ghost predicate Valid()
      reads this
    {
      && Distinct(chaves)
      && (forall c :: c in chaves <==> c in dicionarioOcorrencias)
    }

    constructor ()
      ensures Valid()
      ensures listaSequenciaOriginal == []
      ensures dicionarioOcorrencias == map[] && chaves == []
    {
      listaSequenciaOriginal := [];
      dicionarioOcorrencias := map[];
      chaves := [];
    }

    /** `criarDicionarioOcorrencias`: a counter at -1 for every symbol of
        the transform. */
    method CriarDicionarioOcorrencias(bwt: string)
      modifies this
      ensures Valid()
      ensures dicionarioOcorrencias == map c | c in bwt :: -1
      ensures chaves == Dedup(bwt)
      ensures listaSequenciaOriginal == old(listaSequenciaOriginal)
    {
      var d: map<char, int> := map[];
      var ks: seq<char> := [];
      for i := 0 to |bwt|
        invariant d == map c | c in bwt[..i] :: -1
        invariant ks == Dedup(bwt[..i])
      {
        var letra := bwt[i];
        assert bwt[..i + 1][..i] == bwt[..i];
        if letra !in d {
          ks := ks + [letra];
        }
        d := d[letra := -1];
      }
      assert bwt[..|bwt|] == bwt;
      dicionarioOcorrencias := d;
      chaves := ks;
    }

    /** `decidirCaracter`: when the symbol is this key, count it and append
        its label. */
    method DecidirCaracter(item: char, chave: char, lista: seq<Label>) returns (lista': seq<Label>)
      requires chave in dicionarioOcorrencias
      modifies this
      ensures chaves == old(chaves) && listaSequenciaOriginal == old(listaSequenciaOriginal)
      ensures item == chave ==>
        && dicionarioOcorrencias == old(dicionarioOcorrencias)[chave := old(dicionarioOcorrencias)[chave] + 1]
        && lista' == lista + [(chave, old(dicionarioOcorrencias)[chave] + 1)]
      ensures item != chave ==> dicionarioOcorrencias == old(dicionarioOcorrencias) && lista' == lista
    {
      lista' := lista;
      if item == chave {
        dicionarioOcorrencias := dicionarioOcorrencias[chave := dicionarioOcorrencias[chave] + 1];
        lista' := lista' + [(item, dicionarioOcorrencias[chave])];
      }
    }

    /** `preencherLista`: tags every symbol of `xs` that is a key with its
        counter, appending the labels, then resets every counter to -1. */
    method PreencherLista(xs: string, lista: seq<Label>) returns (lista': seq<Label>)
      requires Valid()
      modifies this
      ensures Valid()
      ensures lista' == lista + Tagged(xs, old(dicionarioOcorrencias))
      ensures dicionarioOcorrencias == map c | c in old(dicionarioOcorrencias) :: -1
      ensures chaves == old(chaves) && listaSequenciaOriginal == old(listaSequenciaOriginal)
    {
      ghost var d0 := dicionarioOcorrencias;
      lista' := lista;
      for i := 0 to |xs|
        invariant Valid() && chaves == old(chaves) && listaSequenciaOriginal == old(listaSequenciaOriginal)
        invariant dicionarioOcorrencias.Keys == d0.Keys
        invariant forall c :: c in d0 ==> dicionarioOcorrencias[c] == d0[c] + Count(xs[..i], c)
        invariant lista' == lista + Tagged(xs[..i], d0)
      {
        assert xs[..i + 1][..i] == xs[..i];
        lista' := ContarItem(xs[i], lista');
        forall c | c in d0 ensures dicionarioOcorrencias[c] == d0[c] + Count(xs[..i + 1], c) {
          CountStep(xs, c, i);
        }
      }
      assert xs[..|xs|] == xs;
      ReporContadores();
    }

    /** The inner loop of `preencherLista`: `decidirCaracter` for `item`
        against every key, which counts and labels `item` once when it is a
        key and does nothing otherwise. */
    method ContarItem(item: char, lista: seq<Label>) returns (lista': seq<Label>)
      requires Valid()
      modifies this
      ensures Valid() && chaves == old(chaves) && listaSequenciaOriginal == old(listaSequenciaOriginal)
      ensures item in chaves ==>
        && dicionarioOcorrencias == old(dicionarioOcorrencias)[item := old(dicionarioOcorrencias)[item] + 1]
        && lista' == lista + [(item, old(dicionarioOcorrencias)[item] + 1)]
      ensures item !in chaves ==> dicionarioOcorrencias == old(dicionarioOcorrencias) && lista' == lista
    {
      lista' := lista;
      for j := 0 to |chaves|
        invariant chaves == old(chaves) && listaSequenciaOriginal == old(listaSequenciaOriginal)
        invariant dicionarioOcorrencias.Keys == old(dicionarioOcorrencias).Keys
        invariant item !in chaves[..j] ==> dicionarioOcorrencias == old(dicionarioOcorrencias) && lista' == lista
        invariant item in chaves[..j] ==>
          && dicionarioOcorrencias == old(dicionarioOcorrencias)[item := old(dicionarioOcorrencias)[item] + 1]
          && lista' == lista + [(item, old(dicionarioOcorrencias)[item] + 1)]
      {
        assert chaves[..j + 1] == chaves[..j] + [chaves[j]];
        lista' := DecidirCaracter(item, chaves[j], lista');
      }
      assert chaves[..|chaves|] == chaves;
    }

    /** The last loop of `preencherLista`: every counter back to -1. */
    method ReporContadores()
      requires Valid()
      modifies this
      ensures Valid()
      ensures dicionarioOcorrencias == map c | c in old(dicionarioOcorrencias) :: -1
      ensures chaves == old(chaves) && listaSequenciaOriginal == old(listaSequenciaOriginal)
    {
      for j := 0 to |chaves|
        invariant chaves == old(chaves) && listaSequenciaOriginal == old(listaSequenciaOriginal)
        invariant dicionarioOcorrencias.Keys == old(dicionarioOcorrencias).Keys
        invariant forall k :: 0 <= k < j ==> dicionarioOcorrencias[chaves[k]] == -1
      {
        dicionarioOcorrencias := dicionarioOcorrencias[chaves[j] := -1];
      }
    }

    /** `obterSequenciaOriginal`: passes over the last column, and each time
        the current label is met records its symbol and moves to the
        first-column label on that row; a pass that does not finish is
        followed by another. Every pass moves at least once, and the walk
        stops as soon as `n` symbols are recorded. */
    method ObterSequenciaOriginal(letra: Label, n: int, primeira: seq<Label>, ultima: seq<Label>)
      requires letra in ultima && |ultima| <= |primeira|
      requires forall i :: 0 <= i < |ultima| ==> primeira[i] in ultima
      requires |listaSequenciaOriginal| < n
      modifies this
      ensures |listaSequenciaOriginal| == n
      ensures Distinct(ultima) ==>
        listaSequenciaOriginal == old(listaSequenciaOriginal)
          + Walk(primeira, ultima, letra, n - |old(listaSequenciaOriginal)|)
      ensures dicionarioOcorrencias == old(dicionarioOcorrencias) && chaves == old(chaves)
      decreases n - |listaSequenciaOriginal|
    {
      ghost var start := listaSequenciaOriginal;
      ghost var a: nat := 0;
      var atual := letra;
      var indice := -1;
      for k := 0 to |ultima|
        invariant indice == k - 1
        invariant atual in ultima
        invariant |listaSequenciaOriginal| == |start| + a < n
        invariant dicionarioOcorrencias == old(dicionarioOcorrencias) && chaves == old(chaves)
        invariant a == 0 ==> atual == letra && forall j :: 0 <= j < k ==> ultima[j] != letra
        invariant Distinct(ultima) ==>
          && listaSequenciaOriginal == start + Walk(primeira, ultima, letra, a)
          && atual == StepN(primeira, ultima, letra, a)
      {
        indice := indice + 1;
        var item := ultima[k];
        if item == atual {
          if Distinct(ultima) {
            PassMatch(primeira, ultima, letra, a, k);
          }
          listaSequenciaOriginal := listaSequenciaOriginal + [atual.0];
          atual := primeira[indice];
          a := a + 1;
        }
        if |listaSequenciaOriginal| == n {
          return;
        }
      }
      ObterSequenciaOriginal(atual, n, primeira, ultima);
      if Distinct(ultima) {
        WalkSplit(primeira, ultima, letra, a, n - |start| - a);
      }
    }

    /** `SequenciaOriginalEmString`: the recorded symbols with the first one
        moved to the end. */
    method SequenciaOriginalEmString() returns (seqOriginal: string)
      requires |listaSequenciaOriginal| > 0
      ensures seqOriginal == listaSequenciaOriginal[1..] + [listaSequenciaOriginal[0]]
    {
      seqOriginal := listaSequenciaOriginal;
      seqOriginal := PySlice(seqOriginal, 1, |seqOriginal|) + [PyAt(seqOriginal, 0)];
    }

    /** The script's round trip: the transform of `s` through the sorted
        rotation matrix, then the inverse through the ranked columns from
        `'$0'`; for a sentinel-terminated text it gives `s` back. */
    method TransformarEInverter(s: string) returns (bwt: string, sequenciaOriginal: string)
      requires Terminated(s) && listaSequenciaOriginal == []
      modifies this
      ensures bwt == BwtOf(s)
      ensures sequenciaOriginal == s
    {
      bwt := Transformar(s);
      sequenciaOriginal := Inverter(s, bwt);
    }

    /** The script's inverse: the occurrence dictionary, both columns
        labelled by `preencherLista`, the walk from `'$0'` and the final
        rotation; from the transform of a sentinel-terminated text it
        recovers the text. */
    method Inverter(ghost s: string, bwt: string) returns (sequenciaOriginal: string)
      requires Terminated(s) && bwt == BwtOf(s) && listaSequenciaOriginal == []
      modifies this
      ensures sequenciaOriginal == s
    {
      CriarDicionarioOcorrencias(bwt);
      var primeiraColuna := CriarPrimeiraColuna(bwt);
      var ultimaColuna := CriarUltimaColuna(bwt);
      ghost var d := dicionarioOcorrencias;
      LabelledColumns(s, d);
      var listaPrimeira := PreencherLista(primeiraColuna, []);
      assert dicionarioOcorrencias == d;
      var listaUltima := PreencherLista(ultimaColuna, []);
      assert listaPrimeira == Labelled(FirstOf(s));
      assert listaUltima == Labelled(BwtOf(s));
      var comprimento := |listaUltima|;
      assert comprimento - |listaSequenciaOriginal| == |s|;
      ObterSequenciaOriginal(('$', 0), comprimento, listaPrimeira, listaUltima);
      assert listaSequenciaOriginal == [] + Walk(listaPrimeira, listaUltima, ('$', 0), |s|);
      WalkRecovers(s);
      assert listaSequenciaOriginal == ['$'] + s[..|s| - 1];
      sequenciaOriginal := SequenciaOriginalEmString();
      SentinelMovedBack(s, listaSequenciaOriginal);
    }

    /** The inverse with the recovered symbols cleared first, as
        `__init__` clears them: on any object, the transform of a
        sentinel-terminated text gives the text back. */
    method InverterDeNovo(ghost s: string, bwt: string) returns (sequenciaOriginal: string)
      requires Terminated(s) && bwt == BwtOf(s)
      modifies this
      ensures sequenciaOriginal == s
    {
      listaSequenciaOriginal := [];
      sequenciaOriginal := Inverter(s, bwt);
    }

    /** The columns `preencherLista` labels from a fresh occurrence
        dictionary of the transform are the ranked first and last columns,
        and they are what the walk needs: every first-column label is in
        the last column, which holds `'$0'` and repeats no label. */
    static lemma LabelledColumns(s: string, d: map<char, int>)
      requires Terminated(s) && d == map c | c in BwtOf(s) :: -1
      ensures Tagged(CriarPrimeiraColuna(BwtOf(s)), d) == Labelled(FirstOf(s))
      ensures Tagged(BwtOf(s), d) == Labelled(BwtOf(s))
      ensures (map c | c in d :: -1) == d
      ensures forall i :: 0 <= i < |s| ==> Labelled(FirstOf(s))[i] in Labelled(BwtOf(s))
      ensures ('$', 0) in Labelled(BwtOf(s)) && Distinct(Labelled(BwtOf(s)))
    {
      FirstColumnTags(s, d);
      TaggedFresh(BwtOf(s), d);
      FirstLabelsInLast(s);
      LabelledDistinct(BwtOf(s));
    }

    /** `preencherLista` over `criarPrimeiraColuna` of the transform, from a
        fresh dictionary, labels the first column by rank. */
    static lemma FirstColumnTags(s: string, d: map<char, int>)
      requires Terminated(s) && d == map c | c in BwtOf(s) :: -1
      ensures Tagged(CriarPrimeiraColuna(BwtOf(s)), d) == Labelled(FirstOf(s))
    {
      var bwt := BwtOf(s);
      var primeira := CriarPrimeiraColuna(bwt);
      PrimeiraColunaSorted(bwt);
      SortedPermutationIsFirst(s, primeira);
      forall i | 0 <= i < |s| ensures primeira[i] in d {
        assert primeira[i] in multiset(bwt);
      }
      TaggedFresh(primeira, d);
    }

    /** Moving the recovered sentinel from the front to the end gives the
        text back. */
    static lemma SentinelMovedBack(s: string, w: string)
      requires Terminated(s) && w == ['$'] + s[..|s| - 1]
      ensures w[1..] + [w[0]] == s
    {
      assert w[1..] == s[..|s| - 1];
      assert s == s[..|s| - 1] + [s[|s| - 1]];
    }
  }
}
