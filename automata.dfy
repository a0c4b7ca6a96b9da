/** The `Automata` class: a pattern matcher driven by a simplified
    transition table. From state `e` a symbol equal to `padrao[e]` advances
    to `e + 1`; any other symbol goes to 1 if it starts the pattern and to
    0 otherwise. Reaching the final state records a hit and restarts. */
module FiniteAutomata {

  /** The target of the transition from `estado` on `c`. */
  function Delta(padrao: string, estado: nat, c: char): (e: nat)
    requires estado < |padrao|
  {
    if padrao[estado] == c then estado + 1
    else if c == padrao[0] then 1
    else 0
  }

  /** The table `tabelaTransicoes` builds: one entry per state below
      `|padrao|` and per symbol of the alphabet. */
  function TransitionTable(alfabeto: seq<char>, padrao: string): map<(int, char), int>
  {
    map e, c | 0 <= e < |padrao| && c in alfabeto :: (e, c) := Delta(padrao, e, c)
  }

  /** Row `estado` of the table as the loop writes it: the entries of the
      first `j` symbols of the alphabet, a later duplicate overwriting an
      earlier one. */
  function RowTable(alfabeto: seq<char>, padrao: string, estado: nat, j: nat): map<(int, char), int>
    requires estado < |padrao| && j <= |alfabeto|
  {
    if j == 0 then map[]
    else RowTable(alfabeto, padrao, estado, j - 1)[(estado, alfabeto[j - 1]) := Delta(padrao, estado, alfabeto[j - 1])]
  }

  /** The first `n` rows as the loop writes them. */
  function RowsTable(alfabeto: seq<char>, padrao: string, n: nat): map<(int, char), int>
    requires n <= |padrao|
  {
    if n == 0 then map[]
    else RowsTable(alfabeto, padrao, n - 1) + RowTable(alfabeto, padrao, n - 1, |alfabeto|)
  }

  /** The table holds exactly the keys `(estado, c)` with `estado` a state
      below `|padrao|` and `c` a symbol of the alphabet. */
  lemma TableKeys(alfabeto: seq<char>, padrao: string, e: int, c: char)
    ensures (e, c) in TransitionTable(alfabeto, padrao) <==> 0 <= e < |padrao| && c in alfabeto
  {
  }

  /** A transition goes to `e + 1` exactly when the symbol is `padrao[e]`,
      and every target is a state of the automaton. */
  lemma TableTargets(alfabeto: seq<char>, padrao: string, e: int, c: char)
    requires (e, c) in TransitionTable(alfabeto, padrao)
    ensures var t := TransitionTable(alfabeto, padrao)[(e, c)];
      && 0 <= t <= |padrao|
      && (t == e + 1 <==> padrao[e] == c)
      && (t != e + 1 ==> t == (if c == padrao[0] then 1 else 0))
  {
  }

  /** What a run of the automaton yields: one state per symbol, or the
      `KeyError` raised for a missing transition `(estado, c)`. */
  datatype Run = States(states: seq<int>) | KeyError(estado: int, c: char)

  /** Matches the run yields: start positions, or the same `KeyError`. */
  datatype Hits = Matches(positions: seq<int>) | NoTransition(estado: int, c: char)

  /** `aplicaAutomato` with table `t` over `s[i..]` from state `estado`; a
      state equal to `m` is recorded and then reset to 0. */
  function Apply(t: map<(int, char), int>, m: int, estado: int, s: string, i: nat): Run
    requires i <= |s|
    decreases |s| - i
  {
    if i == |s| then States([])
    else if (estado, s[i]) !in t then KeyError(estado, s[i])
    else
      var e := t[(estado, s[i])];
      Prepend([e], Apply(t, m, if e == m then 0 else e, s, i + 1))
  }

  /** `xs` put in front of the states of `r`; an error passes through. */
  function Prepend(xs: seq<int>, r: Run): (r': Run)
    ensures r.States? <==> r'.States?
    ensures r.States? ==> r'.states == xs + r.states
    ensures r.KeyError? ==> r' == r
  {
    match r
    case States(st) => States(xs + st)
    case KeyError(_, _) => r
  }

  lemma PrependAssoc(xs: seq<int>, ys: seq<int>, r: Run)
    ensures Prepend(xs, Prepend(ys, r)) == Prepend(xs + ys, r)
  {
    if r.States? {
      assert xs + (ys + r.states) == (xs + ys) + r.states;
    }
  }

  /** The start positions `i - m + 1` of every index `i` whose state is `m`,
      in index order. */
  function Positions(states: seq<int>, m: int): seq<int>
  {
    if states == [] then []
    else
      var i := |states| - 1;
      Positions(states[..i], m) + (if states[i] == m then [i - m + 1] else [])
  }

  /** `posicoesMatch` on a run. */
  function MatchesOf(r: Run, m: int): Hits
  {
    match r
    case States(st) => Matches(Positions(st, m))
    case KeyError(e, c) => NoTransition(e, c)
  }

  /** A run yields one state per symbol read. */
  lemma {:induction false} OneStatePerSymbol(t: map<(int, char), int>, m: int, estado: int, s: string, i: nat)
    requires i <= |s| && Apply(t, m, estado, s, i).States?
    ensures |Apply(t, m, estado, s, i).states| == |s| - i
    decreases |s| - i
  {
    if i < |s| {
      var e := t[(estado, s[i])];
      OneStatePerSymbol(t, m, if e == m then 0 else e, s, i + 1);
    }
  }

  /** With the automaton's own table and a non-empty pattern, a run from a
      state below `|padrao|` fails exactly when some symbol is outside the
      alphabet. */
  lemma {:induction false} KeyErrorIffForeign(alfabeto: seq<char>, padrao: string, estado: int, s: string, i: nat)
    requires |padrao| > 0 && 0 <= estado < |padrao| && i <= |s|
    ensures Apply(TransitionTable(alfabeto, padrao), |padrao|, estado, s, i).KeyError?
      <==> exists k :: i <= k < |s| && s[k] !in alfabeto
    decreases |s| - i
  {
    var t := TransitionTable(alfabeto, padrao);
    if i < |s| {
      TableKeys(alfabeto, padrao, estado, s[i]);
      if s[i] in alfabeto {
        var e := t[(estado, s[i])];
        TableTargets(alfabeto, padrao, estado, s[i]);
        KeyErrorIffForeign(alfabeto, padrao, if e == |padrao| then 0 else e, s, i + 1);
      }
    }
  }

  /** With an empty pattern the table is empty: every non-empty sequence
      fails on its first symbol. */
  lemma EmptyPatternFails(alfabeto: seq<char>, s: string)
    requires s != []
    ensures Apply(TransitionTable(alfabeto, ""), 0, 0, s, 0) == KeyError(0, s[0])
  {
    TableKeys(alfabeto, "", 0, s[0]);
  }

  /** Every entry of `t` is a transition of the automaton for `padrao`. */
  ghost predicate Follows(t: map<(int, char), int>, padrao: string) {
    forall k :: k in t ==> 0 <= k.0 < |padrao| && t[k] == Delta(padrao, k.0, k.1)
  }

  lemma TableFollows(alfabeto: seq<char>, padrao: string)
    ensures Follows(TransitionTable(alfabeto, padrao), padrao)
  {
  }

  /** The meaning of being in state `k` after reading `w[..i+1]`: the
      last `k` symbols read spell `padrao[..k]`. */
  ghost predicate Spells(w: string, i: int, padrao: string, k: int)
    decreases k
  {
    0 <= k <= |padrao| && k <= i + 1 <= |w|
    && (k == 0 || (w[i] == padrao[k - 1] && Spells(w, i - 1, padrao, k - 1)))
  }

  /** The same as slices: `w[i+1-k..i+1] == padrao[..k]`. */
  lemma {:induction false} SpellsSlice(w: string, i: int, padrao: string, k: int)
    requires Spells(w, i, padrao, k)
    ensures w[i + 1 - k..i + 1] == padrao[..k]
    decreases k
  {
    if k > 0 {
      SpellsSlice(w, i - 1, padrao, k - 1);
      assert w[i + 1 - k..i + 1] == w[i + 1 - k..i] + [w[i]];
      assert padrao[..k] == padrao[..k - 1] + [padrao[k - 1]];
    }
  }

  /** One transition keeps the meaning of the state: if the `estado`
      symbols before `w[from]` spell `padrao[..estado]`, the symbols up to
      and including `w[from]` spell the prefix of the target state. */
  lemma SpellStep(padrao: string, estado: nat, w: string, from: nat)
    requires estado < |padrao| && from < |w| && Spells(w, from - 1, padrao, estado)
    ensures Spells(w, from, padrao, Delta(padrao, estado, w[from]))
  {
    assert Spells(w, from - 1, padrao, 0);
  }

  /** The state a run over `w[from..]` with a table of the automaton
      records at position `i` is a state of the automaton, and the symbols
      read up to `w[i]` spell that prefix of the pattern. */
  lemma {:induction false} StateSpells(t: map<(int, char), int>, padrao: string, estado: int, w: string, from: nat, i: nat)
    requires Follows(t, padrao)
    requires 0 <= estado < |padrao| || estado == 0
    requires from <= i < |w| && Spells(w, from - 1, padrao, estado)
    requires Apply(t, |padrao|, estado, w, from).States?
    ensures i - from < |Apply(t, |padrao|, estado, w, from).states|
    ensures Spells(w, i, padrao, Apply(t, |padrao|, estado, w, from).states[i - from])
    decreases i - from
  {
    var m := |padrao|;
    var e := t[(estado, w[from])];
    var next := if e == m then 0 else e;
    OneStatePerSymbol(t, m, next, w, from + 1);
    var st := Apply(t, m, estado, w, from).states;
    var rest := Apply(t, m, next, w, from + 1).states;
    assert st == [e] + rest;
    assert e == Delta(padrao, estado, w[from]);
    SpellStep(padrao, estado, w, from);
    if from < i {
      assert Spells(w, from, padrao, 0);
      StateSpells(t, padrao, next, w, from + 1, i);
      assert st[i - from] == rest[i - (from + 1)];
    }
  }

  /** Soundness of `posicoesMatch`: every reported position starts an
      occurrence of the pattern. */
  lemma MatchesAreOccurrences(alfabeto: seq<char>, padrao: string, s: string, p: int)
    requires MatchesOf(Apply(TransitionTable(alfabeto, padrao), |padrao|, 0, s, 0), |padrao|).Matches?
    requires p in MatchesOf(Apply(TransitionTable(alfabeto, padrao), |padrao|, 0, s, 0), |padrao|).positions
    ensures 0 <= p && p + |padrao| <= |s| && s[p..p + |padrao|] == padrao
  {
    TableFollows(alfabeto, padrao);
    MatchesSound(TransitionTable(alfabeto, padrao), padrao, s, p);
  }

  /** The same for any table whose entries are transitions of the
      automaton. */
  lemma MatchesSound(t: map<(int, char), int>, padrao: string, s: string, p: int)
    requires Follows(t, padrao) && Apply(t, |padrao|, 0, s, 0).States?
    requires p in Positions(Apply(t, |padrao|, 0, s, 0).states, |padrao|)
    ensures 0 <= p && p + |padrao| <= |s| && s[p..p + |padrao|] == padrao
  {
    var st := Apply(t, |padrao|, 0, s, 0).states;
    var i := PositionSource(st, |padrao|, p);
    OneStatePerSymbol(t, |padrao|, 0, s, 0);
    assert Spells(s, -1, padrao, 0);
    StateSpells(t, padrao, 0, s, 0, i);
    assert st[i - 0] == st[i];
    SpellsSlice(s, i, padrao, |padrao|);
  }

  /** The index whose state put `p` in the position list. */
  lemma {:induction false} PositionSource(states: seq<int>, m: int, p: int) returns (i: nat)
    requires p in Positions(states, m)
    ensures i < |states| && states[i] == m && p == i - m + 1
  {
    var j := |states| - 1;
    if p in Positions(states[..j], m) {
      i := PositionSource(states[..j], m, p);
      assert states[..j][i] == states[i];
    } else {
      i := j;
    }
  }

  /** The positions are listed in strictly increasing order, and each one
      comes from an index of the run. */
  lemma {:induction false} PositionsIncreasing(states: seq<int>, m: int)
    ensures forall a, b :: 0 <= a < b < |Positions(states, m)| ==> Positions(states, m)[a] < Positions(states, m)[b]
    ensures forall a :: 0 <= a < |Positions(states, m)| ==> Positions(states, m)[a] <= |states| - m
  {
    if states != [] {
      var j := |states| - 1;
      var init := Positions(states[..j], m);
      PositionsIncreasing(states[..j], m);
    }
  }

  /** `posicoesMatch` lists its positions in ascending order. */
  lemma MatchesAscending(alfabeto: seq<char>, padrao: string, s: string)
    requires MatchesOf(Apply(TransitionTable(alfabeto, padrao), |padrao|, 0, s, 0), |padrao|).Matches?
    ensures var ps := MatchesOf(Apply(TransitionTable(alfabeto, padrao), |padrao|, 0, s, 0), |padrao|).positions;
      forall a, b :: 0 <= a < b < |ps| ==> ps[a] < ps[b]
  {
    var st := Apply(TransitionTable(alfabeto, padrao), |padrao|, 0, s, 0).states;
    PositionsIncreasing(st, |padrao|);
  }

  /** The pattern "aca" over the alphabet "ac" on "cacaacaa": the run
      visits 0,1,2,3,1,2,3,1 and reports the positions 1 and 4. */
  lemma ExampleRun()
    ensures Apply(TransitionTable("ac", "aca"), 3, 0, "cacaacaa", 0) == States([0, 1, 2, 3, 1, 2, 3, 1])
    ensures Positions([0, 1, 2, 3, 1, 2, 3, 1], 3) == [1, 4]
  {
    var t := TransitionTable("ac", "aca");
    TableKeys("ac", "aca", 0, 'c');
    TableKeys("ac", "aca", 0, 'a');
    TableKeys("ac", "aca", 1, 'c');
    TableKeys("ac", "aca", 2, 'a');
    ExampleTrace(t);
    ExamplePositions();
  }

  lemma ExampleTrace(t: map<(int, char), int>)
    requires (0, 'c') in t && (0, 'a') in t && (1, 'c') in t && (2, 'a') in t
    requires t[(0, 'c')] == 0 && t[(0, 'a')] == 1 && t[(1, 'c')] == 2 && t[(2, 'a')] == 3
    ensures Apply(t, 3, 0, "cacaacaa", 0) == States([0, 1, 2, 3, 1, 2, 3, 1])
  {
    var w := "cacaacaa";
    assert Apply(t, 3, 0, w, 7) == States([1]);
    assert Apply(t, 3, 2, w, 6) == States([3, 1]);
    assert Apply(t, 3, 1, w, 5) == States([2, 3, 1]);
    assert Apply(t, 3, 0, w, 4) == States([1, 2, 3, 1]);
    assert Apply(t, 3, 2, w, 3) == States([3, 1, 2, 3, 1]);
    assert Apply(t, 3, 1, w, 2) == States([2, 3, 1, 2, 3, 1]);
    assert Apply(t, 3, 0, w, 1) == States([1, 2, 3, 1, 2, 3, 1]);
  }

  lemma ExamplePositions()
    ensures Positions([0, 1, 2, 3, 1, 2, 3, 1], 3) == [1, 4]
  {
    assert Positions([0], 3) == [];
    assert [0, 1][..1] == [0];
    assert Positions([0, 1], 3) == [];
    assert [0, 1, 2][..2] == [0, 1];
    assert Positions([0, 1, 2], 3) == [];
    assert [0, 1, 2, 3][..3] == [0, 1, 2];
    assert Positions([0, 1, 2, 3], 3) == [1];
    assert [0, 1, 2, 3, 1][..4] == [0, 1, 2, 3];
    assert Positions([0, 1, 2, 3, 1], 3) == [1];
    assert [0, 1, 2, 3, 1, 2][..5] == [0, 1, 2, 3, 1];
    assert Positions([0, 1, 2, 3, 1, 2], 3) == [1];
    assert [0, 1, 2, 3, 1, 2, 3][..6] == [0, 1, 2, 3, 1, 2];
    assert Positions([0, 1, 2, 3, 1, 2, 3], 3) == [1, 4];
    assert [0, 1, 2, 3, 1, 2, 3, 1][..7] == [0, 1, 2, 3, 1, 2, 3];
  }

  /** The simplified table is not complete: for "aab" over the alphabet
      "ab", the third 'a' of "aaab" sends state 2 back to 1 instead of
      keeping the last two symbols, so the occurrence at 1 is never
      reported. */
  lemma MissedOccurrence()
    ensures Apply(TransitionTable("ab", "aab"), 3, 0, "aaab", 0) == States([1, 2, 1, 0])
    ensures MatchesOf(Apply(TransitionTable("ab", "aab"), 3, 0, "aaab", 0), 3) == Matches([])
    ensures "aaab"[1..4] == "aab"
  {
    var t := TransitionTable("ab", "aab");
    TableKeys("ab", "aab", 0, 'a');
    TableKeys("ab", "aab", 1, 'a');
    TableKeys("ab", "aab", 2, 'a');
    TableKeys("ab", "aab", 1, 'b');
    MissedTrace(t);
    assert [1, 2, 1, 0][..3] == [1, 2, 1];
    assert [1, 2, 1][..2] == [1, 2];
    assert [1, 2][..1] == [1];
    assert Positions([1], 3) == [];
  }

  lemma MissedTrace(t: map<(int, char), int>)
    requires (0, 'a') in t && (1, 'a') in t && (2, 'a') in t && (1, 'b') in t
    requires t[(0, 'a')] == 1 && t[(1, 'a')] == 2 && t[(2, 'a')] == 1 && t[(1, 'b')] == 0
    ensures Apply(t, 3, 0, "aaab", 0) == States([1, 2, 1, 0])
  {
    var w := "aaab";
    assert Apply(t, 3, 1, w, 3) == States([0]);
    assert Apply(t, 3, 2, w, 2) == States([1, 0]);
    assert Apply(t, 3, 1, w, 1) == States([2, 1, 0]);
  }

  class Automata {
    var alfabeto: seq<char>
    var padrao: string
    var transicoes: map<(int, char), int>

    /** The constructor stores the alphabet and pattern and fills the
        table. */
    constructor (alfabeto: seq<char>, padrao: string)
      ensures this.alfabeto == alfabeto && this.padrao == padrao
      ensures transicoes == TransitionTable(alfabeto, padrao)
    {
      this.alfabeto := alfabeto;
      this.padrao := padrao;
      transicoes := map[];
      new;
      TabelaTransicoes();
      assert map[] + TransitionTable(alfabeto, padrao) == TransitionTable(alfabeto, padrao);
    }

    /** `tabelaTransicoes`: writes the entry of every `(estado, caracter)`
        into `transicoes`, keeping any other entry. */
    method TabelaTransicoes()
      modifies this
      ensures alfabeto == old(alfabeto) && padrao == old(padrao)
      ensures transicoes == old(transicoes) + TransitionTable(alfabeto, padrao)
    {
      var alfabeto, padrao := this.alfabeto, this.padrao;
      for estado := 0 to |padrao|
        invariant this.alfabeto == alfabeto && this.padrao == padrao
        invariant transicoes == old(transicoes) + RowsTable(alfabeto, padrao, estado)
      {
        for j := 0 to |alfabeto|
          invariant this.alfabeto == alfabeto && this.padrao == padrao
          invariant transicoes == (old(transicoes) + RowsTable(alfabeto, padrao, estado)) + RowTable(alfabeto, padrao, estado, j)
        {
          var caracter := alfabeto[j];
          var transicao := (estado, caracter);
          var alvo;
          if padrao[estado] == caracter {
            alvo := estado + 1;
          } else {
            if caracter == padrao[0] {
              alvo := 1;
            } else {
              alvo := 0;
            }
          }
          UpdateUnion(old(transicoes) + RowsTable(alfabeto, padrao, estado), RowTable(alfabeto, padrao, estado, j), transicao, alvo);
          transicoes := transicoes[transicao := alvo];
        }
        UnionAssoc(old(transicoes), RowsTable(alfabeto, padrao, estado), RowTable(alfabeto, padrao, estado, |alfabeto|));
      }
      RowsWhole(alfabeto, padrao);
    }

    /** `aplicaAutomato`: the run of the automaton over `sequencia` from
        state 0. */
    method AplicaAutomato(sequencia: string) returns (r: Run)
      ensures r == Apply(transicoes, |padrao|, 0, sequencia, 0)
    {
      var estado := 0;
      var estados := [];
      for i := 0 to |sequencia|
        invariant Apply(transicoes, |padrao|, 0, sequencia, 0) == Prepend(estados, Apply(transicoes, |padrao|, estado, sequencia, i))
      {
        var car := sequencia[i];
        if (estado, car) !in transicoes {
          return KeyError(estado, car);
        }
        var e := transicoes[(estado, car)];
        PrependAssoc(estados, [e], Apply(transicoes, |padrao|, if e == |padrao| then 0 else e, sequencia, i + 1));
        estado := e;
        estados := estados + [estado];
        if estado == |padrao| {
          estado := 0;
        }
      }
      r := States(estados);
    }

    /** `posicoesMatch`: the start position of every match the run
        records. */
    method PosicoesMatch(sequencia: string) returns (r: Hits)
      ensures r == MatchesOf(Apply(transicoes, |padrao|, 0, sequencia, 0), |padrao|)
    {
      var run := AplicaAutomato(sequencia);
      if run.KeyError? {
        return NoTransition(run.estado, run.c);
      }
      var listaEstados := run.states;
      var listaMatchs := [];
      for i := 0 to |listaEstados|
        invariant listaMatchs == Positions(listaEstados[..i], |padrao|)
      {
        assert listaEstados[..i + 1][..i] == listaEstados[..i];
        if listaEstados[i] == |padrao| {
          var posicaoMatch := i - |padrao| + 1;
          listaMatchs := listaMatchs + [posicaoMatch];
        }
      }
      assert listaEstados[..|listaEstados|] == listaEstados;
      r := Matches(listaMatchs);
    }
  }

  lemma UpdateUnion<K, V>(a: map<K, V>, b: map<K, V>, k: K, v: V)
    ensures (a + b)[k := v] == a + b[k := v]
  {
  }

  lemma UnionAssoc<K, V>(a: map<K, V>, b: map<K, V>, c: map<K, V>)
    ensures (a + b) + c == a + (b + c)
  {
  }

  lemma {:induction false} RowKeys(alfabeto: seq<char>, padrao: string, estado: nat, j: nat, e: int, c: char)
    requires estado < |padrao| && j <= |alfabeto|
    ensures (e, c) in RowTable(alfabeto, padrao, estado, j) <==> e == estado && c in alfabeto[..j]
    ensures (e, c) in RowTable(alfabeto, padrao, estado, j) ==> RowTable(alfabeto, padrao, estado, j)[(e, c)] == Delta(padrao, estado, c)
  {
    if j > 0 {
      RowKeys(alfabeto, padrao, estado, j - 1, e, c);
      assert alfabeto[..j] == alfabeto[..j - 1] + [alfabeto[j - 1]];
    }
  }

  lemma {:induction false} RowsKeys(alfabeto: seq<char>, padrao: string, n: nat, e: int, c: char)
    requires n <= |padrao|
    ensures (e, c) in RowsTable(alfabeto, padrao, n) <==> 0 <= e < n && c in alfabeto
    ensures (e, c) in RowsTable(alfabeto, padrao, n) ==> 0 <= e < n && RowsTable(alfabeto, padrao, n)[(e, c)] == Delta(padrao, e, c)
  {
    if n > 0 {
      RowsKeys(alfabeto, padrao, n - 1, e, c);
      RowKeys(alfabeto, padrao, n - 1, |alfabeto|, e, c);
      assert alfabeto[..|alfabeto|] == alfabeto;
    }
  }

  /** The loop's table is the transition table. */
  lemma RowsWhole(alfabeto: seq<char>, padrao: string)
    ensures RowsTable(alfabeto, padrao, |padrao|) == TransitionTable(alfabeto, padrao)
  {
    var a, b := RowsTable(alfabeto, padrao, |padrao|), TransitionTable(alfabeto, padrao);
    forall k | k in a ensures k in b && a[k] == b[k] {
      var (e, c) := k;
      RowsKeys(alfabeto, padrao, |padrao|, e, c);
    }
    forall k | k in b ensures k in a {
      var (e, c) := k;
      RowsKeys(alfabeto, padrao, |padrao|, e, c);
    }
  }
}
