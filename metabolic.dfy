/** `MetabolicNetwork`: a dictionary from reaction names to the lists of
    metabolites each reaction consumes (`cons`) and produces (`prod`), and
    the queries over it, up to the activation closures `r_ativ` and
    `m_ativ`. The dictionary is never changed after construction, so the
    network is a value. */
module Metabolic {
  import opened Optional
  import opened GraphModel
  import opened Lex
  import opened Sorting

  datatype Reaction = Reaction(cons: seq<string>, prod: seq<string>)

  /** The `reactions` dictionary: its keys in insertion order and its
      contents. */
  datatype Network = Network(names: seq<string>, reactions: map<string, Reaction>)

  ghost predicate WellFormedN(n: Network)
  {
    Distinct(n.names) && forall x :: x in n.names <==> x in n.reactions
  }

  /** Python's `<` on strings, the order of `sorted`. */
  const StrLe: (string, string) -> bool := (a: string, b: string) => LexLe(a, b)

  lemma StrLeTotal()
    ensures TotalPreorder(StrLe)
  {
    LexLeTotalOrder();
  }

  function Elems(s: seq<string>): set<string>
  {
    set x | x in s
  }

  /** Everything consumed by some reaction of `a`. */
  ghost function Consumed(n: Network, a: set<string>): set<string>
  {
    set x, m | x in a && x in n.reactions && m in n.reactions[x].cons :: m
  }

  /** Everything produced by some reaction of `a`. */
  ghost function Produced(n: Network, a: set<string>): set<string>
  {
    set x, m | x in a && x in n.reactions && m in n.reactions[x].prod :: m
  }

  lemma ProducedMember(n: Network, a: set<string>, m: string)
    ensures m in Produced(n, a) <==> exists x :: x in a && x in n.reactions && m in n.reactions[x].prod
  {
  }

  lemma ProducedAdd(n: Network, a: set<string>, x: string)
    requires x in n.reactions
    ensures Produced(n, a + {x}) == Produced(n, a) + Elems(n.reactions[x].prod)
  {
  }

  lemma ConsumedAdd(n: Network, a: set<string>, x: string)
    requires x in n.reactions
    ensures Consumed(n, a + {x}) == Consumed(n, a) + Elems(n.reactions[x].cons)
  {
  }

  /** The names of `names` that `keep` accepts, in their order: a list
      comprehension over the dictionary's items. */
  function Select(names: seq<string>, keep: string -> bool): (r: seq<string>)
    ensures forall x :: x in r <==> x in names && keep(x)
    ensures |r| <= |names|
  {
    if names == [] then []
    else Select(names[..|names| - 1], keep) + (if keep(names[|names| - 1]) then [names[|names| - 1]] else [])
  }

  /** A selection from names without repeats has no repeats. */
  lemma {:induction false} SelectDistinct(names: seq<string>, keep: string -> bool)
    requires Distinct(names)
    ensures Distinct(Select(names, keep))
  {
    if names != [] {
      var front, last := names[..|names| - 1], names[|names| - 1];
      assert Distinct(front);
      SelectDistinct(front, keep);
      assert last !in front;
    }
  }

  /** `consome(react)`: the consumed list, `KeyError` (None) for an
      unknown reaction. */
  function Consome(n: Network, react: string): (r: Option<seq<string>>)
    ensures r.Some? <==> react in n.reactions
    ensures r.Some? ==> r.value == n.reactions[react].cons
  {
    if react in n.reactions then Some(n.reactions[react].cons) else None
  }

  /** `produz(react)`: the produced list, `KeyError` (None) for an
      unknown reaction. */
  function Produz(n: Network, react: string): (r: Option<seq<string>>)
    ensures r.Some? <==> react in n.reactions
    ensures r.Some? ==> r.value == n.reactions[react].prod
  {
    if react in n.reactions then Some(n.reactions[react].prod) else None
  }

  /** `consomem(met)`: the reactions consuming `met`, in dictionary
      order. */
  function Consomem(n: Network, met: string): (r: seq<string>)
    ensures forall x :: x in r <==> x in n.names && x in n.reactions && met in n.reactions[x].cons
  {
    Select(n.names, x => x in n.reactions && met in n.reactions[x].cons)
  }

  /** `produzem(met)`: the reactions producing `met`, in dictionary
      order. */
  function Produzem(n: Network, met: string): (r: seq<string>)
    ensures forall x :: x in r <==> x in n.names && x in n.reactions && met in n.reactions[x].prod
  {
    Select(n.names, x => x in n.reactions && met in n.reactions[x].prod)
  }

  /** Every metabolite `x` consumes is in `mets`. */
  predicate Enabled(n: Network, x: string, mets: set<string>)
  {
    x in n.reactions && forall c :: c in n.reactions[x].cons ==> c in mets
  }

  /** `ativadas_por(*mets)`: the reactions all of whose reactants are
      among `mets`, in dictionary order. */
  function AtivadasPor(n: Network, mets: set<string>): (r: seq<string>)
    ensures forall x :: x in r <==> x in n.names && Enabled(n, x, mets)
  {
    Select(n.names, x => Enabled(n, x, mets))
  }

  /** Each query lists every matching reaction once, and a reaction is
      among the consumers of `met` exactly when `consome` of it holds
      `met`; likewise for producers. */
  lemma QueriesDistinct(n: Network, met: string, mets: set<string>)
    requires WellFormedN(n)
    ensures Distinct(Consomem(n, met)) && Distinct(Produzem(n, met)) && Distinct(AtivadasPor(n, mets))
    ensures forall x :: x in Consomem(n, met) <==> Consome(n, x).Some? && met in Consome(n, x).value
    ensures forall x :: x in Produzem(n, met) <==> Produz(n, x).Some? && met in Produz(n, x).value
  {
    SelectDistinct(n.names, x => x in n.reactions && met in n.reactions[x].cons);
    SelectDistinct(n.names, x => x in n.reactions && met in n.reactions[x].prod);
    SelectDistinct(n.names, x => Enabled(n, x, mets));
  }

  /** `sorted(list(s))`. */
  method SortedList(s: set<string>) returns (r: seq<string>)
    ensures Sorted(r, StrLe) && Distinct(r) && Elems(r) == s
  {
    StrLeTotal();
    r := SortedFromSet(s, StrLe);
  }

  /** `metabolitos()`: every metabolite any reaction consumes or
      produces, sorted, once each. */
  method Metabolitos(n: Network) returns (r: seq<string>)
    requires WellFormedN(n)
    ensures Sorted(r, StrLe) && Distinct(r)
    ensures Elems(r) == Consumed(n, n.reactions.Keys) + Produced(n, n.reactions.Keys)
  {
    var todos: set<string> := {};
    for k := 0 to |n.names|
      invariant todos == Consumed(n, Elems(n.names[..k])) + Produced(n, Elems(n.names[..k]))
    {
      var x := n.names[k];
      assert Elems(n.names[..k + 1]) == Elems(n.names[..k]) + {x} by {
        assert n.names[..k + 1] == n.names[..k] + [x];
      }
      ConsumedAdd(n, Elems(n.names[..k]), x);
      ProducedAdd(n, Elems(n.names[..k]), x);
      todos := todos + Elems(n.reactions[x].cons) + Elems(n.reactions[x].prod);
    }
    assert n.names[..|n.names|] == n.names;
    assert Elems(n.names) == n.reactions.Keys;
    r := SortedList(todos);
  }

  /** The loop adding the products of each reaction of `rs`. */
  method ProductsOf(n: Network, rs: seq<string>) returns (produtos: set<string>)
    requires forall x :: x in rs ==> x in n.reactions
    ensures produtos == Produced(n, Elems(rs))
  {
    produtos := {};
    for k := 0 to |rs|
      invariant produtos == Produced(n, Elems(rs[..k]))
    {
      assert Elems(rs[..k + 1]) == Elems(rs[..k]) + {rs[k]} by {
        assert rs[..k + 1] == rs[..k] + [rs[k]];
      }
      ProducedAdd(n, Elems(rs[..k]), rs[k]);
      produtos := produtos + Elems(n.reactions[rs[k]].prod);
    }
    assert rs[..|rs|] == rs;
  }

  /** `mlig(met)`: the products of the reactions consuming `met`, sorted,
      once each. */
  method Mlig(n: Network, met: string) returns (r: seq<string>)
    requires WellFormedN(n)
    ensures Sorted(r, StrLe) && Distinct(r)
    ensures forall m :: m in r <==> exists x :: x in n.reactions && met in n.reactions[x].cons && m in n.reactions[x].prod
  {
    var cs := Consomem(n, met);
    var produtos := ProductsOf(n, cs);
    r := SortedList(produtos);
    forall m
      ensures m in r <==> exists x :: x in n.reactions && met in n.reactions[x].cons && m in n.reactions[x].prod
    {
      ProducedMember(n, Elems(cs), m);
    }
  }

  /** The reactions consuming some metabolite of `mets`. */
  ghost function Consumers(n: Network, mets: set<string>): set<string>
  {
    set x, m | x in n.reactions && m in mets && m in n.reactions[x].cons :: x
  }

  lemma ConsumersMember(n: Network, mets: set<string>, x: string)
    ensures x in Consumers(n, mets) <==> x in n.reactions && exists m :: m in mets && m in n.reactions[x].cons
  {
  }

  lemma ConsumersAdd(n: Network, mets: set<string>, m: string)
    requires WellFormedN(n)
    ensures Consumers(n, mets + {m}) == Consumers(n, mets) + Elems(Consomem(n, m))
  {
    forall x | x in Consumers(n, mets + {m})
      ensures x in Consumers(n, mets) + Elems(Consomem(n, m))
    {
      var m' :| m' in mets + {m} && m' in n.reactions[x].cons;
      if m' != m {
        assert x in Consumers(n, mets);
      }
    }
  }

  /** `rlig(react)`: the reactions consuming some product of `react`,
      sorted, once each; `KeyError` (None) for an unknown reaction. */
  method Rlig(n: Network, react: string) returns (r: Option<seq<string>>)
    requires WellFormedN(n)
    ensures r.Some? <==> react in n.reactions
    ensures r.Some? ==> Sorted(r.value, StrLe) && Distinct(r.value)
    ensures r.Some? ==> forall x :: x in r.value <==>
      x in n.reactions && exists m :: m in n.reactions[react].prod && m in n.reactions[x].cons
  {
    var p := Produz(n, react);
    if p.None? {
      return None;
    }
    var produtos := Elems(p.value);
    var reacoes: set<string> := {};
    var rest := produtos;
    while rest != {}
      invariant rest <= produtos
      invariant reacoes == Consumers(n, produtos - rest)
      decreases rest
    {
      var met :| met in rest;
      ConsumersAdd(n, produtos - rest, met);
      assert produtos - (rest - {met}) == (produtos - rest) + {met};
      reacoes := reacoes + Elems(Consomem(n, met));
      rest := rest - {met};
    }
    assert produtos - rest == produtos;
    var sorted := SortedList(reacoes);
    r := Some(sorted);
    forall x
      ensures x in sorted <==> x in n.reactions && exists m :: m in n.reactions[react].prod && m in n.reactions[x].cons
    {
      ConsumersMember(n, produtos, x);
    }
  }

  /** `produzidos_por(*reacts)`: the products of the listed reactions,
      sorted, once each; `KeyError` (None) when one of them is unknown. */
  method ProduzidosPor(n: Network, reacts: seq<string>) returns (r: Option<seq<string>>)
    requires WellFormedN(n)
    ensures r.Some? <==> forall x :: x in reacts ==> x in n.reactions
    ensures r.Some? ==> Sorted(r.value, StrLe) && Distinct(r.value) && Elems(r.value) == Produced(n, Elems(reacts))
  {
    var produtos: set<string> := {};
    for k := 0 to |reacts|
      invariant forall x :: x in reacts[..k] ==> x in n.reactions
      invariant produtos == Produced(n, Elems(reacts[..k]))
    {
      var p := Produz(n, reacts[k]);
      if p.None? {
        return None;
      }
      assert Elems(reacts[..k + 1]) == Elems(reacts[..k]) + {reacts[k]} by {
        assert reacts[..k + 1] == reacts[..k] + [reacts[k]];
      }
      ProducedAdd(n, Elems(reacts[..k]), reacts[k]);
      produtos := produtos + Elems(p.value);
    }
    assert reacts[..|reacts|] == reacts;
    var sorted := SortedList(produtos);
    r := Some(sorted);
  }
}
