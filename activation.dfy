/** The activation closures of a metabolic network: `r_ativ` keeps adding
    the reactions whose reactants are all available, and their products,
    until nothing new is activated; `m_ativ` does the same starting over
    from `r_ativ` and returns the metabolites instead. */
module Activation {
  import opened GraphModel
  import opened Sorting
  import opened Metabolic

  /** Every reaction enabled by `mets` and the products of `a` is in `a`. */
  ghost predicate Closed(n: Network, mets: set<string>, a: set<string>)
  {
    forall x :: Enabled(n, x, mets + Produced(n, a)) ==> x in a
  }

  /** `a` is the least set of reactions closed under activation from
      `mets`. */
  ghost predicate LeastClosed(n: Network, mets: set<string>, a: set<string>)
  {
    a <= n.reactions.Keys && Closed(n, mets, a) && forall c :: Closed(n, mets, c) ==> a <= c
  }

  /** Every reaction whose reactants are all in `s` has its products in
      `s`. */
  ghost predicate ProductClosed(n: Network, s: set<string>)
  {
    forall x :: Enabled(n, x, s) ==> Elems(n.reactions[x].prod) <= s
  }

  lemma ProducedMono(n: Network, a: set<string>, b: set<string>)
    requires a <= b
    ensures Produced(n, a) <= Produced(n, b)
  {
  }

  lemma ProducedUnion(n: Network, a: set<string>, b: set<string>)
    ensures Produced(n, a + b) == Produced(n, a) + Produced(n, b)
  {
  }

  lemma EnabledMono(n: Network, x: string, s: set<string>, t: set<string>)
    requires Enabled(n, x, s) && s <= t
    ensures Enabled(n, x, t)
  {
  }

  /** A reaction enabled by what the part `a` of a closed `c` makes
      available is in `c`. */
  lemma EnabledInClosed(n: Network, mets: set<string>, a: set<string>, c: set<string>, x: string)
    requires Closed(n, mets, c) && a <= c && Enabled(n, x, mets + Produced(n, a))
    ensures x in c
  {
    ProducedMono(n, a, c);
    EnabledMono(n, x, mets + Produced(n, a), mets + Produced(n, c));
  }

  /** There is only one least closed set. */
  lemma LeastClosedUnique(n: Network, mets: set<string>, a: set<string>, b: set<string>)
    requires LeastClosed(n, mets, a) && LeastClosed(n, mets, b)
    ensures a == b
  {
  }

  /** The loop `for react in novas: novos.update(produz(react))`. */
  method AddProducts(n: Network, novos: set<string>, novas: set<string>) returns (novos': set<string>)
    requires novas <= n.reactions.Keys
    ensures novos' == novos + Produced(n, novas)
  {
    novos' := novos;
    var rest := novas;
    while rest != {}
      invariant rest <= novas
      invariant novos' == novos + Produced(n, novas - rest)
      decreases rest
    {
      var react :| react in rest;
      ProducedAdd(n, novas - rest, react);
      assert novas - (rest - {react}) == (novas - rest) + {react};
      novos' := novos' + Elems(n.reactions[react].prod);
      rest := rest - {react};
    }
    assert novas - rest == novas;
  }

  /** `r_ativ(*mets)`: no arguments give []; otherwise the sorted least
      set of reactions closed under activation from `mets`. */
  method RAtiv(n: Network, mets: seq<string>) returns (r: seq<string>)
    requires WellFormedN(n)
    ensures |mets| == 0 ==> r == []
    ensures |mets| > 0 ==> Sorted(r, StrLe) && Distinct(r) && LeastClosed(n, Elems(mets), Elems(r))
  {
    if |mets| == 0 {
      return [];
    }
    var m := Elems(mets);
    var ativadas: set<string> := {};
    var novos := m;
    while true
      invariant ativadas <= n.reactions.Keys
      invariant novos == m + Produced(n, ativadas)
      invariant forall c :: Closed(n, m, c) ==> ativadas <= c
      decreases n.reactions.Keys - ativadas
    {
      var novas := Elems(AtivadasPor(n, novos)) - ativadas;
      if novas == {} {
        forall x | Enabled(n, x, m + Produced(n, ativadas))
          ensures x in ativadas
        {
          assert x in n.names;
          assert x in AtivadasPor(n, novos);
          assert x in Elems(AtivadasPor(n, novos));
          assert x !in novas;
        }
        break;
      }
      forall c | Closed(n, m, c)
        ensures ativadas + novas <= c
      {
        forall x | x in novas
          ensures x in c
        {
          EnabledInClosed(n, m, ativadas, c, x);
        }
      }
      ProducedUnion(n, ativadas, novas);
      novos := AddProducts(n, novos, novas);
      ativadas := ativadas + novas;
    }
    r := SortedList(ativadas);
  }

  /** The `*s` of a call: the items of `s` as an argument list, in some
      order. */
  method Enumerate(s: set<string>) returns (xs: seq<string>)
    ensures Elems(xs) == s
  {
    xs := [];
    var rest := s;
    while rest != {}
      invariant rest <= s && Elems(xs) == s - rest
      decreases rest
    {
      var x :| x in rest;
      assert Elems(xs + [x]) == Elems(xs) + {x};
      xs := xs + [x];
      rest := rest - {x};
    }
  }

  /** The metabolites `m_ativ` ends with are the least ones that hold the
      initial ones and the products of every reaction they enable. */
  lemma LeastProducts(n: Network, m: set<string>, a: set<string>, s: set<string>)
    requires WellFormedN(n) && LeastClosed(n, m, a) && m <= s && ProductClosed(n, s)
    ensures m + Produced(n, a) <= s
  {
    var c := set x | x in n.reactions && Enabled(n, x, s);
    forall x | Enabled(n, x, m + Produced(n, c))
      ensures x in c
    {
      forall p | p in Produced(n, c)
        ensures p in s
      {
        ProducedMember(n, c, p);
        var y :| y in c && y in n.reactions && p in n.reactions[y].prod;
        assert Elems(n.reactions[y].prod) <= s;
      }
      EnabledMono(n, x, m + Produced(n, c), s);
    }
    assert Closed(n, m, c);
    ProducedMono(n, a, c);
    forall p | p in Produced(n, c)
      ensures p in s
    {
      ProducedMember(n, c, p);
      var y :| y in c && y in n.reactions && p in n.reactions[y].prod;
      assert Elems(n.reactions[y].prod) <= s;
    }
  }

  /** `m_ativ(*mets)`: no arguments give []; otherwise the sorted initial
      metabolites together with the products of the reactions `r_ativ`
      activates from them, which is the least set holding `mets` and the
      products of every reaction it enables. */
  method MAtiv(n: Network, mets: seq<string>) returns (r: seq<string>)
    requires WellFormedN(n)
    ensures |mets| == 0 ==> r == []
    ensures |mets| > 0 ==> Sorted(r, StrLe) && Distinct(r)
    ensures |mets| > 0 ==> forall a :: LeastClosed(n, Elems(mets), a) ==> Elems(r) == Elems(mets) + Produced(n, a)
    ensures |mets| > 0 ==> Elems(mets) <= Elems(r) && ProductClosed(n, Elems(r))
    ensures |mets| > 0 ==> forall s :: Elems(mets) <= s && ProductClosed(n, s) ==> Elems(r) <= s
  {
    if |mets| == 0 {
      return [];
    }
    var m := Elems(mets);
    var ativos := m;
    var ativados: set<string> := {};
    while true
      invariant ativados <= n.reactions.Keys
      invariant ativos == m + Produced(n, ativados)
      invariant forall c :: Closed(n, m, c) ==> ativados <= c
      decreases n.reactions.Keys - ativados
    {
      var args := Enumerate(ativos);
      assert mets[0] in Elems(args);
      var found := RAtiv(n, args);
      var novas := Elems(found) - ativados;
      if novas == {} {
        forall y | y in Elems(found)
          ensures y in ativados
        {
          assert y !in novas;
        }
        MAtivDone(n, m, ativados, Elems(found));
        break;
      }
      forall c | Closed(n, m, c)
        ensures ativados + novas <= c
      {
        ActivesClosed(n, m, ativados, c);
      }
      ProducedUnion(n, ativados, novas);
      ativos := AddProducts(n, ativos, novas);
      ativados := ativados + novas;
    }
    r := SortedList(ativos);
    forall s | m <= s && ProductClosed(n, s)
      ensures ativos <= s
    {
      LeastProducts(n, m, ativados, s);
    }
  }

  /** A set closed from `m` that holds the reactions activated so far is
      also closed from what they make available. */
  lemma ActivesClosed(n: Network, m: set<string>, a: set<string>, c: set<string>)
    requires Closed(n, m, c) && a <= c
    ensures Closed(n, m + Produced(n, a), c)
  {
    ProducedMono(n, a, c);
    forall x | Enabled(n, x, m + Produced(n, a) + Produced(n, c))
      ensures x in c
    {
      EnabledMono(n, x, m + Produced(n, a) + Produced(n, c), m + Produced(n, c));
    }
  }

  /** When `r_ativ` of the available metabolites brings nothing new, the
      reactions activated so far are the least closed set, and the
      available metabolites are closed under products. */
  lemma MAtivDone(n: Network, m: set<string>, a: set<string>, found: set<string>)
    requires a <= n.reactions.Keys && forall c :: Closed(n, m, c) ==> a <= c
    requires LeastClosed(n, m + Produced(n, a), found) && found <= a
    ensures LeastClosed(n, m, a) && ProductClosed(n, m + Produced(n, a))
    ensures forall b :: LeastClosed(n, m, b) ==> b == a
  {
    forall x | Enabled(n, x, m + Produced(n, a))
      ensures x in a
    {
      EnabledMono(n, x, m + Produced(n, a), m + Produced(n, a) + Produced(n, found));
    }
    forall x | Enabled(n, x, m + Produced(n, a))
      ensures Elems(n.reactions[x].prod) <= m + Produced(n, a)
    {
      ProducedMember(n, a, x);
      forall p | p in n.reactions[x].prod
        ensures p in Produced(n, a)
      {
        ProducedMember(n, a, p);
      }
    }
  }
}
