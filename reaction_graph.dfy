/** The `ReactionGraph` built from reaction lines: a `MyGraph` whose
    vertices are reactions and metabolites, with an edge from every
    reactant to its reaction and from every reaction to its products. */
module ReactionGraphs {
  import opened Optional
  import opened GraphModel
  import opened Graphs
  import opened ReactionParse

  /** The graph grows: the vertices keep their order and every list only
      gains entries at its end. */
  ghost predicate Grows(g: Graph, r: Graph)
  {
    g.nodes <= r.nodes && forall v :: v in g.adj ==> v in r.adj && g.adj[v] <= r.adj[v]
  }

  /** The edges `add_reaction(reaction, reactants, products, reversible)`
      is meant to add. */
  ghost predicate Intended(reaction: string, reactants: seq<string>, products: seq<string>, reversible: bool, x: string, y: string)
  {
    (x in reactants && y == reaction) || (x == reaction && y in products)
    || (reversible && ((x == reaction && y in reactants) || (x in products && y == reaction)))
  }

  /** One round of the loop over the reactants. */
  function ReactantStep(g: Graph, reaction: string, m: string, reversible: bool): Graph
  {
    var g1 := AddEdge(AddVertex(g, m), m, reaction, "bin");
    if reversible then AddEdge(g1, reaction, m, "bin") else g1
  }

  /** One round of the loop over the products. */
  function ProductStep(g: Graph, reaction: string, m: string, reversible: bool): Graph
  {
    var g1 := AddEdge(AddVertex(g, m), reaction, m, "bin");
    if reversible then AddEdge(g1, m, reaction, "bin") else g1
  }

  /** The loop over the reactants `ms`, in order. */
  function ReactantEdges(g: Graph, reaction: string, ms: seq<string>, reversible: bool): Graph
    decreases |ms|
  {
    if |ms| == 0 then g
    else ReactantStep(ReactantEdges(g, reaction, ms[..|ms| - 1], reversible), reaction, ms[|ms| - 1], reversible)
  }

  /** The loop over the products `ms`, in order. */
  function ProductEdges(g: Graph, reaction: string, ms: seq<string>, reversible: bool): Graph
    decreases |ms|
  {
    if |ms| == 0 then g
    else ProductStep(ProductEdges(g, reaction, ms[..|ms| - 1], reversible), reaction, ms[|ms| - 1], reversible)
  }

  /** `add_reaction(reaction, reactants, products, reversible)`. */
  function AddReactionG(g: Graph, reaction: string, reactants: seq<string>, products: seq<string>, reversible: bool): Graph
  {
    ProductEdges(ReactantEdges(AddVertex(g, reaction), reaction, reactants, reversible), reaction, products, reversible)
  }

  lemma AddVertexArcs(g: Graph, v: string)
    ensures forall x, y :: Arc(AddVertex(g, v), x, y) <==> Arc(g, x, y)
    ensures Grows(g, AddVertex(g, v))
  {
  }

  /** Adding an edge labelled 'bin' adds exactly that arc, and its
      endpoints. */
  lemma AddBinArcs(g: Graph, o: string, d: string)
    ensures var r := AddEdge(g, o, d, "bin");
      (forall v :: v in r.adj <==> v in g.adj || v == o || v == d)
      && (forall x, y :: Arc(r, x, y) <==> Arc(g, x, y) || (x == o && y == d))
      && Grows(g, r)
  {
    var g1 := AddVertex(AddVertex(g, o), d);
    AddVertexArcs(g, o);
    AddVertexArcs(AddVertex(g, o), d);
    var r := AddEdge(g, o, d, "bin");
    assert Vertex(d) in r.adj[o];
    forall x, y | Arc(r, x, y)
      ensures Arc(g1, x, y) || (x == o && y == d)
    {
      if x == o && Vertex(y) !in g1.adj[o] {
        assert Vertex(y) in r.adj[o];
        assert r.adj[o] == g1.adj[o] + [r.adj[o][|r.adj[o]| - 1]];
      }
    }
  }

  lemma ReactantStepSpec(g: Graph, reaction: string, m: string, reversible: bool)
    ensures var r := ReactantStep(g, reaction, m, reversible);
      (forall v :: v in r.adj <==> v in g.adj || v == reaction || v == m)
      && (forall x, y :: Arc(r, x, y) <==> Arc(g, x, y) || (x == m && y == reaction) || (reversible && x == reaction && y == m))
      && Grows(g, r)
  {
    AddVertexArcs(g, m);
    var g1 := AddEdge(AddVertex(g, m), m, reaction, "bin");
    AddBinArcs(AddVertex(g, m), m, reaction);
    if reversible {
      AddBinArcs(g1, reaction, m);
    }
  }

  lemma ProductStepSpec(g: Graph, reaction: string, m: string, reversible: bool)
    ensures var r := ProductStep(g, reaction, m, reversible);
      (forall v :: v in r.adj <==> v in g.adj || v == reaction || v == m)
      && (forall x, y :: Arc(r, x, y) <==> Arc(g, x, y) || (x == reaction && y == m) || (reversible && x == m && y == reaction))
      && Grows(g, r)
  {
    AddVertexArcs(g, m);
    var g1 := AddEdge(AddVertex(g, m), reaction, m, "bin");
    AddBinArcs(AddVertex(g, m), reaction, m);
    if reversible {
      AddBinArcs(g1, m, reaction);
    }
  }

  lemma GrowsTrans(a: Graph, b: Graph, c: Graph)
    requires Grows(a, b) && Grows(b, c)
    ensures Grows(a, c)
  {
    forall v | v in a.adj
      ensures v in c.adj && a.adj[v] <= c.adj[v]
    {
      assert a.adj[v] <= b.adj[v] <= c.adj[v];
    }
  }

  lemma StepWellFormed(g: Graph, reaction: string, m: string, reversible: bool)
    requires WellFormed(g)
    ensures WellFormed(ReactantStep(g, reaction, m, reversible)) && WellFormed(ProductStep(g, reaction, m, reversible))
  {
    AddVertexWellFormed(g, m);
    AddEdgeWellFormed(AddVertex(g, m), m, reaction, "bin");
    AddEdgeWellFormed(AddEdge(AddVertex(g, m), m, reaction, "bin"), reaction, m, "bin");
    AddEdgeWellFormed(AddVertex(g, m), reaction, m, "bin");
    AddEdgeWellFormed(AddEdge(AddVertex(g, m), reaction, m, "bin"), m, reaction, "bin");
  }

  /** The loop over the reactants adds them as vertices, and adds
      exactly the edges from each of them to the reaction and, for a
      reversible reaction, back. */
  lemma {:induction false} ReactantEdgesSpec(g: Graph, reaction: string, ms: seq<string>, reversible: bool)
    requires reaction in g.adj
    ensures var r := ReactantEdges(g, reaction, ms, reversible);
      (WellFormed(g) ==> WellFormed(r))
      && (forall v :: v in r.adj <==> v in g.adj || v in ms)
      && (forall x, y :: Arc(r, x, y) <==> Arc(g, x, y) || (x in ms && y == reaction) || (reversible && x == reaction && y in ms))
      && Grows(g, r)
    decreases |ms|
  {
    if |ms| > 0 {
      var ms' := ms[..|ms| - 1];
      var m := ms[|ms| - 1];
      assert ms == ms' + [m];
      var g1 := ReactantEdges(g, reaction, ms', reversible);
      assert ReactantEdges(g, reaction, ms, reversible) == ReactantStep(g1, reaction, m, reversible);
      assert forall x :: x in ms <==> x in ms' || x == m;
      ReactantEdgesSpec(g, reaction, ms', reversible);
      ReactantStepSpec(g1, reaction, m, reversible);
      if WellFormed(g) {
        StepWellFormed(g1, reaction, m, reversible);
      }
      GrowsTrans(g, g1, ReactantStep(g1, reaction, m, reversible));
    }
  }

  /** The loop over the products adds them as vertices, and adds exactly
      the edges from the reaction to each of them and, for a reversible
      reaction, back. */
  lemma {:induction false} ProductEdgesSpec(g: Graph, reaction: string, ms: seq<string>, reversible: bool)
    requires reaction in g.adj
    ensures var r := ProductEdges(g, reaction, ms, reversible);
      (WellFormed(g) ==> WellFormed(r))
      && (forall v :: v in r.adj <==> v in g.adj || v in ms)
      && (forall x, y :: Arc(r, x, y) <==> Arc(g, x, y) || (x == reaction && y in ms) || (reversible && x in ms && y == reaction))
      && Grows(g, r)
    decreases |ms|
  {
    if |ms| > 0 {
      var ms' := ms[..|ms| - 1];
      var m := ms[|ms| - 1];
      assert ms == ms' + [m];
      var g1 := ProductEdges(g, reaction, ms', reversible);
      assert ProductEdges(g, reaction, ms, reversible) == ProductStep(g1, reaction, m, reversible);
      assert forall x :: x in ms <==> x in ms' || x == m;
      ProductEdgesSpec(g, reaction, ms', reversible);
      ProductStepSpec(g1, reaction, m, reversible);
      if WellFormed(g) {
        StepWellFormed(g1, reaction, m, reversible);
      }
      GrowsTrans(g, g1, ProductStep(g1, reaction, m, reversible));
    }
  }

  /** `add_reaction` keeps the graph well formed and only appends to it;
      its vertices are the old ones, the reaction and its metabolites;
      and the edges it adds are exactly the intended ones. */
  lemma AddReactionSpec(g: Graph, reaction: string, reactants: seq<string>, products: seq<string>, reversible: bool)
    ensures var r := AddReactionG(g, reaction, reactants, products, reversible);
      (WellFormed(g) ==> WellFormed(r))
      && (forall v :: v in r.adj <==> v in g.adj || v == reaction || v in reactants || v in products)
      && (forall x, y :: Arc(r, x, y) <==> Arc(g, x, y) || Intended(reaction, reactants, products, reversible, x, y))
      && Grows(g, r)
  {
    var g0 := AddVertex(g, reaction);
    var g1 := ReactantEdges(g0, reaction, reactants, reversible);
    AddVertexArcs(g, reaction);
    if WellFormed(g) {
      AddVertexWellFormed(g, reaction);
    }
    ReactantEdgesSpec(g0, reaction, reactants, reversible);
    ProductEdgesSpec(g1, reaction, products, reversible);
    GrowsTrans(g, g0, g1);
    GrowsTrans(g, g1, AddReactionG(g, reaction, reactants, products, reversible));
  }

  /** `add_reaction(reaction, reactants, products, reversible)` on the
      graph `g`. */
  method AddReaction(g: MyGraph, reaction: string, reactants: seq<string>, products: seq<string>, reversible: bool)
    requires g.Valid()
    modifies g
    ensures g.Valid() && g.State() == AddReactionG(old(g.State()), reaction, reactants, products, reversible)
  {
    g.AddVertexTo(reaction);
    AddReactants(g, reaction, reactants, reversible);
    AddProducts(g, reaction, products, reversible);
  }

  /** The loop over the reactants of `add_reaction`. */
  method AddReactants(g: MyGraph, reaction: string, reactants: seq<string>, reversible: bool)
    requires g.Valid()
    modifies g
    ensures g.Valid() && g.State() == ReactantEdges(old(g.State()), reaction, reactants, reversible)
  {
    ghost var g0 := g.State();
    for i := 0 to |reactants|
      invariant g.Valid() && g.State() == ReactantEdges(g0, reaction, reactants[..i], reversible)
    {
      assert reactants[..i + 1][..i] == reactants[..i];
      var metabolite := reactants[i];
      g.AddVertexTo(metabolite);
      g.AddEdgeTo(metabolite, reaction, "bin");
      if reversible {
        g.AddEdgeTo(reaction, metabolite, "bin");
      }
    }
    assert reactants[..|reactants|] == reactants;
  }

  /** The loop over the products of `add_reaction`. */
  method AddProducts(g: MyGraph, reaction: string, products: seq<string>, reversible: bool)
    requires g.Valid()
    modifies g
    ensures g.Valid() && g.State() == ProductEdges(old(g.State()), reaction, products, reversible)
  {
    ghost var g0 := g.State();
    for i := 0 to |products|
      invariant g.Valid() && g.State() == ProductEdges(g0, reaction, products[..i], reversible)
    {
      assert products[..i + 1][..i] == products[..i];
      var metabolite := products[i];
      g.AddVertexTo(metabolite);
      g.AddEdgeTo(reaction, metabolite, "bin");
      if reversible {
        g.AddEdgeTo(metabolite, reaction, "bin");
      }
    }
    assert products[..|products|] == products;
  }

  /** What one matched line adds: with `split_reactions`, a reversible
      reaction becomes `name_f` from the reactants to the products and
      `name_b` back, both irreversible; otherwise one reaction. */
  function AddRead(g: Graph, x: Reaction, split: bool): Graph
  {
    if split && x.reversible then
      AddReactionG(AddReactionG(g, x.name + "_f", x.reactants, x.products, false), x.name + "_b", x.products, x.reactants, false)
    else AddReactionG(g, x.name, x.reactants, x.products, x.reversible)
  }

  /** One round of the loop of `parse_reactions`: a line that did not
      match leaves the graph alone. */
  function Apply(g: Graph, m: Option<Reaction>, split: bool): Graph
  {
    match m
    case None => g
    case Some(x) => AddRead(g, x, split)
  }

  /** The loop of `parse_reactions` over the lines read as `ms`, in
      order. */
  function ApplyAll(g: Graph, ms: seq<Option<Reaction>>, split: bool): Graph
    decreases |ms|
  {
    if |ms| == 0 then g
    else Apply(ApplyAll(g, ms[..|ms| - 1], split), ms[|ms| - 1], split)
  }

  /** `parse_reactions(reactions, split_reactions)` on the graph `g`. */
  method ParseReactions(g: MyGraph, reactions: string, split: bool)
    requires g.Valid()
    modifies g
    ensures g.Valid() && g.State() == ApplyAll(old(g.State()), ReadLines(SplitLines(reactions)), split)
  {
    ghost var g0 := g.State();
    var lines := SplitLines(reactions);
    ghost var ms := ReadLines(lines);
    for i := 0 to |lines|
      invariant g.Valid() && g.State() == ApplyAll(g0, ms[..i], split)
    {
      assert ms[..i + 1][..i] == ms[..i];
      var m := ReadLine(lines[i]);
      assert m == ms[i];
      if m.Some? {
        var x := m.value;
        if split && x.reversible {
          AddReaction(g, x.name + "_f", x.reactants, x.products, false);
          AddReaction(g, x.name + "_b", x.products, x.reactants, false);
        } else {
          AddReaction(g, x.name, x.reactants, x.products, x.reversible);
        }
      }
    }
    assert ms[..|lines|] == ms;
  }

  /** `ReactionGraph(reactions)`: an empty graph, filled from the text
      when one is given and it is not empty. */
  method NewReactionGraph(reactions: Option<string>) returns (g: MyGraph)
    ensures fresh(g) && g.Valid()
    ensures g.State() == if reactions.Some? then ApplyAll(EmptyGraph, ReadLines(SplitLines(reactions.value)), false) else EmptyGraph
  {
    g := new MyGraph();
    if reactions.Some? && |reactions.value| > 0 {
      ParseReactions(g, reactions.value, false);
    }
  }

  /** The edges one matched line is meant to add. */
  ghost predicate EffectArc(x: Reaction, split: bool, a: string, b: string)
  {
    if split && x.reversible then
      Intended(x.name + "_f", x.reactants, x.products, false, a, b) || Intended(x.name + "_b", x.products, x.reactants, false, a, b)
    else Intended(x.name, x.reactants, x.products, x.reversible, a, b)
  }

  /** The vertices one matched line is meant to add. */
  ghost predicate EffectVertex(x: Reaction, split: bool, v: string)
  {
    (if split && x.reversible then v == x.name + "_f" || v == x.name + "_b" else v == x.name)
    || v in x.reactants || v in x.products
  }

  /** What one matched line adds is the intended reaction, or the two
      halves of a split one, and nothing else. */
  lemma AddReadSpec(g: Graph, x: Reaction, split: bool)
    ensures var r := AddRead(g, x, split);
      (WellFormed(g) ==> WellFormed(r))
      && (forall v :: v in r.adj <==> v in g.adj || EffectVertex(x, split, v))
      && (forall a, b :: Arc(r, a, b) <==> Arc(g, a, b) || EffectArc(x, split, a, b))
      && Grows(g, r)
  {
    if split && x.reversible {
      var g1 := AddReactionG(g, x.name + "_f", x.reactants, x.products, false);
      AddReactionSpec(g, x.name + "_f", x.reactants, x.products, false);
      AddReactionSpec(g1, x.name + "_b", x.products, x.reactants, false);
      GrowsTrans(g, g1, AddRead(g, x, split));
    } else {
      AddReactionSpec(g, x.name, x.reactants, x.products, x.reversible);
    }
  }

  lemma ApplyGrows(g: Graph, m: Option<Reaction>, split: bool)
    ensures var r := Apply(g, m, split);
      (WellFormed(g) ==> WellFormed(r)) && Grows(g, r)
  {
    if m.Some? {
      AddReadSpec(g, m.value, split);
    }
  }

  /** `parse_reactions` keeps the graph well formed and only appends to
      it. */
  lemma {:induction false} ApplyAllGrows(g: Graph, ms: seq<Option<Reaction>>, split: bool)
    ensures var r := ApplyAll(g, ms, split);
      (WellFormed(g) ==> WellFormed(r)) && Grows(g, r)
    decreases |ms|
  {
    if |ms| > 0 {
      var n := |ms| - 1;
      var g1 := ApplyAll(g, ms[..n], split);
      ApplyAllGrows(g, ms[..n], split);
      ApplyGrows(g1, ms[n], split);
      GrowsTrans(g, g1, ApplyAll(g, ms, split));
    }
  }

  /** Some line read as `ms` is meant to add the vertex `v`. */
  ghost predicate ReadVertex(ms: seq<Option<Reaction>>, split: bool, v: string)
  {
    exists k :: 0 <= k < |ms| && ms[k].Some? && EffectVertex(ms[k].value, split, v)
  }

  /** Some line read as `ms` is meant to add the edge `a -> b`. */
  ghost predicate ReadArc(ms: seq<Option<Reaction>>, split: bool, a: string, b: string)
  {
    exists k :: 0 <= k < |ms| && ms[k].Some? && EffectArc(ms[k].value, split, a, b)
  }

  lemma ReadVertexSnoc(ms: seq<Option<Reaction>>, split: bool, v: string)
    requires |ms| > 0
    ensures var n := |ms| - 1;
      ReadVertex(ms, split, v) <==> ReadVertex(ms[..n], split, v) || (ms[n].Some? && EffectVertex(ms[n].value, split, v))
  {
    var n := |ms| - 1;
    if ReadVertex(ms, split, v) {
      var k :| 0 <= k < |ms| && ms[k].Some? && EffectVertex(ms[k].value, split, v);
      if k < n {
        assert ms[..n][k] == ms[k];
      }
    }
    if ReadVertex(ms[..n], split, v) {
      var k :| 0 <= k < n && ms[..n][k].Some? && EffectVertex(ms[..n][k].value, split, v);
      assert ms[k] == ms[..n][k];
    }
  }

  lemma ReadArcSnoc(ms: seq<Option<Reaction>>, split: bool, a: string, b: string)
    requires |ms| > 0
    ensures var n := |ms| - 1;
      ReadArc(ms, split, a, b) <==> ReadArc(ms[..n], split, a, b) || (ms[n].Some? && EffectArc(ms[n].value, split, a, b))
  {
    var n := |ms| - 1;
    if ReadArc(ms, split, a, b) {
      var k :| 0 <= k < |ms| && ms[k].Some? && EffectArc(ms[k].value, split, a, b);
      if k < n {
        assert ms[..n][k] == ms[k];
      }
    }
    if ReadArc(ms[..n], split, a, b) {
      var k :| 0 <= k < n && ms[..n][k].Some? && EffectArc(ms[..n][k].value, split, a, b);
      assert ms[k] == ms[..n][k];
    }
  }

  /** The vertices `parse_reactions` adds are exactly those its matched
      lines name. */
  lemma {:induction false} ApplyAllVertices(g: Graph, ms: seq<Option<Reaction>>, split: bool)
    ensures var r := ApplyAll(g, ms, split);
      forall v :: v in r.adj <==> v in g.adj || ReadVertex(ms, split, v)
    decreases |ms|
  {
    if |ms| > 0 {
      var n := |ms| - 1;
      var g1 := ApplyAll(g, ms[..n], split);
      ApplyAllVertices(g, ms[..n], split);
      if ms[n].Some? {
        AddReadSpec(g1, ms[n].value, split);
      }
      forall v {
        ReadVertexSnoc(ms, split, v);
      }
    }
  }

  /** The edges `parse_reactions` adds are exactly those its matched
      lines are meant to add. */
  lemma {:induction false} ApplyAllArcs(g: Graph, ms: seq<Option<Reaction>>, split: bool)
    ensures var r := ApplyAll(g, ms, split);
      forall a, b :: Arc(r, a, b) <==> Arc(g, a, b) || ReadArc(ms, split, a, b)
    decreases |ms|
  {
    if |ms| > 0 {
      var n := |ms| - 1;
      var g1 := ApplyAll(g, ms[..n], split);
      ApplyAllArcs(g, ms[..n], split);
      if ms[n].Some? {
        AddReadSpec(g1, ms[n].value, split);
      }
      forall a, b {
        ReadArcSnoc(ms, split, a, b);
      }
    }
  }

  /** Parsing a text written for some reactions adds exactly their
      vertices and edges: each reactant feeds its reaction, each reaction
      feeds its products, with the edges back for a reversible one or
      the two halves when reversible reactions are split. */
  lemma ParseWritten(g: Graph, xs: seq<Reaction>, split: bool)
    requires forall k :: 0 <= k < |xs| ==> Writable(xs[k])
    ensures var r := ApplyAll(g, ReadLines(SplitLines(WriteLines(xs))), split);
      (WellFormed(g) ==> WellFormed(r)) && Grows(g, r)
      && (forall v :: v in r.adj <==> v in g.adj || exists k :: 0 <= k < |xs| && EffectVertex(xs[k], split, v))
      && (forall a, b :: Arc(r, a, b) <==> Arc(g, a, b) || exists k :: 0 <= k < |xs| && EffectArc(xs[k], split, a, b))
  {
    ReadWriteLines(xs);
    ApplySomes(g, ReadLines(SplitLines(WriteLines(xs))), xs, split);
  }

  /** Applying lines that all matched, as the reactions `xs`. */
  lemma ApplySomes(g: Graph, ms: seq<Option<Reaction>>, xs: seq<Reaction>, split: bool)
    requires |ms| == |xs| && forall k :: 0 <= k < |xs| ==> ms[k] == Some(xs[k])
    ensures var r := ApplyAll(g, ms, split);
      (WellFormed(g) ==> WellFormed(r)) && Grows(g, r)
      && (forall v :: v in r.adj <==> v in g.adj || exists k :: 0 <= k < |xs| && EffectVertex(xs[k], split, v))
      && (forall a, b :: Arc(r, a, b) <==> Arc(g, a, b) || exists k :: 0 <= k < |xs| && EffectArc(xs[k], split, a, b))
  {
    ApplyAllGrows(g, ms, split);
    ApplyAllVertices(g, ms, split);
    ApplyAllArcs(g, ms, split);
    forall v | ReadVertex(ms, split, v)
      ensures exists k :: 0 <= k < |xs| && EffectVertex(xs[k], split, v)
    {
      var k :| 0 <= k < |ms| && ms[k].Some? && EffectVertex(ms[k].value, split, v);
      assert EffectVertex(xs[k], split, v);
    }
    forall v | exists k :: 0 <= k < |xs| && EffectVertex(xs[k], split, v)
      ensures ReadVertex(ms, split, v)
    {
      var k :| 0 <= k < |xs| && EffectVertex(xs[k], split, v);
      assert ms[k].Some? && EffectVertex(ms[k].value, split, v);
    }
    forall a, b | ReadArc(ms, split, a, b)
      ensures exists k :: 0 <= k < |xs| && EffectArc(xs[k], split, a, b)
    {
      var k :| 0 <= k < |ms| && ms[k].Some? && EffectArc(ms[k].value, split, a, b);
      assert EffectArc(xs[k], split, a, b);
    }
    forall a, b | exists k :: 0 <= k < |xs| && EffectArc(xs[k], split, a, b)
      ensures ReadArc(ms, split, a, b)
    {
      var k :| 0 <= k < |xs| && EffectArc(xs[k], split, a, b);
      assert ms[k].Some? && EffectArc(ms[k].value, split, a, b);
    }
  }
}
