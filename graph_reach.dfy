/** The search of `reachable_with_dist`: a breadth-first search whose
    queue and result pair each vertex with a distance. Read through
    their first components it is the search of `reachable_bfs` without
    the skip of `node` itself. Like the search of `distance` its queue
    is layered, so every recorded distance is the length of the shortest
    walk. */
module GraphReach {
  import opened SeqFacts
  import opened GraphModel
  import opened GraphSearch
  import opened GraphDistance

  /** Every pair records the length of a walk from `s` to its vertex. */
  ghost predicate DistsOk(g: Graph, s: string, l: seq<(string, nat)>)
  {
    forall i :: 0 <= i < |l| ==> WalkOfLen(g, s, l[i].0, l[i].1)
  }

  ghost predicate ReachInv(g: Graph, s: string, res: seq<(string, nat)>, l: seq<(string, nat)>, started: bool)
  {
    SearchInv(g, s, Firsts(res), Firsts(l), started) && DistsOk(g, s, res) && DistsOk(g, s, l)
  }

  /** `is_in_tuple_list` asks whether `val` is among the first
      components. */
  lemma InTupleListFirsts<L>(tl: seq<(string, L)>, val: string)
    ensures InTupleList(tl, val) <==> val in Firsts(tl)
  {
    if val in Firsts(tl) {
      var i :| 0 <= i < |tl| && Firsts(tl)[i] == val;
      assert tl[i].0 == val;
    }
  }

  lemma FirstsSnoc(res: seq<(string, nat)>, x: string, n: nat)
    ensures Firsts(res + [(x, n)]) == Firsts(res) + [x]
  {
  }

  /** Taking the head off the queue, and recording it unless it is `s`. */
  lemma ReachPop(g: Graph, s: string, res: seq<(string, nat)>, l: seq<(string, nat)>, started: bool)
    requires ReachInv(g, s, res, l, started) && |l| > 0
    ensures var node := l[0].0;
      var res' := if node != s then res + [l[0]] else res;
      var expanded := if started then (set x | x in Firsts(res)) + {s} else {};
      node in g.adj && node !in Firsts(res)
      && SearchMid(g, s, Firsts(res'), Firsts(l[1..]), expanded, node)
      && (set x | x in Firsts(res')) + {s} == expanded + {node}
      && DistsOk(g, s, res') && DistsOk(g, s, l[1..]) && WalkOfLen(g, s, node, l[0].1)
  {
    assert Firsts(l[1..]) == Firsts(l)[1..];
    assert res + [l[0]] == res + [(l[0].0, l[0].1)];
    FirstsSnoc(res, l[0].0, l[0].1);
    SearchPop(g, s, Firsts(res), Firsts(l), started);
    var t := l[1..];
    forall i | 0 <= i < |t|
      ensures WalkOfLen(g, s, t[i].0, t[i].1)
    {
      assert t[i] == l[i + 1];
    }
  }

  /** The vertices queued one edge beyond `node` carry walk lengths. */
  lemma DistsQueued(g: Graph, s: string, l: seq<(string, nat)>, node: string, n: nat, f: seq<string>)
    requires DistsOk(g, s, l) && WalkOfLen(g, s, node, n)
    requires forall x :: x in f ==> Arc(g, node, x)
    ensures DistsOk(g, s, l + Tagged<nat>(f, n + 1))
  {
    var l' := l + Tagged<nat>(f, n + 1);
    forall i | 0 <= i < |l'|
      ensures WalkOfLen(g, s, l'[i].0, l'[i].1)
    {
      if i < |l| {
        assert l'[i] == l[i];
      } else {
        assert l'[i] == (f[i - |l|], n + 1);
        WalkExtend(g, s, node, n, f[i - |l|]);
      }
    }
  }

  /** After the entries of `node` are queued one edge further, the
      invariant holds again; a second expansion of `s` queues nothing. */
  lemma ReachStepDist(g: Graph, s: string, res: seq<(string, nat)>, l: seq<(string, nat)>, expanded: set<string>,
                      node: string, n: nat)
    requires WellFormed(g) && Simple(g) && SearchMid(g, s, Firsts(res), Firsts(l), expanded, node)
    requires (set x | x in Firsts(res)) + {s} == expanded + {node} && !Arc(g, s, s)
    requires DistsOk(g, s, res) && DistsOk(g, s, l) && WalkOfLen(g, s, node, n)
    ensures var f := Fresh(Firsts(l), Firsts(res), node, g.adj[node], false);
      ReachInv(g, s, res, l + Tagged<nat>(f, n + 1), true) && (s in expanded && node == s ==> f == [])
  {
    var f := Fresh(Firsts(l), Firsts(res), node, g.adj[node], false);
    SearchExpand(g, s, Firsts(res), Firsts(l), expanded, node, false);
    FirstsTagged<nat>(l, f, n + 1);
    FreshArcs(g, s, Firsts(res), Firsts(l), node, false);
    DistsQueued(g, s, l, node, n, f);
  }

  /** The shortest-walk half of the invariant: recorded pairs, and queued
      pairs other than a re-queued `s`, carry the length of the shortest
      walk from `s`; the queue is layered; and every vertex closer than
      its head is expanded, the expanded vertices being `s` and the
      recorded ones. */
  ghost predicate ReachLayers(g: Graph, s: string, res: seq<(string, nat)>, l: seq<(string, nat)>, started: bool)
  {
    (forall i :: 0 <= i < |res| ==> MinWalk(g, s, res[i].0, res[i].1))
    && (forall i :: 0 <= i < |l| && l[i].0 != s ==> MinWalk(g, s, l[i].0, l[i].1))
    && Layered(l)
    && (!started ==> l == [(s, 0)])
    && (started && |l| > 0 ==> Below(g, s, l[0].1, (set x | x in Firsts(res)) + {s}))
  }

  /** A successor of a vertex `n` edges from `s` that is not `s` and was
      not seen when every vertex closer than `n` had its successors seen
      is exactly `n + 1` edges from `s`. */
  lemma OneFurther(g: Graph, s: string, node: string, n: nat, expanded: set<string>, seen: set<string>, x: string)
    requires WalkOfLen(g, s, node, n) && Arc(g, node, x) && x != s && x !in seen
    requires Below(g, s, n, expanded) && Expanded(g, expanded, seen)
    ensures MinWalk(g, s, x, n + 1)
  {
    WalkExtend(g, s, node, n, x);
    forall j: nat | j < n + 1
      ensures !WalkOfLen(g, s, x, j)
    {
      WalkNil(g, s, x);
      WalkBack(g, s, x, j);
    }
  }

  /** A vertex other than `s` queued beyond `n` is not `n` edges from
      `s`. */
  lemma QueuedBeyond(g: Graph, s: string, l: seq<(string, nat)>, x: string, n: nat)
    requires forall i :: 0 <= i < |l| ==> n + 1 <= l[i].1 && (l[i].0 != s ==> MinWalk(g, s, l[i].0, l[i].1))
    ensures x in Firsts(l) && x != s ==> !WalkOfLen(g, s, x, n)
  {
    forall i | 0 <= i < |l|
      ensures l[i].0 == x && x != s ==> !WalkOfLen(g, s, x, n)
    {
    }
  }

  /** Once the queue lies wholly one layer beyond `n`, every vertex at
      most `n` edges from `s` is done: a vertex exactly `n` edges away
      follows an expanded vertex, so it was seen, and it cannot still be
      queued. */
  lemma ReachBelow(g: Graph, s: string, l: seq<(string, nat)>, seen: set<string>, expanded: set<string>,
                   done: set<string>, n: nat)
    requires Below(g, s, n, expanded) && Expanded(g, expanded, seen) && expanded <= done && s in done
    requires forall x :: x in seen ==> x in done || x in Firsts(l)
    requires forall i :: 0 <= i < |l| ==> n + 1 <= l[i].1 && (l[i].0 != s ==> MinWalk(g, s, l[i].0, l[i].1))
    ensures Below(g, s, n + 1, done)
  {
    forall x, j: nat | j < n + 1 && WalkOfLen(g, s, x, j)
      ensures x in done
    {
      WalkNil(g, s, x);
      WalkBack(g, s, x, j);
      QueuedBeyond(g, s, l, x, n);
    }
  }

  /** The recorded pairs after one round carry shortest distances. */
  lemma ReachRecorded(g: Graph, s: string, res: seq<(string, nat)>, l: seq<(string, nat)>, started: bool)
    requires ReachLayers(g, s, res, l, started) && |l| > 0
    ensures var res' := if l[0].0 != s then res + [l[0]] else res;
      forall i :: 0 <= i < |res'| ==> MinWalk(g, s, res'[i].0, res'[i].1)
  {
    var res' := if l[0].0 != s then res + [l[0]] else res;
    forall i | 0 <= i < |res'|
      ensures MinWalk(g, s, res'[i].0, res'[i].1)
    {
      if i < |res| {
        assert res'[i] == res[i];
      }
    }
  }

  /** The queue after one round: the entries behind the head keep their
      distances, and the new ones, none of them seen before, are one
      edge beyond the head. */
  lemma ReachQueued(g: Graph, s: string, t: seq<(string, nat)>, f: seq<string>, node: string, n: nat,
                    expanded: set<string>, seen: set<string>)
    requires forall i :: 0 <= i < |t| && t[i].0 != s ==> MinWalk(g, s, t[i].0, t[i].1)
    requires WalkOfLen(g, s, node, n) && Below(g, s, n, expanded) && Expanded(g, expanded, seen)
    requires forall x :: x in f ==> Arc(g, node, x) && x !in seen - {s}
    ensures var l' := t + Tagged<nat>(f, n + 1);
      forall i :: 0 <= i < |l'| && l'[i].0 != s ==> MinWalk(g, s, l'[i].0, l'[i].1)
  {
    var l' := t + Tagged<nat>(f, n + 1);
    forall i | 0 <= i < |l'| && l'[i].0 != s
      ensures MinWalk(g, s, l'[i].0, l'[i].1)
    {
      if i < |t| {
        assert l'[i] == t[i];
      } else {
        var x := f[i - |t|];
        assert l'[i] == (x, n + 1) && x in f;
        OneFurther(g, s, node, n, expanded, seen, x);
      }
    }
  }

  /** The round that records `res` and queues `f` one edge beyond `node`
      ends in a state meeting the shortest-walk half of the invariant. */
  lemma ReachLayerRound(g: Graph, s: string, res: seq<(string, nat)>, t: seq<(string, nat)>, node: string, n: nat,
                        expanded: set<string>, f: seq<string>)
    requires forall i :: 0 <= i < |res| ==> MinWalk(g, s, res[i].0, res[i].1)
    requires forall i :: 0 <= i < |t| && t[i].0 != s ==> MinWalk(g, s, t[i].0, t[i].1)
    requires forall i, j :: 0 <= i < j < |t| ==> t[i].1 <= t[j].1
    requires forall i :: 0 <= i < |t| ==> n <= t[i].1 <= n + 1
    requires WalkOfLen(g, s, node, n) && Below(g, s, n, expanded)
    requires Expanded(g, expanded, Seen(s, Firsts(res), Firsts(t)))
    requires expanded <= (set x | x in Firsts(res)) + {s}
    requires forall x :: x in f ==> Arc(g, node, x) && x !in Firsts(res) && x !in Firsts(t)
    ensures ReachLayers(g, s, res, t + Tagged<nat>(f, n + 1), true)
  {
    var l' := t + Tagged<nat>(f, n + 1);
    var seen := Seen(s, Firsts(res), Firsts(t));
    var done := (set x | x in Firsts(res)) + {s};
    ReachQueued(g, s, t, f, node, n, expanded, seen);
    QueueLayered(t, f, n);
    FirstsTagged<nat>(t, f, n + 1);
    assert forall x :: x in seen ==> x in done || x in Firsts(l');
    ReachHeadBelow(g, s, l', seen, expanded, done, n);
  }

  /** Every vertex closer than the head of the queue after a round is
      done, whether the head is still in layer `n` or one beyond it. */
  lemma ReachHeadBelow(g: Graph, s: string, l: seq<(string, nat)>, seen: set<string>, expanded: set<string>,
                       done: set<string>, n: nat)
    requires Below(g, s, n, expanded) && Expanded(g, expanded, seen) && expanded <= done && s in done
    requires forall x :: x in seen ==> x in done || x in Firsts(l)
    requires forall i :: 0 <= i < |l| && l[i].0 != s ==> MinWalk(g, s, l[i].0, l[i].1)
    requires Layered(l) && forall i :: 0 <= i < |l| ==> n <= l[i].1 <= n + 1
    ensures |l| > 0 ==> Below(g, s, l[0].1, done)
  {
    if |l| > 0 && l[0].1 != n {
      ReachBelow(g, s, l, seen, expanded, done, n);
    }
  }

  /** The vertices queued for `node` are its successors, neither reported
      nor known. */
  lemma FreshOut(g: Graph, s: string, res: seq<string>, known: seq<string>, node: string)
    requires WellFormed(g) && Simple(g) && node in g.adj
    ensures forall x :: x in Fresh(known, res, node, g.adj[node], false) ==> Arc(g, node, x) && x !in res && x !in known
  {
    FreshFacts(known, res, node, g.adj[node], false);
    FreshArcs(g, s, res, known, node, false);
  }

  /** One round of `reachable_with_dist` keeps the shortest-walk half of
      the invariant, given what taking the head off the queue leaves
      seen. */
  lemma ReachLayerStep(g: Graph, s: string, res: seq<(string, nat)>, l: seq<(string, nat)>, started: bool,
                       res': seq<(string, nat)>, expanded: set<string>, f: seq<string>)
    requires ReachLayers(g, s, res, l, started) && |l| > 0
    requires res' == if l[0].0 != s then res + [l[0]] else res
    requires expanded == if started then (set x | x in Firsts(res)) + {s} else {}
    requires Expanded(g, expanded, Seen(s, Firsts(res'), Firsts(l[1..]))) && WalkOfLen(g, s, l[0].0, l[0].1)
    requires expanded <= (set x | x in Firsts(res')) + {s}
    requires forall x :: x in f ==> Arc(g, l[0].0, x) && x !in Firsts(res') && x !in Firsts(l[1..])
    ensures ReachLayers(g, s, res', l[1..] + Tagged<nat>(f, l[0].1 + 1), true)
  {
    HeadBelow(g, s, res, l, started);
    ReachRecorded(g, s, res, l, started);
    PopMin(g, s, l);
    PopLayered(l);
    ReachLayerRound(g, s, res', l[1..], l[0].0, l[0].1, expanded, f);
  }

  /** Every vertex closer than the head is expanded, also before the
      first round, when the head is `s` at distance 0. */
  lemma HeadBelow(g: Graph, s: string, res: seq<(string, nat)>, l: seq<(string, nat)>, started: bool)
    requires ReachLayers(g, s, res, l, started) && |l| > 0
    ensures Below(g, s, l[0].1, if started then (set x | x in Firsts(res)) + {s} else {})
  {
  }

  /** The queued pairs behind the head keep their shortest distances. */
  lemma PopMin(g: Graph, s: string, l: seq<(string, nat)>)
    requires |l| > 0 && forall i :: 0 <= i < |l| && l[i].0 != s ==> MinWalk(g, s, l[i].0, l[i].1)
    ensures var t := l[1..]; forall i :: 0 <= i < |t| && t[i].0 != s ==> MinWalk(g, s, t[i].0, t[i].1)
  {
    var t := l[1..];
    forall i | 0 <= i < |t| && t[i].0 != s
      ensures MinWalk(g, s, t[i].0, t[i].1)
    {
      assert t[i] == l[i + 1];
    }
  }

  /** One round of `reachable_with_dist`: both halves of the invariant
      are kept, and either a vertex is reported or, once the search has
      started, the start vertex is taken off the queue and nothing is
      queued for it. */
  lemma ReachRound(g: Graph, s: string, res: seq<(string, nat)>, l: seq<(string, nat)>, started: bool)
    requires WellFormed(g) && Simple(g) && !Arc(g, s, s)
    requires ReachInv(g, s, res, l, started) && ReachLayers(g, s, res, l, started) && |l| > 0
    ensures var node, n := l[0].0, l[0].1;
      var res' := if node != s then res + [l[0]] else res;
      var f := Fresh(Firsts(l[1..]), Firsts(res'), node, g.adj[node], false);
      var l' := l[1..] + Tagged<nat>(f, n + 1);
      node in g.adj && ReachInv(g, s, res', l', true) && ReachLayers(g, s, res', l', true)
      && (node != s ==> g.adj.Keys - (set x | x in Firsts(res')) < g.adj.Keys - (set x | x in Firsts(res)))
      && (started && node == s ==> f == [])
  {
    var node, n := l[0].0, l[0].1;
    var res' := if node != s then res + [l[0]] else res;
    var t := l[1..];
    var expanded := if started then (set x | x in Firsts(res)) + {s} else {};
    ReachPop(g, s, res, l, started);
    ReachStepDist(g, s, res', t, expanded, node, n);
    FreshOut(g, s, Firsts(res'), Firsts(t), node);
    ReachLayerStep(g, s, res, l, started, res', expanded, Fresh(Firsts(t), Firsts(res'), node, g.adj[node], false));
    if node != s {
      FirstsSnoc(res, node, n);
      ReportShrinks(g.adj.Keys, Firsts(res), node);
    }
  }

  lemma ReachDistDone(g: Graph, s: string, res: seq<(string, nat)>, l: seq<(string, nat)>)
    requires ReachInv(g, s, res, l, true) && |l| == 0
    ensures forall x :: x in Firsts(res) <==> x != s && Reachable1(g, s, x)
  {
    assert Firsts(l) == [];
    SearchDone(g, s, Firsts(res));
  }
}
