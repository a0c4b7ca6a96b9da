/** The `Trees` class: a word trie kept as nested dictionaries. Every node
    is a dictionary whose letter keys lead to child nodes and whose key '$'
    (value 0) marks the end of a stored word. */
module WordTrie {
  import opened Optional

  /** A node: `children` holds the letter keys and `end` says whether the
      key '$' is present. */
  datatype Trie = Node(children: map<char, Trie>, end: bool)

  /** The empty dictionary `{}`. */
  const Empty: Trie := Node(map[], false)

  /** No node has a letter key '$', so the '$' key and the `end` flag
      coincide. */
  predicate Clean(t: Trie)
  {
    '$' !in t.children && forall c :: c in t.children ==> Clean(t.children[c])
  }

  /** The node reached from `t` by the letters `w[i..]`, if the path exists. */
  function Reach(t: Trie, w: string, i: nat): Option<Trie>
    requires i <= |w|
    decreases |w| - i
  {
    if i == |w| then Some(t)
    else if w[i] in t.children then Reach(t.children[w[i]], w, i + 1)
    else None
  }

  /** Whether `w[i..]` is stored below `t`: the path exists and ends at a
      node holding '$'. */
  predicate Found(t: Trie, w: string, i: nat)
    requires i <= |w|
  {
    Reach(t, w, i).Some? && Reach(t, w, i).value.end
  }

  /** Whether `w` is a stored word. */
  predicate Contains(t: Trie, w: string)
  {
    Found(t, w, 0)
  }

  /** `inserir` for one word from letter `i` on: missing children are
      created as `{}`, existing ones are descended into, and the last node
      gets '$'. */
  function Insert(t: Trie, w: string, i: nat): (r: Trie)
    requires i <= |w|
    decreases |w| - i
  {
    if i == |w| then Node(t.children, true)
    else
      var child := if w[i] in t.children then t.children[w[i]] else Empty;
      Node(t.children[w[i] := Insert(child, w, i + 1)], t.end)
  }

  /** The words of `ws` inserted in order. */
  function InsertAll(t: Trie, ws: seq<string>): Trie
  {
    if ws == [] then t else Insert(InsertAll(t, ws[..|ws| - 1]), ws[|ws| - 1], 0)
  }

  /** `_apagar(nodo, palavra, i)`: the node after the deletion and whether
      its parent should drop it. At the end of the word '$' is removed and
      the answer is always yes, whatever children remain; on the way back a
      node is dropped when it has no key left. */
  function Delete(t: Trie, w: string, i: nat): (Trie, bool)
    requires i <= |w|
    decreases |w| - i
  {
    if i == |w| then (Node(t.children, false), true)
    else if w[i] in t.children then
      var (child, gone) := Delete(t.children[w[i]], w, i + 1);
      var kids := if gone then t.children - {w[i]} else t.children[w[i] := child];
      (Node(kids, t.end), |kids| == 0 && !t.end)
    else (t, false)
  }

  /** Whether `u[j..]` starts with `p[i..]`. */
  predicate PrefixFrom(p: string, i: nat, u: string, j: nat)
    requires i <= |p| && j <= |u|
    decreases |p| - i
  {
    i == |p| || (j < |u| && p[i] == u[j] && PrefixFrom(p, i + 1, u, j + 1))
  }

  /** Whether `u` starts with `p`. */
  predicate IsPrefix(p: string, u: string)
  {
    PrefixFrom(p, 0, u, 0)
  }

  lemma {:induction false} PrefixFromSlices(p: string, i: nat, u: string, j: nat)
    requires i <= |p| && j <= |u|
    ensures PrefixFrom(p, i, u, j) <==> |p| - i <= |u| - j && u[j..j + |p| - i] == p[i..]
    decreases |p| - i
  {
    if i < |p| && j < |u| {
      PrefixFromSlices(p, i + 1, u, j + 1);
      if |p| - i <= |u| - j {
        assert u[j..j + |p| - i] == [u[j]] + u[j + 1..j + |p| - i];
        assert p[i..] == [p[i]] + p[i + 1..];
      }
    }
  }

  lemma {:induction false} PrefixSelf(w: string, i: nat)
    requires i <= |w|
    ensures PrefixFrom(w, i, w, i)
    decreases |w| - i
  {
    if i < |w| {
      PrefixSelf(w, i + 1);
    }
  }

  /** `IsPrefix` is the usual prefix relation. */
  lemma IsPrefixSlices(p: string, u: string)
    ensures IsPrefix(p, u) <==> |p| <= |u| && u[..|p|] == p
  {
    PrefixFromSlices(p, 0, u, 0);
    assert p[0..] == p;
    if |p| <= |u| {
      assert u[0..|p|] == u[..|p|];
    }
  }

  lemma {:induction false} EmptyHoldsNothing(w: string, i: nat)
    requires i <= |w|
    ensures Found(Empty, w, i) <==> i == |w| && false
  {
  }

  /** After inserting `w[i..]` below `t`, exactly the suffixes stored before
      and `w[i..]` itself are stored. */
  lemma {:induction false} InsertFound(t: Trie, w: string, i: nat, v: string, j: nat)
    requires i <= |w| && j <= |v|
    ensures Found(Insert(t, w, i), v, j) <==> Found(t, v, j) || w[i..] == v[j..]
    decreases |w| - i
  {
    if i < |w| && j < |v| {
      var child := if w[i] in t.children then t.children[w[i]] else Empty;
      if v[j] == w[i] {
        InsertFound(child, w, i + 1, v, j + 1);
        if w[i] !in t.children {
          EmptyHoldsNothing(v, j + 1);
        }
        assert w[i..] == [w[i]] + w[i + 1..] && v[j..] == [v[j]] + v[j + 1..];
      } else {
        assert w[i..][0] != v[j..][0];
      }
    } else if i < |w| {
      assert |w[i..]| > 0 == |v[j..]|;
    } else if j < |v| {
      assert |w[i..]| == 0 < |v[j..]|;
    }
  }

  /** Inserting a stored word changes nothing. */
  lemma {:induction false} InsertPresent(t: Trie, w: string, i: nat)
    requires i <= |w| && Found(t, w, i)
    ensures Insert(t, w, i) == t
    decreases |w| - i
  {
    if i < |w| {
      InsertPresent(t.children[w[i]], w, i + 1);
      assert t.children[w[i] := t.children[w[i]]] == t.children;
    }
  }

  /** Insertion keeps the trie clean when the word has no '$'. */
  lemma {:induction false} InsertClean(t: Trie, w: string, i: nat)
    requires i <= |w| && Clean(t) && '$' !in w
    ensures Clean(Insert(t, w, i))
    decreases |w| - i
  {
    if i < |w| {
      var child := if w[i] in t.children then t.children[w[i]] else Empty;
      InsertClean(child, w, i + 1);
    }
  }

  /** The node reached by `w` after inserting it is the one `inserir`
      returns for its last word. */
  lemma {:induction false} InsertReaches(t: Trie, w: string, i: nat)
    requires i <= |w|
    ensures Reach(Insert(t, w, i), w, i).Some?
    decreases |w| - i
  {
    if i < |w| {
      var child := if w[i] in t.children then t.children[w[i]] else Empty;
      InsertReaches(child, w, i + 1);
    }
  }

  /** After `inserir`, a word is stored iff it was stored before or is in
      the list. */
  lemma {:induction false} InsertAllContains(t: Trie, ws: seq<string>, v: string)
    ensures Contains(InsertAll(t, ws), v) <==> Contains(t, v) || v in ws
  {
    if ws != [] {
      var k := |ws| - 1;
      InsertAllContains(t, ws[..k], v);
      InsertFound(InsertAll(t, ws[..k]), ws[k], 0, v, 0);
      assert ws == ws[..k] + [ws[k]];
      assert ws[k][0..] == ws[k] && v[0..] == v;
    }
  }

  /** Inserting the same list a second time changes nothing: every word is
      already stored and only its '$' is written again. */
  lemma {:induction false} InsertAllTwice(t: Trie, ws: seq<string>, us: seq<string>)
    requires forall u :: u in us ==> u in ws
    ensures InsertAll(InsertAll(t, ws), us) == InsertAll(t, ws)
  {
    if us != [] {
      var k := |us| - 1;
      InsertAllTwice(t, ws, us[..k]);
      InsertAllContains(t, ws, us[k]);
      InsertPresent(InsertAll(t, ws), us[k], 0);
    }
  }

  /** When `_apagar` answers yes, every suffix stored below the old node
      starts with `w[i..]`: the parent drops nothing else. */
  lemma {:induction false} DeleteGone(t: Trie, w: string, i: nat, v: string, j: nat)
    requires i <= |w| && j <= |v| && Delete(t, w, i).1 && Found(t, v, j)
    ensures PrefixFrom(w, i, v, j)
    decreases |w| - i
  {
    if i < |w| {
      DeleteGone(t.children[w[i]], w, i + 1, v, j + 1);
    }
  }

  /** `apagar(w)` from letter `i` on: a suffix stays stored iff it was
      stored and `w[i..]` is not a prefix of it, except that at the end of
      the word only the word itself loses '$' when the node is not
      dropped. */
  lemma {:induction false} DeleteFound(t: Trie, w: string, i: nat, v: string, j: nat)
    requires i <= |w| && j <= |v|
    ensures Found(Delete(t, w, i).0, v, j) <==> Found(t, v, j) && !(PrefixFrom(w, i, v, j) && (i < |w| || j == |v|))
    decreases |w| - i, 1
  {
    if i < |w| && w[i] in t.children && j < |v| {
      if v[j] == w[i] {
        DeleteFoundAlong(t, w, i, v, j);
      } else {
        DeleteFoundBeside(t, w, i, v, j);
      }
    }
  }

  /** The case where `v` follows the deleted path one more letter. */
  lemma {:induction false} DeleteFoundAlong(t: Trie, w: string, i: nat, v: string, j: nat)
    requires i < |w| && w[i] in t.children && j < |v| && v[j] == w[i]
    ensures Found(Delete(t, w, i).0, v, j) <==> Found(t, v, j) && !PrefixFrom(w, i, v, j)
    decreases |w| - i, 0
  {
    var (child, gone) := Delete(t.children[w[i]], w, i + 1);
    if gone {
      if Found(t, v, j) {
        DeleteGone(t.children[w[i]], w, i + 1, v, j + 1);
      }
    } else {
      DeleteFound(t.children[w[i]], w, i + 1, v, j + 1);
    }
  }

  /** The case where `v` turns off the deleted path: its branch is kept. */
  lemma {:induction false} DeleteFoundBeside(t: Trie, w: string, i: nat, v: string, j: nat)
    requires i < |w| && w[i] in t.children && j < |v| && v[j] != w[i]
    ensures Found(Delete(t, w, i).0, v, j) <==> Found(t, v, j)
  {
    var (child, gone) := Delete(t.children[w[i]], w, i + 1);
    var kids := if gone then t.children - {w[i]} else t.children[w[i] := child];
    assert v[j] in kids <==> v[j] in t.children;
    assert v[j] in kids ==> kids[v[j]] == t.children[v[j]];
  }

  /** `apagar` of a word whose path leaves the trie changes nothing. */
  lemma {:induction false} DeleteAbsent(t: Trie, w: string, i: nat)
    requires i <= |w| && Reach(t, w, i).None?
    ensures Delete(t, w, i) == (t, false)
    decreases |w| - i
  {
    if w[i] in t.children {
      DeleteAbsent(t.children[w[i]], w, i + 1);
      assert t.children[w[i] := t.children[w[i]]] == t.children;
    }
  }

  /** Deletion keeps the trie clean. */
  lemma {:induction false} DeleteClean(t: Trie, w: string, i: nat)
    requires i <= |w| && Clean(t)
    ensures Clean(Delete(t, w, i).0)
    decreases |w| - i
  {
    if i < |w| && w[i] in t.children {
      DeleteClean(t.children[w[i]], w, i + 1);
    }
  }

  /** The trie over a list of words. */
  class Trees {
    var listaPalavras: seq<string>
    var trie: Trie

    /** No word of the list and no key of the trie is '$'. */
    ghost predicate Valid()
      reads this
    {
      Clean(trie) && forall w :: w in listaPalavras ==> '$' !in w
    }

    constructor (listaPalavras: seq<string>)
      requires forall w :: w in listaPalavras ==> '$' !in w
      ensures this.listaPalavras == listaPalavras && trie == Empty && Valid()
    {
      this.listaPalavras := listaPalavras;
      trie := Empty;
    }

    /** `inserir`: inserts every word of the list in order and returns the
        trie with the node of the last word; with an empty list that node
        is never bound (Python raises), here `None`. */
    method Inserir() returns (root: Trie, last: Option<Trie>)
      requires Valid()
      modifies this
      ensures listaPalavras == old(listaPalavras) && Valid()
      ensures trie == InsertAll(old(trie), listaPalavras) && root == trie
      ensures last == if listaPalavras == [] then None else Reach(trie, listaPalavras[|listaPalavras| - 1], 0)
      ensures listaPalavras != [] ==> last.Some? && last.value.end
    {
      var ws := listaPalavras;
      var t := trie;
      ghost var start := trie;
      last := None;
      for k := 0 to |ws|
        invariant listaPalavras == ws && forall w :: w in ws ==> '$' !in w
        invariant t == InsertAll(start, ws[..k]) && Clean(t)
        invariant last == if k == 0 then None else Reach(t, ws[k - 1], 0)
        invariant k > 0 ==> last.Some? && last.value.end
      {
        InsertClean(t, ws[k], 0);
        InsertReaches(t, ws[k], 0);
        InsertFound(t, ws[k], 0, ws[k], 0);
        assert ws[..k + 1][..k] == ws[..k];
        t := Insert(t, ws[k], 0);
        last := Reach(t, ws[k], 0);
      }
      assert ws[..|ws|] == ws;
      trie := t;
      root := t;
    }

    /** `procurar`: walks the letters of `palavra` and answers whether the
        last node holds '$'. */
    method Procurar(palavra: string) returns (b: bool)
      requires '$' !in palavra
      ensures b == Contains(trie, palavra)
    {
      var t := trie;
      for i := 0 to |palavra|
        invariant Reach(trie, palavra, 0) == Reach(t, palavra, i)
      {
        if palavra[i] !in t.children {
          return false;
        }
        t := t.children[palavra[i]];
      }
      return t.end;
    }

    /** `apagar`: runs `_apagar` from the root; the root itself is never
        dropped. */
    method Apagar(palavra: string)
      requires Valid() && '$' !in palavra
      modifies this
      ensures listaPalavras == old(listaPalavras) && Valid()
      ensures trie == Delete(old(trie), palavra, 0).0
    {
      DeleteClean(trie, palavra, 0);
      trie := Delete(trie, palavra, 0).0;
    }
  }

  /** After `apagar(w)` a word stays stored iff it was stored and does not
      start with `w`; for the empty word only the empty word goes. In
      particular `w` itself is gone, and deleting "amor" also deletes
      "amora". */
  lemma DeleteContains(t: Trie, w: string, v: string)
    ensures Contains(Delete(t, w, 0).0, v) <==> Contains(t, v) && !(IsPrefix(w, v) && (w != [] || v == []))
    ensures !Contains(Delete(t, w, 0).0, w)
  {
    DeleteFound(t, w, 0, v, 0);
    DeleteFound(t, w, 0, w, 0);
    PrefixSelf(w, 0);
  }

  /** Deleting "amor" from the trie of ["amor", "amora"] also deletes
      "amora". */
  lemma DeleteAmorLosesAmora()
    ensures Contains(InsertAll(Empty, ["amor", "amora"]), "amora")
    ensures !Contains(Delete(InsertAll(Empty, ["amor", "amora"]), "amor", 0).0, "amora")
  {
    var t := InsertAll(Empty, ["amor", "amora"]);
    InsertAllContains(Empty, ["amor", "amora"], "amora");
    DeleteContains(t, "amor", "amora");
    IsPrefixSlices("amor", "amora");
  }

  /** `_apagar` with the end-of-word answer it evidently intends: the node
      may go only when, with '$' removed, it has no key left. */
  function DeleteOnly(t: Trie, w: string, i: nat): (Trie, bool)
    requires i <= |w|
    decreases |w| - i
  {
    if i == |w| then (Node(t.children, false), |t.children| == 0)
    else if w[i] in t.children then
      var (child, gone) := DeleteOnly(t.children[w[i]], w, i + 1);
      var kids := if gone then t.children - {w[i]} else t.children[w[i] := child];
      (Node(kids, t.end), |kids| == 0 && !t.end)
    else (t, false)
  }

  /** When the corrected `_apagar` answers yes, the only suffix stored below
      the old node is `w[i..]`. */
  lemma {:induction false} DeleteOnlyGone(t: Trie, w: string, i: nat, v: string, j: nat)
    requires i <= |w| && j <= |v| && DeleteOnly(t, w, i).1 && Found(t, v, j)
    ensures w[i..] == v[j..]
    decreases |w| - i
  {
    if i < |w| {
      DeleteOnlyGone(t.children[w[i]], w, i + 1, v, j + 1);
      assert v[j..] == [v[j]] + v[j + 1..] && w[i..] == [w[i]] + w[i + 1..];
    }
  }

  /** The corrected deletion from letter `i` on removes exactly `w[i..]`. */
  lemma {:induction false} DeleteOnlyFound(t: Trie, w: string, i: nat, v: string, j: nat)
    requires i <= |w| && j <= |v|
    ensures Found(DeleteOnly(t, w, i).0, v, j) <==> Found(t, v, j) && w[i..] != v[j..]
    decreases |w| - i, 1
  {
    if i < |w| && w[i] in t.children && j < |v| {
      if v[j] == w[i] {
        DeleteOnlyAlong(t, w, i, v, j);
      } else {
        DeleteOnlyBeside(t, w, i, v, j);
      }
    } else if i < |w| && j < |v| {
      assert w[i..][0] != v[j..][0] || !Found(t, v, j);
    } else if i < |w| {
      assert |w[i..]| > 0 == |v[j..]|;
    } else if j < |v| {
      assert |w[i..]| == 0 < |v[j..]|;
    }
  }

  lemma {:induction false} DeleteOnlyAlong(t: Trie, w: string, i: nat, v: string, j: nat)
    requires i < |w| && w[i] in t.children && j < |v| && v[j] == w[i]
    ensures Found(DeleteOnly(t, w, i).0, v, j) <==> Found(t, v, j) && w[i..] != v[j..]
    decreases |w| - i, 0
  {
    var (child, gone) := DeleteOnly(t.children[w[i]], w, i + 1);
    assert v[j..] == [v[j]] + v[j + 1..] && w[i..] == [w[i]] + w[i + 1..];
    if gone {
      if Found(t, v, j) {
        DeleteOnlyGone(t.children[w[i]], w, i + 1, v, j + 1);
      }
    } else {
      DeleteOnlyFound(t.children[w[i]], w, i + 1, v, j + 1);
    }
  }

  lemma {:induction false} DeleteOnlyBeside(t: Trie, w: string, i: nat, v: string, j: nat)
    requires i < |w| && w[i] in t.children && j < |v| && v[j] != w[i]
    ensures Found(DeleteOnly(t, w, i).0, v, j) <==> Found(t, v, j) && w[i..] != v[j..]
  {
    var (child, gone) := DeleteOnly(t.children[w[i]], w, i + 1);
    var kids := if gone then t.children - {w[i]} else t.children[w[i] := child];
    assert v[j] in kids <==> v[j] in t.children;
    assert v[j] in kids ==> kids[v[j]] == t.children[v[j]];
    assert w[i..][0] != v[j..][0];
  }

  /** The corrected deletion removes the word and keeps every other one. */
  lemma DeleteOnlyContains(t: Trie, w: string, v: string)
    ensures Contains(DeleteOnly(t, w, 0).0, v) <==> Contains(t, v) && v != w
  {
    DeleteOnlyFound(t, w, 0, v, 0);
    assert w[0..] == w && v[0..] == v;
  }
}
