/** The `SuffixTree` class: a suffix trie kept as nested dictionaries. The
    suffixes `text[i:] + '$'` are walked in one character at a time and the
    start index `i` is stored under the key '$' of the node reached at the
    end. Dictionaries keep their insertion order, which fixes the order of
    `_collect_leaves` and `_find_repeats`. */
module SuffixTrie {
  import opened Optional

  /** A dictionary value: a nested dictionary, with its keys in insertion
      order, or a stored start index. */
  datatype Value = Index(n: int) | Dict(keys: seq<char>, entries: map<char, Value>)

  /** The empty dictionary `{}`. */
  const EmptyDict: Value := Dict([], map[])

  /** The shape every tree keeps: the key list and the entries agree, and
      only the key '$' may hold an index. */
  predicate WF(v: Value)
  {
    match v
    case Index(_) => true
    case Dict(keys, entries) =>
      (forall c :: c in entries <==> c in keys)
      && (forall c :: c in entries && c != '$' ==> entries[c].Dict?)
      && (forall c :: c in entries ==> WF(entries[c]))
  }

  /** `d[c] = x`: a new key goes to the end of the order, an existing one
      keeps its place. */
  function Put(d: Value, c: char, x: Value): (r: Value)
    requires d.Dict?
    ensures r.Dict? && r.entries == d.entries[c := x]
  {
    Dict(if c in d.entries then d.keys else d.keys + [c], d.entries[c := x])
  }

  /** `_add_suffix(suffix, index)` from node `v`: `None` where Python raises
      TypeError, that is where the walk steps into a stored index. */
  function AddSuffix(v: Value, u: string, idx: int): Option<Value>
    decreases |u|
  {
    if v.Index? then None
    else if u == [] then Some(Put(v, '$', Index(idx)))
    else
      var child := if u[0] in v.entries then v.entries[u[0]] else EmptyDict;
      match AddSuffix(child, u[1..], idx)
      case None => None
      case Some(c) => Some(Put(v, u[0], c))
  }

  /** Where following the characters of `p` from `v` ends. */
  datatype Walk = Reached(node: Value) | Off | Crash

  function Descend(v: Value, p: string): (r: Walk)
    ensures WF(v) && r.Reached? ==> WF(r.node)
    decreases |p|
  {
    if p == [] then Reached(v)
    else if v.Index? then Crash
    else if p[0] in v.entries then Descend(v.entries[p[0]], p[1..])
    else Off
  }

  /** What a walk finds, forgetting the nodes themselves. */
  datatype Kind = Leaf(n: int) | Inner | Absent | Crashed

  function KindOf(w: Walk): Kind
  {
    match w
    case Reached(Index(n)) => Leaf(n)
    case Reached(Dict(_, _)) => Inner
    case Off => Absent
    case Crash => Crashed
  }

  /** Whether `u` starts with `p`. */
  predicate IsPrefix(p: string, u: string)
  {
    |p| <= |u| && u[..|p|] == p
  }

  lemma PutWF(d: Value, c: char, x: Value)
    requires d.Dict? && WF(d) && WF(x) && (c != '$' ==> x.Dict?)
    ensures WF(Put(d, c, x))
  {
  }

  /** Insertion keeps the shape. */
  lemma {:induction false} AddSuffixWF(v: Value, u: string, idx: int)
    requires WF(v) && AddSuffix(v, u, idx).Some?
    ensures WF(AddSuffix(v, u, idx).value) && AddSuffix(v, u, idx).value.Dict?
    decreases |u|
  {
    if u != [] {
      var child := if u[0] in v.entries then v.entries[u[0]] else EmptyDict;
      AddSuffixWF(child, u[1..], idx);
      PutWF(v, u[0], AddSuffix(child, u[1..], idx).value);
    } else {
      PutWF(v, '$', Index(idx));
    }
  }

  /** A walk through freshly created dictionaries never raises. */
  lemma {:induction false} FreshWalk(u: string, idx: int)
    ensures AddSuffix(EmptyDict, u, idx).Some?
    decreases |u|
  {
    if u != [] {
      FreshWalk(u[1..], idx);
    }
  }

  /** `_add_suffix` raises exactly when some prefix of the suffix (the
      whole suffix included) already leads to a stored index. */
  lemma {:induction false} AddSuffixCrash(v: Value, u: string, idx: int)
    ensures AddSuffix(v, u, idx).None? <==> exists m :: 0 <= m <= |u| && Descend(v, u[..m]).Reached? && Descend(v, u[..m]).node.Index?
    decreases |u|
  {
    assert Descend(v, u[..0]) == Reached(v);
    if u != [] && v.Dict? {
      if u[0] in v.entries {
        var child := v.entries[u[0]];
        AddSuffixCrash(child, u[1..], idx);
        forall m | 1 <= m <= |u|
          ensures Descend(v, u[..m]) == Descend(child, u[1..][..m - 1])
        {
          assert u[..m][1..] == u[1..][..m - 1];
        }
        if AddSuffix(child, u[1..], idx).None? {
          var m :| 0 <= m <= |u| - 1 && Descend(child, u[1..][..m]).Reached? && Descend(child, u[1..][..m]).node.Index?;
          assert Descend(v, u[..m + 1]) == Descend(child, u[1..][..m]);
        }
      } else {
        FreshWalk(u[1..], idx);
        forall m | 1 <= m <= |u| ensures Descend(v, u[..m]) == Off {
          assert u[..m][0] == u[0];
        }
      }
    }
  }

  /** Peeling the first character off both strings. */
  lemma PrefixCons(p: string, u: string)
    requires p != [] && u != []
    ensures IsPrefix(p, u) <==> p[0] == u[0] && IsPrefix(p[1..], u[1..])
  {
    if p[0] == u[0] && IsPrefix(p[1..], u[1..]) {
      assert u[..|p|] == [u[0]] + u[1..][..|p| - 1];
      assert p == [p[0]] + p[1..];
    }
    if IsPrefix(p, u) {
      assert u[1..][..|p| - 1] == u[..|p|][1..];
    }
  }

  /** What one `_add_suffix(u + '$', idx)` does to every path `p`, given
      that no subtree hangs under '$' at the end of `u` (which the store
      would cut off): the end of the suffix now holds `idx`, every prefix
      of it is a dictionary, a longer walk through the stored index raises,
      and all other paths are as before. */
  lemma {:induction false} AddSuffixKind(v: Value, u: string, idx: int, p: string)
    requires WF(v) && AddSuffix(v, u, idx).Some?
    requires KindOf(Descend(v, u + "$")) != Inner
    ensures KindOf(Descend(AddSuffix(v, u, idx).value, p)) ==
      if p == u + "$" then Leaf(idx)
      else if IsPrefix(p, u) then Inner
      else if IsPrefix(u + "$", p) then Crashed
      else KindOf(Descend(v, p))
    decreases |u|
  {
    var r := AddSuffix(v, u, idx).value;
    if p == [] {
    } else if u == [] {
      assert r == Put(v, '$', Index(idx));
      if p[0] == '$' {
        assert IsPrefix("$", p);
      } else {
        assert !IsPrefix("$", p);
      }
    } else {
      var child := if u[0] in v.entries then v.entries[u[0]] else EmptyDict;
      var c := AddSuffix(child, u[1..], idx).value;
      assert r == Put(v, u[0], c);
      PrefixCons(p, u);
      PrefixCons(p, u + "$");
      PrefixCons(u + "$", p);
      assert (u + "$")[1..] == u[1..] + "$";
      if p[0] == u[0] {
        assert Descend(v, u + "$") == if u[0] in v.entries then Descend(child, u[1..] + "$") else Off;
        AddSuffixKind(child, u[1..], idx, p[1..]);
        assert p == u + "$" <==> p[1..] == u[1..] + "$";
      } else {
        assert p != u + "$";
      }
    }
  }

  /** A walk that continues past a stored index or off the tree raises or
      stays off the tree. */
  lemma {:induction false} DescendPast(v: Value, a: string, b: string)
    requires b != [] && KindOf(Descend(v, a)) != Inner
    ensures KindOf(Descend(v, a + b)) == Absent || KindOf(Descend(v, a + b)) == Crashed
    decreases |a|
  {
    if a == [] {
      assert a + b == b;
    } else if v.Dict? && a[0] in v.entries {
      assert (a + b)[0] == a[0] && (a + b)[1..] == a[1..] + b;
      DescendPast(v.entries[a[0]], a[1..], b);
    } else {
      assert (a + b)[0] == a[0];
    }
  }

  /** An insertion never removes a dictionary path that was there. */
  lemma AddSuffixKeeps(v: Value, u: string, idx: int, p: string)
    requires WF(v) && AddSuffix(v, u, idx).Some?
    requires KindOf(Descend(v, u + "$")) != Inner
    requires KindOf(Descend(v, p)) == Inner
    ensures KindOf(Descend(AddSuffix(v, u, idx).value, p)) == Inner
  {
    AddSuffixKind(v, u, idx, p);
    if p != u + "$" && !IsPrefix(p, u) && IsPrefix(u + "$", p) {
      assert p == (u + "$") + p[|u + "$"|..];
      DescendPast(v, u + "$", p[|u + "$"|..]);
    }
  }

  /** The loop of `build_suffix_tree`: suffixes `0 .. k - 1` of `text`,
      each followed by '$', walked into `v` in order. */
  function BuildUpTo(v: Value, text: string, k: nat): Option<Value>
    requires k <= |text|
  {
    if k == 0 then Some(v)
    else
      match BuildUpTo(v, text, k - 1)
      case None => None
      case Some(t) => AddSuffix(t, text[k - 1..] + "$", k - 1)
  }

  /** '$' occurs in `text` at most as its last character (the form of
      every text the repository builds from). */
  predicate SentinelLast(text: string)
  {
    forall m :: 0 <= m < |text| - 1 ==> text[m] != '$'
  }

  /** The kind of path `p` in the tree built from the first `k` suffixes of
      `text` into an empty tree, read off the suffixes themselves: the
      latest suffix that decides `p` wins. */
  ghost function ExpectedKind(text: string, k: nat, p: string): Kind
    requires k <= |text|
  {
    if k == 0 then (if p == [] then Inner else Absent)
    else
      var u := text[k - 1..] + "$";
      if p == u + "$" then Leaf(k - 1)
      else if IsPrefix(p, u) then Inner
      else if IsPrefix(u + "$", p) then Crashed
      else ExpectedKind(text, k - 1, p)
  }

  /** What each kind of path says about the suffixes. */
  lemma {:induction false} ExpectedShape(text: string, k: nat, p: string)
    requires k <= |text|
    ensures ExpectedKind(text, k, p).Leaf? ==>
      0 <= ExpectedKind(text, k, p).n < k && p == text[ExpectedKind(text, k, p).n..] + "$" + "$"
    ensures ExpectedKind(text, k, p) == Inner ==>
      p == [] || exists i :: 0 <= i < k && IsPrefix(p, text[i..] + "$")
    ensures ExpectedKind(text, k, p) == Crashed ==> '$' in p
  {
    if k > 0 {
      var u := text[k - 1..] + "$";
      if p != u + "$" && !IsPrefix(p, u) && IsPrefix(u + "$", p) {
        assert p[|u|] == '$';
      }
      ExpectedShape(text, k - 1, p);
    }
  }

  /** With at most a final '$' in the text, the end of a later suffix
      followed by "$$" never runs along an earlier suffix. */
  lemma NoDoubleSentinel(text: string, i: nat, k: nat)
    requires SentinelLast(text) && i < k < |text|
    ensures !IsPrefix(text[k..] + "$" + "$", text[i..] + "$")
  {
    var n := |text|;
    var a, b := text[k..] + "$" + "$", text[i..] + "$";
    if k > i + 1 {
      assert a[n - k] != b[n - k];
    } else if text[n - 1] != '$' {
      assert a[n - k] != b[n - k];
    } else {
      assert a[n - k - 1] != b[n - k - 1];
    }
  }

  lemma PrefixTrans(a: string, b: string, c: string)
    requires IsPrefix(a, b) && IsPrefix(b, c)
    ensures IsPrefix(a, c)
  {
    assert c[..|a|] == c[..|b|][..|a|];
  }

  /** Every prefix of an inserted suffix stays a dictionary path. */
  lemma {:induction false} ExpectedPrefixInner(text: string, k: nat, i: nat, p: string)
    requires SentinelLast(text) && i < k <= |text| && IsPrefix(p, text[i..] + "$")
    ensures ExpectedKind(text, k, p) == Inner
  {
    if k - 1 > i {
      var u := text[k - 1..] + "$";
      NoDoubleSentinel(text, i, k - 1);
      if IsPrefix(u + "$", p) {
        PrefixTrans(u + "$", p, text[i..] + "$");
      }
      ExpectedPrefixInner(text, k - 1, i, p);
    }
  }

  lemma PrefixOfLonger(a: string, b: string, c: string)
    ensures IsPrefix(a, b + c) && |a| <= |b| ==> IsPrefix(a, b)
  {
    if |a| <= |b| {
      assert (b + c)[..|a|] == b[..|a|];
    }
  }

  /** A later suffix never takes over the place where an earlier one stored
      its start index. */
  lemma {:induction false} ExpectedStays(text: string, k: nat, i: nat)
    requires SentinelLast(text) && i < k <= |text|
    ensures ExpectedKind(text, k, text[i..] + "$" + "$") == Leaf(i)
  {
    var q := text[i..] + "$" + "$";
    var u := text[k - 1..] + "$";
    if k - 1 == i {
      assert q == u + "$";
    } else {
      NoDoubleSentinel(text, i, k - 1);
      assert q == (text[i..] + "$") + "$";
      PrefixOfLonger(u + "$", text[i..] + "$", "$");
      ExpectedStays(text, k - 1, i);
    }
  }

  /** No stored index on the way of a later suffix. */
  lemma ExpectedNoLeafOnWay(text: string, k: nat, m: nat)
    requires k < |text| && m <= |text[k..] + "$"|
    ensures !ExpectedKind(text, k, (text[k..] + "$")[..m]).Leaf?
  {
    ExpectedShape(text, k, (text[k..] + "$")[..m]);
  }

  /** Before suffix `k - 1` goes in, the tree is there and its walk does
      not raise. */
  lemma {:induction false} BuildNoCrash(text: string, k: nat)
    requires SentinelLast(text) && 0 < k <= |text|
    ensures BuildUpTo(EmptyDict, text, k - 1).Some?
    ensures WF(BuildUpTo(EmptyDict, text, k - 1).value)
    ensures AddSuffix(BuildUpTo(EmptyDict, text, k - 1).value, text[k - 1..] + "$", k - 1).Some?
    decreases k, 0
  {
    var u := text[k - 1..] + "$";
    BuildKind(text, k - 1, []);
    var t := BuildUpTo(EmptyDict, text, k - 1).value;
    forall m | 0 <= m <= |u|
      ensures !(Descend(t, u[..m]).Reached? && Descend(t, u[..m]).node.Index?)
    {
      BuildKind(text, k - 1, u[..m]);
      ExpectedNoLeafOnWay(text, k - 1, m);
    }
    AddSuffixCrash(t, u, k - 1);
  }

  /** No earlier suffix runs on along '$' where the next one ends. */
  lemma ExpectedNoSubtree(text: string, j: nat)
    requires SentinelLast(text) && j < |text|
    ensures ExpectedKind(text, j, text[j..] + "$" + "$") != Inner
  {
    ExpectedShape(text, j, text[j..] + "$" + "$");
    if ExpectedKind(text, j, text[j..] + "$" + "$") == Inner {
      var i :| 0 <= i < j && IsPrefix(text[j..] + "$" + "$", text[i..] + "$");
      NoDoubleSentinel(text, i, j);
    }
  }

  /** Nothing hangs under '$' at the end of the next suffix yet. */
  lemma {:induction false} BuildNoSubtree(text: string, k: nat)
    requires SentinelLast(text) && 0 < k <= |text|
    ensures BuildUpTo(EmptyDict, text, k - 1).Some?
    ensures KindOf(Descend(BuildUpTo(EmptyDict, text, k - 1).value, text[k - 1..] + "$" + "$")) != Inner
    decreases k, 0
  {
    BuildKind(text, k - 1, text[k - 1..] + "$" + "$");
    ExpectedNoSubtree(text, k - 1);
  }

  /** Building the suffixes of `text` (with '$' at most at its end) into an
      empty tree never raises, and every path has the kind the suffixes
      predict. */
  lemma {:induction false} BuildKind(text: string, k: nat, p: string)
    requires SentinelLast(text) && k <= |text|
    ensures BuildUpTo(EmptyDict, text, k).Some?
    ensures WF(BuildUpTo(EmptyDict, text, k).value) && BuildUpTo(EmptyDict, text, k).value.Dict?
    ensures KindOf(Descend(BuildUpTo(EmptyDict, text, k).value, p)) == ExpectedKind(text, k, p)
    decreases k, 1
  {
    if k > 0 {
      BuildNoCrash(text, k);
      BuildNoSubtree(text, k);
      BuildKind(text, k - 1, p);
      var t := BuildUpTo(EmptyDict, text, k - 1).value;
      var u := text[k - 1..] + "$";
      AddSuffixKind(t, u, k - 1, p);
      AddSuffixWF(t, u, k - 1);
    }
  }

  /** Every start index of the text sits under '$' at the end of its
      suffix followed by '$'. */
  lemma StoredIndex(text: string, i: nat)
    requires SentinelLast(text) && i < |text|
    ensures BuildUpTo(EmptyDict, text, |text|).Some?
    ensures Descend(BuildUpTo(EmptyDict, text, |text|).value, text[i..] + "$" + "$") == Reached(Index(i))
  {
    BuildKind(text, |text|, text[i..] + "$" + "$");
    ExpectedStays(text, |text|, i);
  }

  /** Following `p` and then `w`. */
  lemma {:induction false} DescendAppend(v: Value, p: string, w: string)
    requires Descend(v, p).Reached?
    ensures Descend(v, p + w) == Descend(Descend(v, p).node, w)
    decreases |p|
  {
    if p != [] {
      assert v.Dict? && p[0] in v.entries;
      assert (p + w)[0] == p[0] && (p + w)[1..] == p[1..] + w;
      DescendAppend(v.entries[p[0]], p[1..], w);
      assert Descend(v, p + w) == Descend(v.entries[p[0]], p[1..] + w);
    } else {
      assert p + w == w;
    }
  }

  /** `_collect_leaves(node)`: the value under '$' if the node has one,
      else the children's results in key order. */
  function Collect(d: Value): seq<Value>
    requires d.Dict? && WF(d)
    decreases d, 1
  {
    if '$' in d.entries then [d.entries['$']] else CollectKeys(d, 0)
  }

  function CollectKeys(d: Value, k: nat): seq<Value>
    requires d.Dict? && WF(d) && '$' !in d.entries && k <= |d.keys|
    decreases d, 0, |d.keys| - k
  {
    if k == |d.keys| then []
    else Collect(d.entries[d.keys[k]]) + CollectKeys(d, k + 1)
  }

  /** Every collected value is what hangs under '$' below the node, at the
      end of a path without '$'. */
  lemma {:induction false} CollectSound(d: Value, m: nat)
    requires d.Dict? && WF(d) && m < |Collect(d)|
    ensures exists q :: '$' !in q && Descend(d, q + "$") == Reached(Collect(d)[m])
    decreases d, 1
  {
    if '$' in d.entries {
      assert Descend(d, [] + "$") == Reached(Collect(d)[m]);
    } else {
      CollectKeysSound(d, 0, m);
    }
  }

  lemma {:induction false} CollectKeysSound(d: Value, k: nat, m: nat)
    requires d.Dict? && WF(d) && '$' !in d.entries && k <= |d.keys| && m < |CollectKeys(d, k)|
    ensures exists q :: '$' !in q && Descend(d, q + "$") == Reached(CollectKeys(d, k)[m])
    decreases d, 0, |d.keys| - k
  {
    var c := d.keys[k];
    var child := d.entries[c];
    if m < |Collect(child)| {
      CollectSound(child, m);
      var q :| '$' !in q && Descend(child, q + "$") == Reached(Collect(child)[m]);
      assert ([c] + q + "$")[0] == c && ([c] + q + "$")[1..] == q + "$";
      assert Descend(d, [c] + q + "$") == Reached(CollectKeys(d, k)[m]);
    } else {
      CollectKeysSound(d, k + 1, m - |Collect(child)|);
    }
  }

  /** The outcome of `find_pattern`: the collected values, `None`, or the
      TypeError raised by walking into (or collecting from) a stored
      index. */
  datatype Lookup = Leaves(values: seq<Value>) | NotFound | TypeError

  function FindPatternSpec(root: Value, p: string): Lookup
    requires WF(root)
  {
    match Descend(root, p)
    case Crash => TypeError
    case Off => NotFound
    case Reached(n) => if n.Index? then TypeError else Leaves(Collect(n))
  }

  /** The tree `build_suffix_tree(text)` makes from an empty root. */
  function SuffixTreeOf(text: string): (t: Value)
    requires SentinelLast(text)
    ensures WF(t) && t.Dict? && BuildUpTo(EmptyDict, text, |text|) == Some(t)
  {
    BuildKind(text, |text|, []);
    BuildUpTo(EmptyDict, text, |text|).value
  }

  /** For a pattern without '$' in a tree built from `text`: `None` exactly
      when the pattern is not empty and starts at no position of the text;
      the empty pattern collects from the root. */
  lemma FindPatternAbsent(text: string, p: string)
    requires SentinelLast(text) && '$' !in p
    ensures FindPatternSpec(SuffixTreeOf(text), p).NotFound? <==>
      p != [] && forall i :: 0 <= i < |text| ==> !IsPrefix(p, text[i..])
    ensures p == [] ==> FindPatternSpec(SuffixTreeOf(text), p) == Leaves(Collect(SuffixTreeOf(text)))
  {
    var n := |text|;
    BuildKind(text, n, p);
    ExpectedShape(text, n, p);
    var e := ExpectedKind(text, n, p);
    if e == Inner && p != [] {
      var i :| 0 <= i < n && IsPrefix(p, text[i..] + "$");
      PlainPrefix(p, text[i..]);
    }
    forall i | 0 <= i < n && IsPrefix(p, text[i..])
      ensures e == Inner
    {
      PrefixOfLonger(p, text[i..], "$");
      assert (text[i..] + "$")[..|p|] == text[i..][..|p|];
      ExpectedPrefixInner(text, n, i, p);
    }
  }

  /** A string that runs along `t + "$"` runs along `t` unless it is one
      longer and ends with that '$'. */
  lemma PlainPrefix(p: string, t: string)
    requires IsPrefix(p, t + "$")
    ensures IsPrefix(p, t) || (|p| == |t| + 1 && p[|t|] == '$')
  {
    assert |p| <= |t| ==> (t + "$")[..|p|] == t[..|p|];
  }

  /** The place of a stored index ends with "$$". */
  lemma LeafEndsTwice(text: string, k: nat, x: string)
    requires k <= |text|
    ensures ExpectedKind(text, k, x + "$").Leaf? ==> x != [] && x[|x| - 1] == '$'
  {
    ExpectedShape(text, k, x + "$");
    if ExpectedKind(text, k, x + "$").Leaf? {
      var w := x + "$";
      assert x[|x| - 1] == w[|w| - 2];
    }
  }

  /** A path without '$' that has a '$' child in the built tree starts at
      some position of the text. */
  lemma PathOccurs(text: string, x: string)
    requires SentinelLast(text) && '$' !in x
    requires Descend(SuffixTreeOf(text), x + "$").Reached?
    ensures exists i :: 0 <= i < |text| && IsPrefix(x, text[i..])
  {
    var n := |text|;
    var w := x + "$";
    BuildKind(text, n, w);
    ExpectedShape(text, n, w);
    LeafEndsTwice(text, n, x);
    if !ExpectedKind(text, n, w).Leaf? {
      var i :| 0 <= i < n && IsPrefix(w, text[i..] + "$");
      PrefixTrans(x, w, text[i..] + "$");
      PlainPrefix(x, text[i..]);
    }
  }

  /** Soundness of `find_pattern` on a tree built from `text`: each value
      it returns hangs under '$' at the end of an extension `p + q` of the
      pattern, and `p + q` starts at some position of the text. */
  lemma FindPatternOccurs(text: string, p: string, m: nat)
    requires SentinelLast(text) && '$' !in p
    requires FindPatternSpec(SuffixTreeOf(text), p).Leaves? && m < |FindPatternSpec(SuffixTreeOf(text), p).values|
    ensures exists q, i ::
              0 <= i < |text| && IsPrefix(p + q, text[i..])
              && Descend(SuffixTreeOf(text), p + q + "$") == Reached(FindPatternSpec(SuffixTreeOf(text), p).values[m])
  {
    var t := SuffixTreeOf(text);
    var node := Descend(t, p).node;
    CollectSound(node, m);
    var q :| '$' !in q && Descend(node, q + "$") == Reached(Collect(node)[m]);
    DescendAppend(t, p, q + "$");
    assert p + (q + "$") == p + q + "$";
    assert '$' !in p + q;
    PathOccurs(text, p + q);
  }

  /** The tree of "aa": the suffixes "aa$" and "a$", each ended by the
      key '$' holding its start. */
  lemma TreeOfAa()
    ensures SentinelLast("aa")
    ensures SuffixTreeOf("aa") == Dict("a", map['a' := Dict("a$", map[
      'a' := Dict("$", map['$' := Dict("$", map['$' := Index(0)])]),
      '$' := Dict("$", map['$' := Index(1)])])])
  {
    var d0 := Dict("$", map['$' := Index(0)]);
    var t1 := Dict("a", map['a' := Dict("$", map['$' := d0])]);
    var t0 := Dict("a", map['a' := t1]);
    var leaf1 := Dict("$", map['$' := Index(1)]);
    AddFirstSuffix(d0, t1, t0);
    AddSecondSuffix(t1, t0, leaf1);
    assert "aa"[0..] + "$" == "aa$" && "aa"[1..] + "$" == "a$";
    assert BuildUpTo(EmptyDict, "aa", 1) == Some(t0);
  }

  lemma PutEmpty(c: char, x: Value)
    ensures Put(EmptyDict, c, x) == Dict([c], map[c := x])
  {
    assert [] + [c] == [c];
    assert map[][c := x] == map[c := x];
  }

  lemma AddFirstSuffix(d0: Value, t1: Value, t0: Value)
    requires d0 == Dict("$", map['$' := Index(0)])
    requires t1 == Dict("a", map['a' := Dict("$", map['$' := d0])])
    requires t0 == Dict("a", map['a' := t1])
    ensures AddSuffix(EmptyDict, "aa$", 0) == Some(t0)
  {
    PutEmpty('$', Index(0));
    PutEmpty('$', d0);
    PutEmpty('a', Dict("$", map['$' := d0]));
    PutEmpty('a', t1);
    assert AddSuffix(EmptyDict, "", 0) == Some(d0);
    assert "$"[1..] == "";
    assert AddSuffix(EmptyDict, "$", 0) == Some(Dict("$", map['$' := d0]));
    assert "a$"[1..] == "$";
    assert AddSuffix(EmptyDict, "a$", 0) == Some(t1);
    assert "aa$"[1..] == "a$";
  }

  lemma AddSecondSuffix(t1: Value, t0: Value, leaf1: Value)
    requires t1.Dict? && t1.keys == "a" && t1.entries.Keys == {'a'}
    requires t0 == Dict("a", map['a' := t1])
    requires leaf1 == Dict("$", map['$' := Index(1)])
    ensures AddSuffix(t0, "a$", 1) == Some(Dict("a", map['a' := Dict("a$", map['a' := t1.entries['a'], '$' := leaf1])]))
  {
    PutEmpty('$', Index(1));
    assert AddSuffix(EmptyDict, "", 1) == Some(leaf1);
    assert "$"[1..] == "";
    assert '$' !in t1.entries;
    var n1 := Put(t1, '$', leaf1);
    assert AddSuffix(t1, "$", 1) == Some(n1);
    assert t1.keys + ['$'] == "a$";
    assert t1.entries['$' := leaf1] == map['a' := t1.entries['a'], '$' := leaf1];
    assert n1 == Dict("a$", map['a' := t1.entries['a'], '$' := leaf1]);
    assert "a$"[1..] == "$";
    assert 'a' in t0.entries && t0.entries['a'] == t1;
    assert AddSuffix(t0, "a$", 1) == Some(Put(t0, 'a', n1));
    assert t0.entries['a' := n1] == map['a' := n1];
  }

  /** As written, `find_pattern` is neither what its documentation
      promises (start indices) nor complete: `_collect_leaves` stops at the
      first node holding '$', and that entry is the dictionary one level
      above a stored index. In the tree of "aa" the pattern "a" starts at 0
      and 1, but the lookup gives only the dictionary holding 1. */
  lemma FindPatternMissesStart()
    ensures SentinelLast("aa") && IsPrefix("a", "aa"[0..]) && IsPrefix("a", "aa"[1..])
    ensures FindPatternSpec(SuffixTreeOf("aa"), "a") == Leaves([Dict("$", map['$' := Index(1)])])
  {
    TreeOfAa();
    assert "a"[1..] == "";
  }

  /** The start indices stored anywhere below `d`, in key order: what
      `find_pattern` is documented to return. */
  function Indices(d: Value): seq<int>
    requires WF(d)
    decreases d, 1
  {
    match d
    case Index(n) => [n]
    case Dict(_, _) => IndicesFrom(d, 0)
  }

  function IndicesFrom(d: Value, k: nat): seq<int>
    requires d.Dict? && WF(d) && k <= |d.keys|
    decreases d, 0, |d.keys| - k
  {
    if k == |d.keys| then []
    else Indices(d.entries[d.keys[k]]) + IndicesFrom(d, k + 1)
  }

  /** Every collected index is stored at the end of some path below `d`. */
  lemma {:induction false} IndicesSound(d: Value, x: int)
    requires WF(d) && x in Indices(d)
    ensures exists q :: Descend(d, q) == Reached(Index(x))
    decreases d, 1
  {
    if d.Index? {
      assert Descend(d, []) == Reached(Index(x));
    } else {
      IndicesFromSound(d, 0, x);
    }
  }

  lemma {:induction false} IndicesFromSound(d: Value, k: nat, x: int)
    requires d.Dict? && WF(d) && k <= |d.keys| && x in IndicesFrom(d, k)
    ensures exists q :: Descend(d, q) == Reached(Index(x))
    decreases d, 0, |d.keys| - k
  {
    var c := d.keys[k];
    var child := d.entries[c];
    if x in Indices(child) {
      IndicesSound(child, x);
      var q :| Descend(child, q) == Reached(Index(x));
      assert ([c] + q)[0] == c && ([c] + q)[1..] == q;
      assert Descend(d, [c] + q) == Reached(Index(x));
    } else {
      IndicesFromSound(d, k + 1, x);
    }
  }

  /** Every index stored at the end of a path below `d` is collected. */
  lemma {:induction false} IndicesComplete(d: Value, q: string, x: int)
    requires WF(d) && Descend(d, q) == Reached(Index(x))
    ensures x in Indices(d)
    decreases |q|
  {
    if q != [] {
      var child := d.entries[q[0]];
      IndicesComplete(child, q[1..], x);
      var k :| 0 <= k < |d.keys| && d.keys[k] == q[0];
      IndicesFromHas(d, 0, k, x);
    }
  }

  lemma {:induction false} IndicesFromHas(d: Value, j: nat, k: nat, x: int)
    requires d.Dict? && WF(d) && j <= k < |d.keys| && x in Indices(d.entries[d.keys[k]])
    ensures x in IndicesFrom(d, j)
    decreases k - j
  {
    if j < k {
      IndicesFromHas(d, j + 1, k, x);
    }
  }

  /** The outcome of the lookup as documented: the start indices, `None`,
      or the TypeError of walking into a stored index. */
  datatype Occurrences = Starts(at: seq<int>) | NoMatch | Raises

  /** The lookup as documented: the start indices below the node the
      pattern leads to. */
  function FindStarts(root: Value, p: string): Occurrences
    requires WF(root)
  {
    match Descend(root, p)
    case Crash => Raises
    case Off => NoMatch
    case Reached(n) => Starts(Indices(n))
  }

  /** A pattern without '$' that runs along `t + "$$"` runs along `t`. */
  lemma PrefixBeforeSentinel(p: string, t: string)
    requires IsPrefix(p, t + "$" + "$") && '$' !in p
    ensures IsPrefix(p, t)
  {
    PlainPrefix(p, t + "$");
    PlainPrefix(p, t);
  }

  /** The corrected lookup in the tree of `text` gives, for a pattern
      without '$', `None` exactly when the pattern is not empty and starts
      nowhere in the text, never raises, and otherwise gives exactly the
      positions where the pattern starts. */
  lemma FindStartsCorrect(text: string, p: string)
    requires SentinelLast(text) && '$' !in p
    ensures FindStarts(SuffixTreeOf(text), p).NoMatch? <==>
      p != [] && forall i :: 0 <= i < |text| ==> !IsPrefix(p, text[i..])
    ensures !FindStarts(SuffixTreeOf(text), p).Raises?
    ensures FindStarts(SuffixTreeOf(text), p).Starts? ==>
      forall i :: i in FindStarts(SuffixTreeOf(text), p).at <==> 0 <= i < |text| && IsPrefix(p, text[i..])
  {
    var t := SuffixTreeOf(text);
    FindPatternAbsent(text, p);
    BuildKind(text, |text|, p);
    ExpectedShape(text, |text|, p);
    if Descend(t, p).Reached? {
      var node := Descend(t, p).node;
      forall i | i in Indices(node)
        ensures 0 <= i < |text| && IsPrefix(p, text[i..])
      {
        StartSound(text, p, node, i);
      }
      forall i | 0 <= i < |text| && IsPrefix(p, text[i..])
        ensures i in Indices(node)
      {
        StartComplete(text, p, node, i);
      }
    }
  }

  /** An index below the node of `p` is a start of `p`. */
  lemma StartSound(text: string, p: string, node: Value, i: int)
    requires SentinelLast(text) && '$' !in p && Descend(SuffixTreeOf(text), p) == Reached(node)
    requires i in Indices(node)
    ensures 0 <= i < |text| && IsPrefix(p, text[i..])
  {
    var t := SuffixTreeOf(text);
    IndicesSound(node, i);
    var q :| Descend(node, q) == Reached(Index(i));
    DescendAppend(t, p, q);
    BuildKind(text, |text|, p + q);
    ExpectedShape(text, |text|, p + q);
    assert ExpectedKind(text, |text|, p + q) == Leaf(i);
    assert IsPrefix(p, p + q);
    PrefixBeforeSentinel(p, text[i..]);
  }

  /** Every start of `p` is an index below the node of `p`. */
  lemma StartComplete(text: string, p: string, node: Value, i: int)
    requires SentinelLast(text) && '$' !in p && Descend(SuffixTreeOf(text), p) == Reached(node)
    requires 0 <= i < |text| && IsPrefix(p, text[i..])
    ensures i in Indices(node)
  {
    var t := SuffixTreeOf(text);
    StoredIndex(text, i);
    var w := text[i..] + "$" + "$";
    var q := w[|p|..];
    assert w == p + q;
    DescendAppend(t, p, q);
    IndicesComplete(node, q, i);
  }

  /** `_find_repeats(node, prefix, ...)` over the keys of `d` from the
      `k`-th on: for each non-'$' key, the entry for its path (if long and
      frequent enough) and then the repeats below it, in pre-order. */
  function Repeats(d: Value, prefix: string, k: nat, minLength: int, minRepeats: int): seq<(string, seq<Value>)>
    requires d.Dict? && WF(d) && k <= |d.keys|
    decreases d, |d.keys| - k
  {
    if k == |d.keys| then []
    else
      var c := d.keys[k];
      if c == '$' then Repeats(d, prefix, k + 1, minLength, minRepeats)
      else
        var child := d.entries[c];
        var path := prefix + [c];
        var leaves := Collect(child);
        (if |leaves| >= minRepeats && |path| >= minLength then [(path, leaves)] else [])
        + Repeats(child, path, 0, minLength, minRepeats)
        + Repeats(d, prefix, k + 1, minLength, minRepeats)
  }

  /** An entry `(s, leaves)` reported below `d` reached by `prefix`: `s`
      is `prefix` followed by a non-empty path without '$' from `d` to a
      dictionary, at least `minLength` long, and `leaves` are the at least
      `minRepeats` values collected there. */
  predicate ReportedUnder(d: Value, prefix: string, entry: (string, seq<Value>), minLength: int, minRepeats: int)
    requires WF(d)
  {
    var (s, leaves) := entry;
    |s| > |prefix| && s[..|prefix|] == prefix && '$' !in s[|prefix|..]
    && Descend(d, s[|prefix|..]).Reached? && Descend(d, s[|prefix|..]).node.Dict?
    && leaves == Collect(Descend(d, s[|prefix|..]).node) && |s| >= minLength && |leaves| >= minRepeats
  }

  /** Every reported repeat is `prefix` followed by a non-empty path
      without '$', long enough, whose node collects enough values. */
  lemma {:induction false} RepeatsSound(d: Value, prefix: string, k: nat, minLength: int, minRepeats: int, m: nat)
    requires d.Dict? && WF(d) && k <= |d.keys| && m < |Repeats(d, prefix, k, minLength, minRepeats)|
    ensures ReportedUnder(d, prefix, Repeats(d, prefix, k, minLength, minRepeats)[m], minLength, minRepeats)
    decreases d, |d.keys| - k
  {
    var c := d.keys[k];
    if c == '$' {
      RepeatsSound(d, prefix, k + 1, minLength, minRepeats, m);
    } else {
      var child := d.entries[c];
      var path := prefix + [c];
      var leaves := Collect(child);
      var head := if |leaves| >= minRepeats && |path| >= minLength then [(path, leaves)] else [];
      var below := Repeats(child, path, 0, minLength, minRepeats);
      var rest := Repeats(d, prefix, k + 1, minLength, minRepeats);
      assert Repeats(d, prefix, k, minLength, minRepeats) == head + below + rest;
      if m < |head| {
        assert path[|prefix|..] == [c];
        assert Descend(d, [c]) == Descend(child, []);
      } else if m < |head| + |below| {
        RepeatsBelow(d, prefix, c, minLength, minRepeats, m - |head|);
      } else {
        RepeatsSound(d, prefix, k + 1, minLength, minRepeats, m - |head| - |below|);
      }
    }
  }

  /** The repeats found under the child at key `c`, read from the parent. */
  lemma {:induction false} RepeatsBelow(d: Value, prefix: string, c: char, minLength: int, minRepeats: int, m: nat)
    requires d.Dict? && WF(d) && c in d.entries && c != '$'
    requires m < |Repeats(d.entries[c], prefix + [c], 0, minLength, minRepeats)|
    ensures ReportedUnder(d, prefix, Repeats(d.entries[c], prefix + [c], 0, minLength, minRepeats)[m], minLength, minRepeats)
    decreases d, 0
  {
    var child := d.entries[c];
    var path := prefix + [c];
    RepeatsSound(child, path, 0, minLength, minRepeats, m);
    var s := Repeats(child, path, 0, minLength, minRepeats)[m].0;
    var w := s[|path|..];
    assert s[..|prefix|] == s[..|path|][..|prefix|];
    assert s[|prefix|..] == [c] + w;
    assert ([c] + w)[1..] == w;
  }

  /** Every non-empty path without '$' that is long enough and whose node
      collects enough values is reported. */
  lemma {:induction false} RepeatsComplete(d: Value, prefix: string, k: nat, w: string, minLength: int, minRepeats: int)
    requires d.Dict? && WF(d) && k <= |d.keys| && w != [] && '$' !in w
    requires Descend(d, w).Reached? && Descend(d, w).node.Dict?
    requires |prefix + w| >= minLength && |Collect(Descend(d, w).node)| >= minRepeats
    requires w[0] in d.keys[k..]
    ensures (prefix + w, Collect(Descend(d, w).node)) in Repeats(d, prefix, k, minLength, minRepeats)
    decreases d, |d.keys| - k
  {
    var c := d.keys[k];
    if c != w[0] {
      RepeatsComplete(d, prefix, k + 1, w, minLength, minRepeats);
    } else {
      var child := d.entries[c];
      var path := prefix + [c];
      if |w| == 1 {
        assert path == prefix + w;
      } else {
        var w' := w[1..];
        assert prefix + w == path + w';
        assert w'[0] in child.keys[0..];
        RepeatsComplete(child, path, 0, w', minLength, minRepeats);
      }
    }
  }

  /** The suffix tree object: `root` is the nested dictionary, `end` the
      marker key and `index` a counter the code never uses. */
  class SuffixTree {
    var root: Value
    var end: char
    var index: int

    predicate Valid()
      reads this
    {
      WF(root) && root.Dict? && end == '$'
    }

    constructor ()
      ensures Valid() && root == EmptyDict && index == 0
    {
      root := EmptyDict;
      end := '$';
      index := 0;
    }

    /** `build_suffix_tree(text)`, for a text whose suffixes go in without
        a TypeError. */
    method BuildSuffixTree(text: string)
      requires Valid() && BuildUpTo(root, text, |text|).Some?
      modifies this
      ensures Valid() && root == BuildUpTo(old(root), text, |text|).value
      ensures end == old(end) && index == old(index)
    {
      var t := root;
      for i := 0 to |text|
        invariant unchanged(this)
        invariant BuildUpTo(root, text, i) == Some(t) && WF(t) && t.Dict?
      {
        BuildStep(root, text, i, t);
        t := AddSuffix(t, text[i..] + "$", i).value;
      }
      root := t;
    }

    /** `find_pattern(pattern)`. */
    method FindPattern(pattern: string) returns (r: Lookup)
      requires Valid()
      ensures r == FindPatternSpec(root, pattern)
    {
      var node := root;
      var i := 0;
      while i < |pattern|
        invariant 0 <= i <= |pattern|
        invariant Descend(root, pattern) == Descend(node, pattern[i..]) && WF(node)
      {
        if node.Index? {
          return TypeError;
        }
        if pattern[i] in node.entries {
          node := node.entries[pattern[i]];
        } else {
          return NotFound;
        }
        i := i + 1;
      }
      if node.Index? {
        return TypeError;
      }
      return Leaves(Collect(node));
    }

    /** `get_repeats(min_length, min_repeats)`. */
    method GetRepeats(minLength: int, minRepeats: int) returns (repeats: seq<(string, seq<Value>)>)
      requires Valid()
      ensures repeats == Repeats(root, "", 0, minLength, minRepeats)
    {
      repeats := Repeats(root, "", 0, minLength, minRepeats);
    }
  }

  /** One round of the `build_suffix_tree` loop, inside a build that
      completes. */
  lemma BuildStep(start: Value, text: string, i: nat, t: Value)
    requires i < |text| && BuildUpTo(start, text, |text|).Some?
    requires BuildUpTo(start, text, i) == Some(t) && WF(t)
    ensures AddSuffix(t, text[i..] + "$", i).Some?
    ensures BuildUpTo(start, text, i + 1) == AddSuffix(t, text[i..] + "$", i)
    ensures WF(AddSuffix(t, text[i..] + "$", i).value) && AddSuffix(t, text[i..] + "$", i).value.Dict?
  {
    BuildPrefixSome(start, text, i + 1, |text|);
    AddSuffixWF(t, text[i..] + "$", i);
  }

  /** A build that completes went through every shorter prefix of the
      loop without a TypeError. */
  lemma {:induction false} BuildPrefixSome(v: Value, text: string, k: nat, n: nat)
    requires k <= n <= |text| && BuildUpTo(v, text, n).Some?
    ensures BuildUpTo(v, text, k).Some?
    decreases n - k
  {
    if k < n {
      BuildPrefixSome(v, text, k + 1, n);
      BuildStepSome(v, text, k + 1);
    }
  }

  lemma BuildStepSome(v: Value, text: string, k: nat)
    requires 0 < k <= |text| && BuildUpTo(v, text, k).Some?
    ensures BuildUpTo(v, text, k - 1).Some?
  {
  }
}
