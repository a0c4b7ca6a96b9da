/** The reaction-line grammar of `ReactionGraph.parse_reactions`, written
    out by hand: `str.splitlines`, the line pattern
    `\s*(\w+)\s*:\s*(.*?)\s*(=>|<=>)\s*(.*)\s*` read with `re.match`, and
    `re.split(r'\s*\+\s*', side)`. */
module ReactionParse {
  import opened Optional

  /** The characters `\s` matches in a `str` pattern: those for which
      `str.isspace()` holds. */
  predicate IsSpace(c: char)
  {
    ('\t' <= c <= '\r') || ('\U{1C}' <= c <= ' ') || c == '\U{85}' || c == '\U{A0}' || c == '\U{1680}'
    || ('\U{2000}' <= c <= '\U{200A}') || c == '\U{2028}' || c == '\U{2029}' || c == '\U{202F}'
    || c == '\U{205F}' || c == '\U{3000}'
  }

  /** `\w` restricted to ASCII: letters, digits and the underscore. */
  predicate IsWord(c: char)
  {
    ('a' <= c <= 'z') || ('A' <= c <= 'Z') || ('0' <= c <= '9') || c == '_'
  }

  /** The characters `str.splitlines` breaks lines at. */
  predicate IsLineBreak(c: char)
  {
    ('\n' <= c <= '\r') || ('\U{1C}' <= c <= '\U{1E}') || c == '\U{85}' || c == '\U{2028}' || c == '\U{2029}'
  }

  predicate AllSpace(s: string)
  {
    forall i :: 0 <= i < |s| ==> IsSpace(s[i])
  }

  predicate AllWord(s: string)
  {
    forall i :: 0 <= i < |s| ==> IsWord(s[i])
  }

  predicate NoBreak(s: string)
  {
    forall i :: 0 <= i < |s| ==> !IsLineBreak(s[i])
  }

  /** The position of the first line break of `s` at or after `i`, or
      `|s|`. */
  function NextBreak(s: string, i: nat): (r: nat)
    requires i <= |s|
    ensures i <= r <= |s| && (r < |s| ==> IsLineBreak(s[r]))
    ensures forall k :: i <= k < r ==> !IsLineBreak(s[k])
    decreases |s| - i
  {
    if i == |s| || IsLineBreak(s[i]) then i else NextBreak(s, i + 1)
  }

  /** `s.splitlines()`: the lines of `s` without their line breaks, a
      `\r\n` counting as one break; no line follows a final break. */
  function SplitLines(s: string): (r: seq<string>)
    ensures forall k :: 0 <= k < |r| ==> NoBreak(r[k])
    ensures |s| == 0 <==> |r| == 0
    decreases |s|
  {
    if s == [] then []
    else
      var i := NextBreak(s, 0);
      if i == |s| then [s]
      else
        var next := if s[i] == '\r' && i + 1 < |s| && s[i + 1] == '\n' then i + 2 else i + 1;
        [s[..i]] + SplitLines(s[next..])
  }

  /** Each line followed by `\n`. */
  function JoinLines(ls: seq<string>): string
  {
    if ls == [] then [] else ls[0] + "\n" + JoinLines(ls[1..])
  }

  /** Lines written one per `\n` are read back as they were. */
  lemma {:induction false} SplitJoinLines(ls: seq<string>)
    requires forall k :: 0 <= k < |ls| ==> NoBreak(ls[k])
    ensures SplitLines(JoinLines(ls)) == ls
    decreases |ls|
  {
    if ls != [] {
      FirstLine(ls[0], JoinLines(ls[1..]));
      SplitJoinLines(ls[1..]);
    }
  }

  /** A line without breaks followed by `\n` is split off whole. */
  lemma FirstLine(l: string, rest: string)
    requires NoBreak(l)
    ensures SplitLines(l + "\n" + rest) == [l] + SplitLines(rest)
  {
    var s := l + "\n" + rest;
    assert s[|l|] == '\n';
    assert forall k :: 0 <= k < |l| ==> s[k] == l[k];
    NextBreakAt(s, 0, |l|);
    assert s[..|l|] == l;
    assert s[|l| + 1..] == rest;
  }

  lemma {:induction false} NextBreakAt(s: string, i: nat, j: nat)
    requires i <= j < |s| && IsLineBreak(s[j]) && forall k :: i <= k < j ==> !IsLineBreak(s[k])
    ensures NextBreak(s, i) == j
    decreases j - i
  {
    if i < j {
      NextBreakAt(s, i + 1, j);
    }
  }

  /** The end of the run of whitespace starting at `i`: `\s*`. */
  function SkipSpace(s: string, i: nat): (r: nat)
    requires i <= |s|
    ensures i <= r <= |s| && (r < |s| ==> !IsSpace(s[r]))
    ensures forall k :: i <= k < r ==> IsSpace(s[k])
    decreases |s| - i
  {
    if i < |s| && IsSpace(s[i]) then SkipSpace(s, i + 1) else i
  }

  /** The end of the run of word characters starting at `i`: `\w+`
      when it is not empty. */
  function SkipWord(s: string, i: nat): (r: nat)
    requires i <= |s|
    ensures i <= r <= |s| && (r < |s| ==> !IsWord(s[r]))
    ensures forall k :: i <= k < r ==> IsWord(s[k])
    decreases |s| - i
  {
    if i < |s| && IsWord(s[i]) then SkipWord(s, i + 1) else i
  }

  /** `=>` or `<=>` starts at `p`. */
  predicate ArrowAt(s: string, p: nat)
  {
    (p + 2 <= |s| && s[p] == '=' && s[p + 1] == '>')
    || (p + 3 <= |s| && s[p] == '<' && s[p + 1] == '=' && s[p + 2] == '>')
  }

  /** The first position at or after `i` where an arrow starts, or `|s|`. */
  function FindArrow(s: string, i: nat): (r: nat)
    requires i <= |s|
    ensures i <= r <= |s| && (r < |s| ==> ArrowAt(s, r))
    ensures forall p :: i <= p < r ==> !ArrowAt(s, p)
    decreases |s| - i
  {
    if i == |s| || ArrowAt(s, i) then i else FindArrow(s, i + 1)
  }

  /** The start of the whitespace that ends `s[lo..hi]`. */
  function TrimEnd(s: string, lo: nat, hi: nat): (r: nat)
    requires lo <= hi <= |s|
    ensures lo <= r <= hi && (r > lo ==> !IsSpace(s[r - 1]))
    ensures forall k :: r <= k < hi ==> IsSpace(s[k])
    decreases hi - lo
  {
    if hi > lo && IsSpace(s[hi - 1]) then TrimEnd(s, lo, hi - 1) else hi
  }

  /** The groups of a matching line; `reversible` says the arrow was
      `<=>`. */
  datatype ReactionLine = ReactionLine(name: string, reactants: string, reversible: bool, products: string)

  /** No arrow starts anywhere in `s`. */
  predicate NoArrow(s: string)
  {
    forall p :: 0 <= p < |s| ==> !ArrowAt(s, p)
  }

  /** `re.match(pattern, line)` for a line without line breaks: the name
      is the longest word after leading whitespace and must be followed,
      after whitespace, by a colon; the sides follow. A line of
      whitespace, or one without an arrow, does not match. */
  function ParseLine(line: string): (r: Option<ReactionLine>)
    ensures AllSpace(line) ==> r == None
    ensures NoArrow(line) ==> r == None
  {
    ParseName(line, SkipSpace(line, 0))
  }

  /** The match from `i0`, where the leading whitespace ends: `(\w+)`. */
  function ParseName(line: string, i0: nat): (r: Option<ReactionLine>)
    requires i0 <= |line|
    ensures i0 == |line| ==> r == None
    ensures NoArrow(line) ==> r == None
  {
    var j := SkipWord(line, i0);
    if j == i0 then None else ParseColon(line, line[i0..j], SkipSpace(line, j))
  }

  /** The match from `k`, where the whitespace after the name ends: the
      colon and the whitespace after it. */
  function ParseColon(line: string, name: string, k: nat): (r: Option<ReactionLine>)
    requires k <= |line|
    ensures NoArrow(line) ==> r == None
  {
    if k == |line| || line[k] != ':' then None
    else ParseSides(line, name, SkipSpace(line, k + 1))
  }

  /** The rest of the match from `r0`, where the whitespace after the
      colon ends: the reactants run, without the whitespace that ends
      them, up to the first arrow; the products are the rest of the line
      after the arrow and the whitespace that follows it. */
  function ParseSides(line: string, name: string, r0: nat): (r: Option<ReactionLine>)
    requires r0 <= |line|
    ensures NoArrow(line) ==> r == None
  {
    var p := FindArrow(line, r0);
    if p == |line| then None
    else
      var reversible := line[p] == '<';
      var e := if reversible then p + 3 else p + 2;
      Some(ReactionLine(name, line[r0..TrimEnd(line, r0, p)], reversible, line[SkipSpace(line, e)..]))
  }

  function ArrowText(reversible: bool): string
  {
    if reversible then "<=>" else "=>"
  }

  /** What a matched line holds: the name is a word, the reactants hold no
      arrow, and neither side starts with whitespace, nor do the reactants
      end with it; so every match renders back to a line with the same
      match. */
  lemma ParseLineSound(line: string)
    ensures ParseLine(line).Some? ==> Renderable(ParseLine(line).value)
  {
    NameSound(line, SkipSpace(line, 0));
  }

  lemma NameSound(line: string, i0: nat)
    requires i0 <= |line|
    ensures ParseName(line, i0).Some? ==> Renderable(ParseName(line, i0).value)
  {
    var j := SkipWord(line, i0);
    if j != i0 {
      WordSlice(line, i0, j);
      ColonSound(line, line[i0..j], SkipSpace(line, j));
    }
  }

  lemma ColonSound(line: string, name: string, k: nat)
    requires k <= |line| && |name| > 0 && AllWord(name)
    ensures ParseColon(line, name, k).Some? ==> Renderable(ParseColon(line, name, k).value)
  {
    if k < |line| && line[k] == ':' {
      SidesSound(line, name, SkipSpace(line, k + 1));
    }
  }

  lemma WordSlice(s: string, i: nat, j: nat)
    requires i <= j <= |s| && forall k :: i <= k < j ==> IsWord(s[k])
    ensures AllWord(s[i..j])
  {
    forall a | 0 <= a < j - i
      ensures IsWord(s[i..j][a])
    {
      assert s[i..j][a] == s[i + a];
    }
  }

  lemma SidesSound(line: string, name: string, r0: nat)
    requires r0 <= |line| && (r0 < |line| ==> !IsSpace(line[r0]))
    ensures var r := ParseSides(line, name, r0);
      r.Some? ==>
        r.value.name == name && NoArrow(r.value.reactants)
        && (|r.value.reactants| > 0 ==> !IsSpace(r.value.reactants[0]) && !IsSpace(r.value.reactants[|r.value.reactants| - 1]))
        && (|r.value.products| > 0 ==> !IsSpace(r.value.products[0]))
  {
    var p := FindArrow(line, r0);
    if p < |line| {
      var lhs := line[r0..TrimEnd(line, r0, p)];
      forall a | 0 <= a < |lhs|
        ensures !ArrowAt(lhs, a)
      {
        assert !ArrowAt(line, r0 + a);
      }
    }
  }

  /** The line `name: reactants => products` (or `<=>`) as a user would
      write it. */
  function Render(x: ReactionLine): string
  {
    x.name + ": " + x.reactants + " " + ArrowText(x.reversible) + " " + x.products
  }

  /** The conditions under which a rendered line reads back as written:
      the name is a word and the sides are as the pattern reads them. */
  predicate Renderable(x: ReactionLine)
  {
    |x.name| > 0 && AllWord(x.name) && NoArrow(x.reactants)
    && (|x.reactants| > 0 ==> !IsSpace(x.reactants[0]) && !IsSpace(x.reactants[|x.reactants| - 1]))
    && (|x.products| > 0 ==> !IsSpace(x.products[0]))
  }

  /** A rendered line is matched with the groups it was made from. */
  lemma ParseRender(x: ReactionLine)
    requires Renderable(x)
    ensures ParseLine(Render(x)) == Some(x)
  {
    var r0 := if |x.reactants| > 0 then |x.name| + 2 else |x.name| + |x.reactants| + 3;
    calc {
      ParseLine(Render(x));
    == { RenderLayout(x); LayoutName(Render(x), x); }
      ParseSides(Render(x), x.name, SkipSpace(Render(x), |x.name| + 1));
    == { RenderLayout(x); LayoutStart(Render(x), x); }
      ParseSides(Render(x), x.name, r0);
    == { RenderLayout(x); LayoutRest(Render(x), x, r0); }
      Some(x);
    }
  }

  /** Past the name: the arrow is the one written, and the sides are found
      around it. */
  lemma LayoutRest(line: string, x: ReactionLine, r0: nat)
    requires Renderable(x) && Layout(line, x)
    requires r0 == if |x.reactants| > 0 then |x.name| + 2 else |x.name| + |x.reactants| + 3
    ensures r0 <= |line| && ParseSides(line, x.name, r0) == Some(x)
  {
    LayoutFound(line, x, r0);
    LayoutSides(line, x, r0, |x.name| + |x.reactants| + 3);
  }

  lemma LayoutFound(line: string, x: ReactionLine, r0: nat)
    requires Renderable(x) && Layout(line, x)
    requires r0 == if |x.reactants| > 0 then |x.name| + 2 else |x.name| + |x.reactants| + 3
    ensures SidesFound(line, x, r0, |x.name| + |x.reactants| + 3)
  {
    LayoutArrow(line, x, r0);
    LayoutArrowKind(line, x);
    LayoutReactants(line, x, r0);
    LayoutProducts(line, x);
  }

  /** Where the parts of the line `x` renders to sit in `line`. */
  predicate Layout(line: string, x: ReactionLine)
  {
    var n := |x.name|; var l := |x.reactants|;
    var p := n + l + 3; var e := p + |ArrowText(x.reversible)|;
    |line| == e + 1 + |x.products|
    && line[..n] == x.name && line[n] == ':' && line[n + 1] == ' '
    && line[n + 2..n + 2 + l] == x.reactants && line[n + 2 + l] == ' '
    && line[p..e] == ArrowText(x.reversible) && line[e] == ' ' && line[e + 1..] == x.products
  }

  lemma RenderLayout(x: ReactionLine)
    ensures Layout(Render(x), x)
  {
    var line := Render(x);
    var n, l := |x.name|, |x.reactants|;
    RenderHead(x.name, x.reactants, ArrowText(x.reversible), x.products);
    RenderTail(line, n + l + 3, ArrowText(x.reversible), x.products);
  }

  lemma RenderHead(name: string, lhs: string, a: string, rhs: string)
    ensures var line := name + ": " + lhs + " " + a + " " + rhs; var n := |name|;
      line[..n] == name && line[n] == ':' && line[n + 1] == ' '
      && line[n + 2..n + 2 + |lhs|] == lhs && line[n + 2 + |lhs|] == ' ' && line[n + |lhs| + 3..] == a + " " + rhs
  {
    var line := name + ": " + lhs + " " + a + " " + rhs;
    assert line == name + (": " + (lhs + (" " + (a + " " + rhs))));
  }

  lemma RenderTail(line: string, p: nat, a: string, rhs: string)
    requires p <= |line| && line[p..] == a + " " + rhs
    ensures var e := p + |a|;
      |line| == e + 1 + |rhs| && line[p..e] == a && line[e] == ' ' && line[e + 1..] == rhs
  {
    var e := p + |a|;
    assert line[p..][..|a|] == a;
    assert line[p..][|a|] == ' ';
    assert line[p..][|a| + 1..] == rhs;
  }

  /** The name and the colon. */
  lemma LayoutName(line: string, x: ReactionLine)
    requires Renderable(x) && Layout(line, x)
    ensures ParseLine(line) == ParseSides(line, x.name, SkipSpace(line, |x.name| + 1))
  {
    var n := |x.name|;
    assert forall i :: 0 <= i < n ==> line[i] == x.name[i];
    SkipSpaceAt(line, 0, 0);
    SkipWordAt(line, 0, n);
    SkipSpaceAt(line, n, n);
  }

  /** The whitespace after the colon. */
  lemma LayoutStart(line: string, x: ReactionLine)
    requires Renderable(x) && Layout(line, x)
    ensures SkipSpace(line, |x.name| + 1)
      == if |x.reactants| > 0 then |x.name| + 2 else |x.name| + |x.reactants| + 3
  {
    var n := |x.name|;
    if |x.reactants| > 0 {
      assert line[n + 2] == x.reactants[0];
      SkipSpaceAt(line, n + 1, n + 2);
    } else {
      assert line[n + 3] == ArrowText(x.reversible)[0];
      SkipSpaceAt(line, n + 1, n + 3);
    }
  }

  /** The first arrow is the one written. */
  lemma LayoutArrow(line: string, x: ReactionLine, r0: nat)
    requires Renderable(x) && Layout(line, x)
    requires r0 == if |x.reactants| > 0 then |x.name| + 2 else |x.name| + |x.reactants| + 3
    ensures r0 <= |line| && FindArrow(line, r0) == |x.name| + |x.reactants| + 3
  {
    var n, l := |x.name|, |x.reactants|;
    var p := n + l + 3;
    assert line[n + 2..n + 2 + l] == x.reactants && line[n + 2 + l] == ' ';
    NoArrowBefore(line, n + 2, x.reactants);
    assert line[p..p + |ArrowText(x.reversible)|] == ArrowText(x.reversible);
    ArrowWritten(line, p, x.reversible);
    FindArrowAt(line, r0, p);
  }

  /** No arrow starts inside the arrow-free `w` written at `lo` and
      followed by a space, nor at that space. */
  lemma NoArrowBefore(line: string, lo: nat, w: string)
    requires lo + |w| < |line| && line[lo..lo + |w|] == w && line[lo + |w|] == ' ' && NoArrow(w)
    ensures forall a :: lo <= a <= lo + |w| ==> !ArrowAt(line, a)
  {
    forall a | lo <= a <= lo + |w|
      ensures !ArrowAt(line, a)
    {
      if a < lo + |w| {
        assert !ArrowAt(w, a - lo);
        assert line[a] == w[a - lo];
        if a + 1 < lo + |w| {
          assert line[a + 1] == w[a - lo + 1];
        }
        if a + 2 < lo + |w| {
          assert line[a + 2] == w[a - lo + 2];
        }
      }
    }
  }

  /** An arrow written at `p` is found there, and tells which it is. */
  lemma ArrowWritten(line: string, p: nat, reversible: bool)
    requires p + |ArrowText(reversible)| <= |line| && line[p..p + |ArrowText(reversible)|] == ArrowText(reversible)
    ensures ArrowAt(line, p) && (line[p] == '<') == reversible
  {
    var a := ArrowText(reversible);
    assert line[p] == a[0] && line[p + 1] == a[1];
    if reversible {
      assert line[p + 2] == a[2];
    }
  }

  /** The two sides, from where the arrow, the reactants and the products
      were found. */
  lemma LayoutSides(line: string, x: ReactionLine, r0: nat, p: nat)
    requires SidesFound(line, x, r0, p)
    ensures ParseSides(line, x.name, r0) == Some(x)
  {
    SidesValue(line, x.name, r0, p, TrimEnd(line, r0, p), ArrowEnd(x), SkipSpace(line, ArrowEnd(x)));
  }

  /** What `ParseSides` finds in the line `x` renders to, from `r0`: the
      arrow at `p`, then the reactants and the products around it. */
  predicate SidesFound(line: string, x: ReactionLine, r0: nat, p: nat)
  {
    r0 <= |line| && FindArrow(line, r0) == p < |line| && (line[p] == '<') == x.reversible
    && ArrowEnd(x) == (if line[p] == '<' then p + 3 else p + 2) && ArrowEnd(x) <= |line|
    && r0 <= TrimEnd(line, r0, p) <= p && line[r0..TrimEnd(line, r0, p)] == x.reactants
    && SkipSpace(line, ArrowEnd(x)) <= |line| && line[SkipSpace(line, ArrowEnd(x))..] == x.products
  }

  /** Where the arrow of the line `x` renders to ends. */
  function ArrowEnd(x: ReactionLine): nat
  {
    |x.name| + |x.reactants| + 3 + |ArrowText(x.reversible)|
  }

  lemma LayoutArrowKind(line: string, x: ReactionLine)
    requires Layout(line, x)
    ensures var p := |x.name| + |x.reactants| + 3;
      p < |line| && (line[p] == '<') == x.reversible
      && ArrowEnd(x) == (if line[p] == '<' then p + 3 else p + 2) && ArrowEnd(x) <= |line|
  {
    var p := |x.name| + |x.reactants| + 3;
    assert line[p..ArrowEnd(x)] == ArrowText(x.reversible);
    ArrowWritten(line, p, x.reversible);
  }

  lemma LayoutReactants(line: string, x: ReactionLine, r0: nat)
    requires Renderable(x) && Layout(line, x)
    requires r0 == if |x.reactants| > 0 then |x.name| + 2 else |x.name| + |x.reactants| + 3
    ensures var p := |x.name| + |x.reactants| + 3;
      r0 <= p <= |line| && r0 <= TrimEnd(line, r0, p) <= p && line[r0..TrimEnd(line, r0, p)] == x.reactants
  {
    var n := |x.name|;
    assert line[n + 2..n + 2 + |x.reactants|] == x.reactants && line[n + 2 + |x.reactants|] == ' ';
    ReactantsEnd(line, r0, n + 2, n + |x.reactants| + 3, x.reactants);
  }

  lemma LayoutProducts(line: string, x: ReactionLine)
    requires Renderable(x) && Layout(line, x)
    ensures ArrowEnd(x) < |line| && SkipSpace(line, ArrowEnd(x)) <= |line|
    ensures line[SkipSpace(line, ArrowEnd(x))..] == x.products
  {
    var e := ArrowEnd(x);
    assert |line| == e + 1 + |x.products| && line[e] == ' ' && line[e + 1..] == x.products;
    ProductsStart(line, e, x.products);
  }

  /** The reactants `w`, written at `lo` and followed by one space, end
      where the arrow found at `p` begins. */
  lemma ReactantsEnd(line: string, r0: nat, lo: nat, p: nat, w: string)
    requires lo + |w| + 1 == p && p <= |line|
    requires line[lo..lo + |w|] == w && line[lo + |w|] == ' '
    requires r0 == if |w| > 0 then lo else p
    requires |w| > 0 ==> !IsSpace(w[|w| - 1])
    ensures r0 <= p && TrimEnd(line, r0, p) == (if |w| > 0 then lo + |w| else p)
    ensures line[r0..TrimEnd(line, r0, p)] == w
  {
    if |w| > 0 {
      assert line[lo + |w| - 1] == w[|w| - 1];
      TrimEndAt(line, r0, p, lo + |w|);
    }
  }

  /** The products `w` follow one space at `e` and end the line. */
  lemma ProductsStart(line: string, e: nat, w: string)
    requires e < |line| && |line| == e + 1 + |w| && line[e] == ' ' && line[e + 1..] == w
    requires |w| > 0 ==> !IsSpace(w[0])
    ensures SkipSpace(line, e) == e + 1 && line[SkipSpace(line, e)..] == w
  {
    if |w| > 0 {
      assert line[e + 1] == w[0];
    }
    SkipSpaceAt(line, e, e + 1);
  }

  /** `ParseSides` from the positions it finds. */
  lemma SidesValue(line: string, name: string, r0: nat, p: nat, q: nat, e: nat, b: nat)
    requires r0 <= |line| && FindArrow(line, r0) == p < |line| && r0 <= q <= p && TrimEnd(line, r0, p) == q
    requires e == (if line[p] == '<' then p + 3 else p + 2) && e <= |line|
    requires b <= |line| && SkipSpace(line, e) == b
    ensures ParseSides(line, name, r0) == Some(ReactionLine(name, line[r0..q], line[p] == '<', line[b..]))
  {
  }

  lemma {:induction false} SkipSpaceAt(s: string, i: nat, j: nat)
    requires i <= j <= |s| && (j < |s| ==> !IsSpace(s[j])) && forall k :: i <= k < j ==> IsSpace(s[k])
    ensures SkipSpace(s, i) == j
    decreases j - i
  {
    if i < j {
      SkipSpaceAt(s, i + 1, j);
    }
  }

  lemma {:induction false} SkipWordAt(s: string, i: nat, j: nat)
    requires i <= j <= |s| && (j < |s| ==> !IsWord(s[j])) && forall k :: i <= k < j ==> IsWord(s[k])
    ensures SkipWord(s, i) == j
    decreases j - i
  {
    if i < j {
      SkipWordAt(s, i + 1, j);
    }
  }

  lemma {:induction false} FindArrowAt(s: string, i: nat, j: nat)
    requires i <= j < |s| && ArrowAt(s, j) && forall k :: i <= k < j ==> !ArrowAt(s, k)
    ensures FindArrow(s, i) == j
    decreases j - i
  {
    if i < j {
      FindArrowAt(s, i + 1, j);
    }
  }

  lemma {:induction false} TrimEndAt(s: string, lo: nat, hi: nat, q: nat)
    requires lo <= q <= hi <= |s| && (q > lo ==> !IsSpace(s[q - 1])) && forall k :: q <= k < hi ==> IsSpace(s[k])
    ensures TrimEnd(s, lo, hi) == q
    decreases hi - q
  {
    if hi > q {
      TrimEndAt(s, lo, hi - 1, q);
    }
  }

  /** `re.split(r'\s*\+\s*', s)`: the pieces between the `+` signs, each
      without the whitespace next to a `+`; the first keeps its leading
      whitespace and the last its trailing whitespace. */
  function SplitPlus(s: string): (r: seq<string>)
    ensures |r| > 0
  {
    SplitPieces(s, true)
  }

  /** The pieces of `s`; `first` says no `+` came before it, so its
      leading whitespace stays. */
  function SplitPieces(s: string, first: bool): (r: seq<string>)
    ensures |r| > 0
    decreases |s|, 1
  {
    var start := if first then 0 else SkipSpace(s, 0);
    assert start <= PlusIndex(s, 0);
    PiecesFrom(s, start, PlusIndex(s, 0))
  }

  /** The pieces of `s` when the first piece starts at `start` and the
      first `+` is at `i`. */
  function PiecesFrom(s: string, start: nat, i: nat): (r: seq<string>)
    requires start <= i <= |s|
    ensures |r| > 0
    decreases |s|, 0
  {
    if i == |s| then [s[start..]]
    else [s[start..TrimEnd(s, start, i)]] + SplitPieces(s[i + 1..], false)
  }

  /** The position of the first `+` at or after `i`, or `|s|`. */
  function PlusIndex(s: string, i: nat): (r: nat)
    requires i <= |s|
    ensures i <= r <= |s| && (r < |s| ==> s[r] == '+')
    ensures forall k :: i <= k < r ==> s[k] != '+'
    decreases |s| - i
  {
    if i == |s| || s[i] == '+' then i else PlusIndex(s, i + 1)
  }

  /** The items separated by `" + "`. */
  function JoinPlus(xs: seq<string>): string
    requires |xs| > 0
  {
    if |xs| == 1 then xs[0] else xs[0] + " + " + JoinPlus(xs[1..])
  }

  /** An item `re.split` gives back unchanged: not empty, no `+`, and no
      whitespace at either end. */
  predicate PlainItem(x: string)
  {
    |x| > 0 && !IsSpace(x[0]) && !IsSpace(x[|x| - 1]) && forall k :: 0 <= k < |x| ==> x[k] != '+'
  }

  /** Items joined with `" + "` are split back into the same items. */
  lemma SplitJoinPlus(xs: seq<string>)
    requires |xs| > 0 && forall k :: 0 <= k < |xs| ==> PlainItem(xs[k])
    ensures SplitPlus(JoinPlus(xs)) == xs
  {
    assert [] + JoinPlus(xs) == JoinPlus(xs);
    SplitJoinPieces(xs, [], true);
  }

  /** The same for the pieces after a `+`, whose leading whitespace `pad`
      the separator takes. */
  lemma {:induction false} SplitJoinPieces(xs: seq<string>, pad: string, first: bool)
    requires |xs| > 0 && forall k :: 0 <= k < |xs| ==> PlainItem(xs[k])
    requires AllSpace(pad) && (first ==> pad == [])
    ensures SplitPieces(pad + JoinPlus(xs), first) == xs
    decreases |xs|
  {
    if |xs| == 1 {
      calc {
        SplitPieces(pad + JoinPlus(xs), first);
        { assert JoinPlus(xs) == xs[0]; }
        SplitPieces(pad + xs[0], first);
        { OneItem(pad, xs[0], first); }
        [xs[0]];
        xs;
      }
    } else {
      calc {
        SplitPieces(pad + JoinPlus(xs), first);
        { FirstPiece(xs, pad, first); }
        [xs[0]] + SplitPieces(" " + JoinPlus(xs[1..]), false);
        { SplitJoinPieces(xs[1..], " ", false); }
        [xs[0]] + xs[1..];
        xs;
      }
    }
  }

  /** The first of several joined pieces is split off before the rest. */
  lemma FirstPiece(xs: seq<string>, pad: string, first: bool)
    requires |xs| > 1 && PlainItem(xs[0]) && AllSpace(pad) && (first ==> pad == [])
    ensures SplitPieces(pad + JoinPlus(xs), first) == [xs[0]] + SplitPieces(" " + JoinPlus(xs[1..]), false)
  {
    var rest := JoinPlus(xs[1..]);
    assert pad + JoinPlus(xs) == pad + xs[0] + " + " + rest;
    ItemStep(pad, xs[0], rest, first);
  }

  lemma OneItem(pad: string, x: string, first: bool)
    requires PlainItem(x) && AllSpace(pad) && (first ==> pad == [])
    ensures SplitPieces(pad + x, first) == [x]
  {
    var s := pad + x;
    var a := |pad|;
    assert forall k :: 0 <= k < a ==> s[k] == pad[k];
    assert forall k :: 0 <= k < |x| ==> s[a + k] == x[k];
    assert s[a..] == x;
    SkipSpaceAt(s, 0, a);
    PlusIndexNone(s, 0);
    LastPiece(s, first, a);
  }

  lemma ItemStep(pad: string, x: string, rest: string, first: bool)
    requires PlainItem(x) && AllSpace(pad) && (first ==> pad == [])
    ensures SplitPieces(pad + x + " + " + rest, first) == [x] + SplitPieces(" " + rest, false)
  {
    SkipPad(pad, x, rest);
    PlusAfter(pad, x, rest);
    TrimSpace(pad, x, rest);
    ItemSlices(pad, x, rest);
    PieceStep(pad + x + " + " + rest, first, |pad|, x, |pad| + |x| + 1, " " + rest);
  }

  lemma SkipPad(pad: string, x: string, rest: string)
    requires AllSpace(pad) && PlainItem(x)
    ensures SkipSpace(pad + x + " + " + rest, 0) == |pad|
  {
    var s := pad + x + " + " + rest;
    assert forall k :: 0 <= k < |pad| ==> s[k] == pad[k];
    assert s[|pad|] == x[0];
    SkipSpaceAt(s, 0, |pad|);
  }

  lemma PlusAfter(pad: string, x: string, rest: string)
    requires AllSpace(pad) && PlainItem(x)
    ensures PlusIndex(pad + x + " + " + rest, 0) == |pad| + |x| + 1
  {
    var s := pad + x + " + " + rest;
    assert forall k :: 0 <= k < |pad| ==> s[k] == pad[k];
    assert forall k :: 0 <= k < |x| ==> s[|pad| + k] == x[k];
    PlusIndexAt(s, 0, |pad| + |x| + 1);
  }

  lemma TrimSpace(pad: string, x: string, rest: string)
    requires PlainItem(x)
    ensures TrimEnd(pad + x + " + " + rest, |pad|, |pad| + |x| + 1) == |pad| + |x|
  {
    var s := pad + x + " + " + rest;
    assert s[|pad| + |x| - 1] == x[|x| - 1];
    assert s[|pad| + |x|] == ' ';
    TrimEndAt(s, |pad|, |pad| + |x| + 1, |pad| + |x|);
  }

  lemma ItemSlices(pad: string, x: string, rest: string)
    ensures (pad + x + " + " + rest)[|pad|..|pad| + |x|] == x
    ensures (pad + x + " + " + rest)[|pad| + |x| + 2..] == " " + rest
  {
  }

  /** One step of `SplitPieces`, from the positions it finds. */
  lemma PieceStep(s: string, first: bool, a: nat, x: string, i: nat, t: string)
    requires a <= |s| && (if first then a == 0 else SkipSpace(s, 0) == a)
    requires i < |s| && PlusIndex(s, 0) == i && a + |x| <= i && TrimEnd(s, a, i) == a + |x| && s[a..a + |x|] == x
    requires s[i + 1..] == t
    ensures SplitPieces(s, first) == [x] + SplitPieces(t, false)
  {
    assert SplitPieces(s, first) == PiecesFrom(s, a, i);
  }

  /** The last step of `SplitPieces`, when no `+` is left. */
  lemma LastPiece(s: string, first: bool, a: nat)
    requires a <= |s| && (if first then a == 0 else SkipSpace(s, 0) == a) && PlusIndex(s, 0) == |s|
    ensures SplitPieces(s, first) == [s[a..]]
  {
    assert SplitPieces(s, first) == PiecesFrom(s, a, |s|);
  }

  lemma {:induction false} PlusIndexNone(s: string, i: nat)
    requires i <= |s| && forall k :: i <= k < |s| ==> s[k] != '+'
    ensures PlusIndex(s, i) == |s|
    decreases |s| - i
  {
    if i < |s| {
      PlusIndexNone(s, i + 1);
    }
  }

  lemma {:induction false} PlusIndexAt(s: string, i: nat, j: nat)
    requires i <= j < |s| && s[j] == '+' && forall k :: i <= k < j ==> s[k] != '+'
    ensures PlusIndex(s, i) == j
    decreases j - i
  {
    if i < j {
      PlusIndexAt(s, i + 1, j);
    }
  }

  /** Items joined with `" + "` start with the first character of the
      first item and end with the last character of the last item. */
  lemma {:induction false} JoinPlusEnds(xs: seq<string>)
    requires |xs| > 0 && forall k :: 0 <= k < |xs| ==> PlainItem(xs[k])
    ensures var j := JoinPlus(xs); var z := xs[|xs| - 1];
      |xs[0]| > 0 && |z| > 0 && |j| > 0 && j[0] == xs[0][0] && j[|j| - 1] == z[|z| - 1]
    decreases |xs|
  {
    assert PlainItem(xs[0]) && PlainItem(xs[|xs| - 1]);
    if |xs| > 1 {
      var t := JoinPlus(xs[1..]);
      JoinPlusEnds(xs[1..]);
      assert xs[1..][|xs[1..]| - 1] == xs[|xs| - 1];
      assert JoinPlus(xs) == (xs[0] + " + ") + t;
    }
  }

  lemma NoBreakAppend(a: string, b: string)
    requires NoBreak(a) && NoBreak(b)
    ensures NoBreak(a + b)
  {
    forall i | 0 <= i < |a + b|
      ensures !IsLineBreak((a + b)[i])
    {
      if i >= |a| {
        assert (a + b)[i] == b[i - |a|];
      }
    }
  }

  /** Items without line breaks, joined with `" + "`, hold none. */
  lemma {:induction false} JoinPlusNoBreak(xs: seq<string>)
    requires |xs| > 0 && forall k :: 0 <= k < |xs| ==> NoBreak(xs[k])
    ensures NoBreak(JoinPlus(xs))
    decreases |xs|
  {
    if |xs| > 1 {
      JoinPlusNoBreak(xs[1..]);
      NoBreakAppend(xs[0], " + ");
      NoBreakAppend(xs[0] + " + ", JoinPlus(xs[1..]));
    }
  }

  /** A line rendered from parts without line breaks holds none. */
  lemma RenderNoBreak(x: ReactionLine)
    requires AllWord(x.name) && NoBreak(x.reactants) && NoBreak(x.products)
    ensures NoBreak(Render(x))
  {
    var a := ArrowText(x.reversible);
    assert NoBreak(a) && NoBreak(x.name);
    NoBreakAppend(x.name, ": ");
    NoBreakAppend(x.name + ": ", x.reactants);
    NoBreakAppend(x.name + ": " + x.reactants, " ");
    NoBreakAppend(x.name + ": " + x.reactants + " ", a);
    NoBreakAppend(x.name + ": " + x.reactants + " " + a, " ");
    NoBreakAppend(x.name + ": " + x.reactants + " " + a + " ", x.products);
  }

  /** A reaction as `parse_reactions` hands it to `add_reaction`: its
      name, the pieces of both sides and whether it is reversible. */
  datatype Reaction = Reaction(name: string, reactants: seq<string>, products: seq<string>, reversible: bool)

  /** One line of `parse_reactions`: the match, with both sides split on
      `+`. */
  function ReadLine(line: string): (r: Option<Reaction>)
    ensures AllSpace(line) || NoArrow(line) ==> r == None
  {
    match ParseLine(line)
    case None => None
    case Some(x) => Some(Reaction(x.name, SplitPlus(x.reactants), SplitPlus(x.products), x.reversible))
  }

  /** A reaction read from a line has a word as its name and at least
      one piece on each side. */
  lemma ReadLineSound(line: string)
    ensures var r := ReadLine(line);
      r.Some? ==> |r.value.name| > 0 && AllWord(r.value.name) && |r.value.reactants| > 0 && |r.value.products| > 0
  {
    ParseLineSound(line);
  }

  /** Every line of a text, read. */
  function ReadLines(lines: seq<string>): seq<Option<Reaction>>
  {
    seq(|lines|, k requires 0 <= k < |lines| => ReadLine(lines[k]))
  }

  /** The reactions a line can be written for: the name is a word, and
      each side is a non-empty list of pieces without whitespace at
      their ends, `+` or line breaks, and the reactants hold no arrow. */
  predicate Writable(x: Reaction)
  {
    |x.name| > 0 && AllWord(x.name) && |x.reactants| > 0 && |x.products| > 0
    && (forall k :: 0 <= k < |x.reactants| ==> PlainItem(x.reactants[k]) && NoBreak(x.reactants[k]))
    && (forall k :: 0 <= k < |x.products| ==> PlainItem(x.products[k]) && NoBreak(x.products[k]))
    && NoArrow(JoinPlus(x.reactants))
  }

  /** The line `name: a + b => c + d` (or `<=>`) for a reaction. */
  function WriteLine(x: Reaction): string
    requires |x.reactants| > 0 && |x.products| > 0
  {
    Render(ReactionLine(x.name, JoinPlus(x.reactants), x.reversible, JoinPlus(x.products)))
  }

  /** A written line has no line break and reads back as the reaction it
      was written for. */
  lemma ReadWriteLine(x: Reaction)
    requires Writable(x)
    ensures NoBreak(WriteLine(x)) && ReadLine(WriteLine(x)) == Some(x)
  {
    var l := ReactionLine(x.name, JoinPlus(x.reactants), x.reversible, JoinPlus(x.products));
    JoinPlusEnds(x.reactants);
    JoinPlusEnds(x.products);
    assert Renderable(l);
    ParseRender(l);
    SplitJoinPlus(x.reactants);
    SplitJoinPlus(x.products);
    JoinPlusNoBreak(x.reactants);
    JoinPlusNoBreak(x.products);
    RenderNoBreak(l);
  }

  /** The text with one written line per reaction. */
  function WriteLines(xs: seq<Reaction>): string
    requires forall k :: 0 <= k < |xs| ==> Writable(xs[k])
  {
    JoinLines(seq(|xs|, k requires 0 <= k < |xs| && Writable(xs[k]) => WriteLine(xs[k])))
  }

  /** A text written for some reactions reads back, line by line, as
      those reactions. */
  lemma ReadWriteLines(xs: seq<Reaction>)
    requires forall k :: 0 <= k < |xs| ==> Writable(xs[k])
    ensures var r := ReadLines(SplitLines(WriteLines(xs)));
      |r| == |xs| && forall k :: 0 <= k < |xs| ==> r[k] == Some(xs[k])
  {
    var ls := seq(|xs|, k requires 0 <= k < |xs| && Writable(xs[k]) => WriteLine(xs[k]));
    forall k | 0 <= k < |xs|
      ensures NoBreak(ls[k]) && ReadLine(ls[k]) == Some(xs[k])
    {
      ReadWriteLine(xs[k]);
    }
    SplitJoinLines(ls);
  }
}
