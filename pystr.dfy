/** The few operations of Python's `str` and `list` the scripts rely on:
    ASCII `upper`, indexing and slicing with negative bounds, and the
    columns of `zip`. */
module PyStr {
  /** `str.upper` on one ASCII character. */
  function UpperChar(c: char): char
  {
    if 'a' <= c <= 'z' then (c as int - 32) as char else c
  }

  function Upper(s: string): (r: string)
    ensures |r| == |s| && forall i :: 0 <= i < |s| ==> r[i] == UpperChar(s[i])
  {
    seq(|s|, i requires 0 <= i < |s| => UpperChar(s[i]))
  }

  /** Upper-casing twice is upper-casing once. */
  lemma UpperIdempotent(s: string)
    ensures forall i :: 0 <= i < |s| ==> UpperChar(Upper(s)[i]) == UpperChar(s[i])
    ensures Upper(Upper(s)) == Upper(s)
  {
  }

  /** Python's `s[k]`, with a negative `k` counting from the end. */
  function PyAt<T>(s: seq<T>, k: int): (x: T)
    requires -|s| <= k < |s|
    ensures k >= 0 ==> x == s[k]
    ensures k < 0 ==> x == s[|s| + k]
  {
    if k >= 0 then s[k] else s[|s| + k]
  }

  /** Python's slice bound normalisation: a negative bound counts from the
      end and the result is clamped to `[0, n]`. */
  function PyBound(n: nat, k: int): (r: nat)
    ensures r <= n
    ensures 0 <= k <= n ==> r == k
    ensures k > n ==> r == n
    ensures -(n as int) <= k < 0 ==> r == n + k
    ensures k < -(n as int) ==> r == 0
  {
    if k < 0 then (if n + k < 0 then 0 else n + k)
    else if k > n then n
    else k
  }

  /** Python's `s[i:j]`. */
  function PySlice<T>(s: seq<T>, i: int, j: int): (r: seq<T>)
    ensures |r| <= |s|
    ensures 0 <= i <= j <= |s| ==> r == s[i..j]
    ensures 0 <= i && |s| <= j ==> r == s[PyBound(|s|, i)..]
    ensures PyBound(|s|, j) <= PyBound(|s|, i) ==> r == []
  {
    var lo := PyBound(|s|, i);
    var hi := PyBound(|s|, j);
    if lo < hi then s[lo..hi] else []
  }

  /** `s[p:p + w]` is never longer than `w`. */
  lemma SliceWidth<T>(s: seq<T>, p: int, w: nat)
    ensures |PySlice(s, p, p + w)| <= w
  {
  }

  /** Column `i` of `zip(*motifs)`: `[motif[i] for motif in motifs]`. */
  function Column(motifs: seq<string>, i: nat): (r: seq<char>)
    requires forall k :: 0 <= k < |motifs| ==> i < |motifs[k]|
    ensures |r| == |motifs| && forall k :: 0 <= k < |motifs| ==> r[k] == motifs[k][i]
  {
    seq(|motifs|, k requires 0 <= k < |motifs| => motifs[k][i])
  }
}
