/** Facts about sequences shared by several modules. */
module SeqFacts {
  /** Concatenation is associative; stated once so that callers need not
      rediscover it inside large proof contexts. */
  lemma AppendAssoc<T>(a: seq<T>, b: seq<T>, c: seq<T>)
    ensures (a + b) + c == a + (b + c)
  {
  }

  /** Inserting `x` at position `s` adds exactly `x` to the members. */
  lemma InsertMembers<T>(l: seq<T>, s: nat, x: T)
    requires s <= |l|
    ensures forall y :: y in l[..s] + [x] + l[s..] <==> y in l || y == x
  {
    assert l == l[..s] + l[s..];
  }
}
