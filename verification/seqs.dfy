/** Small facts about sequences that the proofs of several modules share. */
module Seqs {

  lemma ConcatAssoc<T>(a: seq<T>, b: seq<T>, c: seq<T>)
    ensures (a + b) + c == a + (b + c)
  {
  }

  lemma PrefixStep<T>(s: seq<T>, n: nat)
    requires 0 < n <= |s|
    ensures s[..n] == s[..n - 1] + [s[n - 1]]
  {
  }

  /** Cutting the element that sits between `before` and `after`. */
  lemma CutBetween<T>(s: seq<T>, before: seq<T>, x: T, after: seq<T>)
    requires s == before + [x] + after
    ensures s[..|before|] + s[|before| + 1..] == before + after
  {
    assert s[..|before|] == before;
    assert s[|before| + 1..] == after;
  }

  lemma TakeAll<T>(s: seq<T>)
    ensures s[..|s|] == s
  {
  }
}
