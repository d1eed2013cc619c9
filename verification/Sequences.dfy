/** Regrouping of sequences, apart from everything else, so that proofs elsewhere need no facts about elements. */
module Sequences {

  lemma Assoc<T>(a: seq<T>, b: seq<T>, c: seq<T>)
    ensures (a + b) + c == a + (b + c)
  {
  }

  lemma NothingAdded<T>(a: seq<T>)
    ensures [] + a == a && a + [] == a
  {
  }

  /** Taking and dropping at the border of two parts. */
  lemma Border<T>(a: seq<T>, b: seq<T>)
    ensures |a + b| == |a| + |b| && (a + b)[..|a|] == a && (a + b)[|a|..] == b
  {
  }

  /** Taking and dropping inside the second of two parts. */
  lemma BehindBorder<T>(a: seq<T>, b: seq<T>, k: nat)
    requires k <= |b|
    ensures |a| + k <= |a + b| && (a + b)[..|a| + k] == a + b[..k] && (a + b)[|a| + k..] == b[k..]
  {
  }

  lemma WholeRange<T>(s: seq<T>)
    ensures s[..|s|] == s && s[0..] == s && s[|s|..] == []
  {
  }

  lemma LastAdded<T>(s: seq<T>)
    requires s != []
    ensures s[..|s| - 1] + [s[|s| - 1]] == s
  {
  }
}
