/** Small facts about sequences shared by the rest of the model. */
module Seqs {

  function Min(a: nat, b: nat): (m: nat)
    ensures m <= a && m <= b
    ensures m == a || m == b
  {
    if a <= b then a else b
  }

  /** Python's slice `s[:n]` for a non-negative `n`: at most the first `n` items. */
  function Prefix<T>(s: seq<T>, n: nat): (p: seq<T>)
    ensures |p| == Min(n, |s|)
    ensures p <= s
  {
    if |s| <= n then s else s[..n]
  }

  /** Concatenation of a sequence of sequences, in order (Python's `"".join`
      on strings, or repeated `list.extend`). */
  function Flatten<T>(ss: seq<seq<T>>): seq<T>
  {
    if |ss| == 0 then [] else Flatten(ss[..|ss| - 1]) + ss[|ss| - 1]
  }

  lemma {:induction false} FlattenAppend<T>(a: seq<seq<T>>, b: seq<seq<T>>)
    ensures Flatten(a + b) == Flatten(a) + Flatten(b)
    decreases |b|
  {
    if |b| == 0 {
      assert a + b == a;
    } else {
      assert (a + b)[..|a + b| - 1] == a + b[..|b| - 1];
      FlattenAppend(a, b[..|b| - 1]);
    }
  }

  lemma FlattenCons<T>(x: seq<T>, rest: seq<seq<T>>)
    ensures Flatten([x] + rest) == x + Flatten(rest)
  {
    FlattenAppend([x], rest);
    assert [x][..0] == [];
  }
}
