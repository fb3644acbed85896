/** Python's `sorted`/`list.sort` with a string key (a stable sort), in either
    direction. */
module Sorting {
  import opened Text

  /** `a` must come strictly before `b`: a smaller key ascending, a larger key
      with `reverse=True`. */
  predicate Before(a: string, b: string, descending: bool)
  {
    if descending then StrLt(b, a) else StrLt(a, b)
  }

  lemma BeforeIrreflexive(a: string, descending: bool)
    ensures !Before(a, a, descending)
  {
    StrLtIrreflexive(a);
  }

  lemma BeforeAsymmetric(a: string, b: string, descending: bool)
    requires Before(a, b, descending)
    ensures !Before(b, a, descending)
  {
    if StrLt(a, b) && StrLt(b, a) {
      StrLtTransitive(a, b, a);
      StrLtIrreflexive(a);
    }
  }

  /** "Not before" is transitive, the law an insertion sort needs. */
  lemma NotBeforeTransitive(a: string, b: string, c: string, descending: bool)
    requires !Before(a, b, descending) && !Before(b, c, descending)
    ensures !Before(a, c, descending)
  {
    StrLtTotal(a, b);
    StrLtTotal(b, c);
    if Before(a, c, descending) {
      if descending {
        if StrLt(a, b) { StrLtTransitive(c, a, b); }
      } else {
        if StrLt(b, a) { StrLtTransitive(b, a, c); }
      }
    }
  }

  /** No element is placed strictly after one it must precede. */
  ghost predicate SortedByKey<T>(s: seq<T>, key: T -> string, descending: bool)
  {
    forall i, j :: 0 <= i < j < |s| ==> !Before(key(s[j]), key(s[i]), descending)
  }

  /** The elements whose key is `k`, in their order in `s`. */
  function WithKey<T>(s: seq<T>, key: T -> string, k: string): seq<T>
  {
    if |s| == 0 then []
    else (if key(s[0]) == k then [s[0]] else []) + WithKey(s[1..], key, k)
  }

  function InsertByKey<T>(x: T, s: seq<T>, key: T -> string, descending: bool): seq<T>
  {
    if |s| == 0 || !Before(key(s[0]), key(x), descending) then [x] + s
    else [s[0]] + InsertByKey(x, s[1..], key, descending)
  }

  lemma {:induction false} InsertByKeyPermutes<T>(x: T, s: seq<T>, key: T -> string, descending: bool)
    ensures multiset(InsertByKey(x, s, key, descending)) == multiset(s) + multiset{x}
    ensures |InsertByKey(x, s, key, descending)| == |s| + 1
    decreases |s|
  {
    if |s| > 0 && Before(key(s[0]), key(x), descending) {
      InsertByKeyPermutes(x, s[1..], key, descending);
      assert s == [s[0]] + s[1..];
    }
  }

  lemma {:induction false} InsertByKeySorted<T>(x: T, s: seq<T>, key: T -> string, descending: bool)
    requires SortedByKey(s, key, descending)
    ensures SortedByKey(InsertByKey(x, s, key, descending), key, descending)
    decreases |s|
  {
    var r := InsertByKey(x, s, key, descending);
    if |s| == 0 || !Before(key(s[0]), key(x), descending) {
      forall j | 0 < j < |r|
        ensures !Before(key(r[j]), key(r[0]), descending)
      {
        assert r[j] == s[j - 1];
        if j > 1 {
          NotBeforeTransitive(key(s[j - 1]), key(s[0]), key(x), descending);
        }
      }
    } else {
      var t := InsertByKey(x, s[1..], key, descending);
      InsertByKeySorted(x, s[1..], key, descending);
      InsertByKeyPermutes(x, s[1..], key, descending);
      BeforeAsymmetric(key(s[0]), key(x), descending);
      assert r == [s[0]] + t;
      forall j | 0 <= j < |t|
        ensures !Before(key(t[j]), key(s[0]), descending)
      {
        assert t[j] in multiset(t);
        if t[j] != x {
          assert t[j] in multiset(s[1..]);
          var p :| 0 <= p < |s[1..]| && s[1..][p] == t[j];
          assert s[p + 1] == t[j];
        }
      }
    }
  }

  lemma {:induction false} InsertByKeyStable<T>(x: T, s: seq<T>, key: T -> string, descending: bool, k: string)
    ensures WithKey(InsertByKey(x, s, key, descending), key, k)
         == (if key(x) == k then [x] else []) + WithKey(s, key, k)
    decreases |s|
  {
    var r := InsertByKey(x, s, key, descending);
    if |s| == 0 || !Before(key(s[0]), key(x), descending) {
      assert r[1..] == s;
    } else {
      var t := InsertByKey(x, s[1..], key, descending);
      assert r[1..] == t;
      InsertByKeyStable(x, s[1..], key, descending, k);
      BeforeIrreflexive(key(x), descending);
      var head := if key(s[0]) == k then [s[0]] else [];
      var mine := if key(x) == k then [x] else [];
      assert WithKey(r, key, k) == head + (mine + WithKey(s[1..], key, k));
      assert WithKey(s, key, k) == head + WithKey(s[1..], key, k);
      assert head == [] || mine == [];
    }
  }

  /** Inserting the head into the sorted tail sorts the whole sequence. */
  lemma InsertHead<T>(s: seq<T>, t: seq<T>, key: T -> string, descending: bool)
    requires |s| > 0 && SortedByKey(t, key, descending)
    requires multiset(t) == multiset(s[1..]) && |t| == |s| - 1
    requires forall k :: WithKey(t, key, k) == WithKey(s[1..], key, k)
    ensures var r := InsertByKey(s[0], t, key, descending);
      && SortedByKey(r, key, descending)
      && multiset(r) == multiset(s)
      && |r| == |s|
      && forall k :: WithKey(r, key, k) == WithKey(s, key, k)
  {
    var r := InsertByKey(s[0], t, key, descending);
    InsertByKeySorted(s[0], t, key, descending);
    InsertByKeyPermutes(s[0], t, key, descending);
    assert s == [s[0]] + s[1..];
    forall k ensures WithKey(r, key, k) == WithKey(s, key, k) {
      InsertByKeyStable(s[0], t, key, descending, k);
    }
  }

  /** `sorted(s, key=key, reverse=descending)`: an insertion sort that keeps
      equal-keyed elements in their original order. */
  function SortByKey<T>(s: seq<T>, key: T -> string, descending: bool): (r: seq<T>)
    ensures SortedByKey(r, key, descending)
    ensures multiset(r) == multiset(s)
    ensures |r| == |s|
    ensures forall k :: WithKey(r, key, k) == WithKey(s, key, k)
  {
    if |s| == 0 then []
    else
      var t := SortByKey(s[1..], key, descending);
      InsertHead(s, t, key, descending);
      InsertByKey(s[0], t, key, descending)
  }
}
