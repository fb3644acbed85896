/** Python's `collections.Counter` as the report uses it: `c[k] += n` on an
    insertion-ordered dictionary whose missing keys read as 0, and
    `most_common(n)`. */
module Counter {
  import opened Seqs

  /** One key of a counter with its accumulated count. */
  datatype Entry = Entry(key: string, count: nat)

  /** A counter as its items in insertion order. */
  type Tally = seq<Entry>

  predicate KeysDistinct(c: seq<Entry>)
  {
    forall i, j :: 0 <= i < j < |c| ==> c[i].key != c[j].key
  }

  function Keys(c: seq<Entry>): set<string>
  {
    set i | 0 <= i < |c| :: c[i].key
  }

  /** `c[k]`: the total held under `k`, 0 for a missing key. On a sequence of
      increments (keys possibly repeated) it is the sum of those for `k`. */
  function Count(c: seq<Entry>, k: string): nat
  {
    if |c| == 0 then 0
    else (if c[0].key == k then c[0].count else 0) + Count(c[1..], k)
  }

  lemma {:induction false} CountAppend(c: seq<Entry>, e: Entry, k: string)
    ensures Count(c + [e], k) == Count(c, k) + (if e.key == k then e.count else 0)
    decreases |c|
  {
    if |c| > 0 {
      assert (c + [e])[1..] == c[1..] + [e];
      CountAppend(c[1..], e, k);
    }
  }

  lemma {:induction false} CountConcat(a: seq<Entry>, b: seq<Entry>, k: string)
    ensures Count(a + b, k) == Count(a, k) + Count(b, k)
    decreases |a|
  {
    if |a| == 0 {
      assert a + b == b;
    } else {
      assert (a + b)[1..] == a[1..] + b;
      CountConcat(a[1..], b, k);
    }
  }

  lemma {:induction false} CountUpdate(c: seq<Entry>, i: nat, e: Entry, k: string)
    requires i < |c|
    ensures Count(c[i := e], k) + (if c[i].key == k then c[i].count else 0)
         == Count(c, k) + (if e.key == k then e.count else 0)
    decreases |c|
  {
    if i > 0 {
      assert c[i := e][1..] == c[1..][i - 1 := e];
      CountUpdate(c[1..], i - 1, e, k);
    } else {
      assert c[i := e][1..] == c[1..];
    }
  }

  lemma {:induction false} CountAbsent(c: seq<Entry>, k: string)
    requires k !in Keys(c)
    ensures Count(c, k) == 0
    decreases |c|
  {
    if |c| > 0 {
      assert Keys(c[1..]) <= Keys(c) by {
        forall x | x in Keys(c[1..]) ensures x in Keys(c) {
          var j :| 0 <= j < |c[1..]| && c[1..][j].key == x;
          assert c[j + 1].key == x;
        }
      }
      assert c[0].key in Keys(c);
      CountAbsent(c[1..], k);
    }
  }

  /** Position of `k` among the keys, or `|c|` when it is missing. */
  function IndexOf(c: seq<Entry>, k: string): (i: nat)
    ensures i <= |c|
    ensures i < |c| ==> c[i].key == k
    ensures forall j :: 0 <= j < i ==> c[j].key != k
  {
    if |c| == 0 then 0
    else if c[0].key == k then 0
    else 1 + IndexOf(c[1..], k)
  }

  /** `c[k] += n`: an existing key keeps its place and grows by `n`; a new key
      is appended with count `n`. */
  function Add(c: Tally, k: string, n: nat): (r: Tally)
    requires KeysDistinct(c)
    ensures KeysDistinct(r)
    ensures forall k' :: Count(r, k') == Count(c, k') + (if k' == k then n else 0)
    ensures Keys(r) == Keys(c) + {k}
    ensures |c| <= |r| <= |c| + 1
    ensures forall i :: 0 <= i < |c| ==> r[i].key == c[i].key
  {
    var i := IndexOf(c, k);
    if i < |c| then
      var r := c[i := Entry(k, c[i].count + n)];
      assert forall k' :: Count(r, k') == Count(c, k') + (if k' == k then n else 0) by {
        forall k' ensures Count(r, k') == Count(c, k') + (if k' == k then n else 0) {
          CountUpdate(c, i, Entry(k, c[i].count + n), k');
        }
      }
      assert forall j :: 0 <= j < |c| ==> r[j].key == c[j].key;
      assert Keys(r) == Keys(c);
      r
    else
      var r := c + [Entry(k, n)];
      assert forall k' :: Count(r, k') == Count(c, k') + (if k' == k then n else 0) by {
        forall k' ensures Count(r, k') == Count(c, k') + (if k' == k then n else 0) {
          CountAppend(c, Entry(k, n), k');
        }
      }
      assert Keys(r) == Keys(c) + {k} by {
        assert forall j :: 0 <= j < |c| ==> r[j] == c[j];
        assert r[|c|].key == k;
      }
      r
  }

  /** The keys of `c`, in its order. */
  function KeyOrder(c: seq<Entry>): seq<string>
  {
    seq(|c|, i requires 0 <= i < |c| => c[i].key)
  }


  /** `c[k] += n` leaves the key order alone when `k` is already there, and
      appends `k` otherwise. */
  lemma AddOrder(c: Tally, k: string, n: nat)
    requires KeysDistinct(c)
    ensures KeyOrder(Add(c, k, n)) == if k in KeyOrder(c) then KeyOrder(c) else KeyOrder(c) + [k]
  {
    var i := IndexOf(c, k);
    if i < |c| {
      assert KeyOrder(c)[i] == k;
    } else {
      assert k !in KeyOrder(c);
    }
  }

  /** On a counter (distinct keys) a key's count is the count of its entry. */
  lemma {:induction false} CountOfEntry(c: Tally, i: nat)
    requires KeysDistinct(c) && i < |c|
    ensures Count(c, c[i].key) == c[i].count
    decreases |c|
  {
    if i > 0 {
      CountOfEntry(c[1..], i - 1);
    } else {
      assert forall j :: 0 <= j < |c[1..]| ==> c[1..][j].key != c[0].key by {
        forall j | 0 <= j < |c[1..]| ensures c[1..][j].key != c[0].key {
          assert c[1..][j] == c[j + 1];
        }
      }
      CountAbsent(c[1..], c[0].key);
    }
  }
  /** Largest count first. */
  predicate NonIncreasing(s: seq<Entry>)
  {
    forall i, j :: 0 <= i < j < |s| ==> s[i].count >= s[j].count
  }

  /** The entries whose count is `v`, in their order in `s`. */
  function WithCount(s: seq<Entry>, v: nat): seq<Entry>
  {
    if |s| == 0 then []
    else (if s[0].count == v then [s[0]] else []) + WithCount(s[1..], v)
  }

  lemma {:induction false} WithCountAppend(s: seq<Entry>, x: Entry, v: nat)
    ensures WithCount(s + [x], v) == WithCount(s, v) + (if x.count == v then [x] else [])
    decreases |s|
  {
    if |s| == 0 {
      assert [x][1..] == [];
    } else {
      var t := s + [x];
      assert t[0] == s[0] && t[1..] == s[1..] + [x];
      WithCountAppend(s[1..], x, v);
      assert WithCount(t, v) == (if s[0].count == v then [s[0]] else []) + WithCount(s[1..] + [x], v);
    }
  }

  /** The positions in `s` of the entries whose count is `v`, in increasing
      order: `WithCount(s, v)` is `s` read at these positions. */
  function Positions(s: seq<Entry>, v: nat): (ps: seq<nat>)
    ensures |ps| == |WithCount(s, v)|
    ensures forall r :: 0 <= r < |ps| ==> ps[r] < |s| && WithCount(s, v)[r] == s[ps[r]]
    ensures forall r, t :: 0 <= r < t < |ps| ==> ps[r] < ps[t]
    ensures forall i :: 0 <= i < |s| && s[i].count == v ==> i in ps
    decreases |s|
  {
    if |s| == 0 then []
    else
      var init, x := s[..|s| - 1], s[|s| - 1];
      var before := Positions(init, v);
      WithCountAppend(init, x, v);
      assert s == init + [x];
      assert forall i :: 0 <= i < |init| ==> init[i] == s[i];
      before + (if x.count == v then [|s| - 1] else [])
  }

  /** Where an entry of count `v` stands in `WithCount(s, v)`; later entries
      stand later. */
  lemma PositionOf(s: seq<Entry>, v: nat, i: nat) returns (r: nat)
    requires i < |s| && s[i].count == v
    ensures r < |WithCount(s, v)| && WithCount(s, v)[r] == s[i] && Positions(s, v)[r] == i
    ensures forall t :: r < t < |Positions(s, v)| ==> i < Positions(s, v)[t]
    ensures forall t :: 0 <= t < r ==> Positions(s, v)[t] < i
  {
    var ps := Positions(s, v);
    assert i in ps;
    r :| 0 <= r < |ps| && ps[r] == i;
  }

  /** Two listed entries of equal count, when the listing is a per-count
      prefix of `s`, stand in `s` in the order they are listed. */
  lemma TiedOrderKept(top: seq<Entry>, s: seq<Entry>, i: nat, j: nat) returns (p: nat, q: nat)
    requires i < j < |top| && top[i].count == top[j].count
    requires WithCount(top, top[i].count) <= WithCount(s, top[i].count)
    ensures p < q < |s| && s[p] == top[i] && s[q] == top[j]
  {
    var v := top[i].count;
    var ri := PositionOf(top, v, i);
    var rj := PositionOf(top, v, j);
    assert ri < rj;
    var all := WithCount(s, v);
    assert all[ri] == top[i] && all[rj] == top[j];
    var qs := Positions(s, v);
    p, q := qs[ri], qs[rj];
  }

  /** An entry of `s` left out of such a listing, with the count of a listed
      entry, stands in `s` after it. */
  lemma LeftOutTiedLater(top: seq<Entry>, s: seq<Entry>, j: nat, q: nat) returns (p: nat)
    requires j < |top| && q < |s| && s[q].count == top[j].count && s[q] !in top
    requires WithCount(top, top[j].count) <= WithCount(s, top[j].count)
    ensures p < q && s[p] == top[j]
  {
    var v := top[j].count;
    var ps, qs := Positions(top, v), Positions(s, v);
    var rj :| 0 <= rj < |ps| && ps[rj] == j;
    var rq :| 0 <= rq < |qs| && qs[rq] == q;
    if rq <= rj {
      assert false;
    }
    assert WithCount(s, v)[rj] == top[j];
    p := qs[rj];
  }

  function InsertByCount(x: Entry, s: seq<Entry>): seq<Entry>
  {
    if |s| == 0 || s[0].count <= x.count then [x] + s
    else [s[0]] + InsertByCount(x, s[1..])
  }

  lemma {:induction false} InsertByCountPermutes(x: Entry, s: seq<Entry>)
    ensures multiset(InsertByCount(x, s)) == multiset(s) + multiset{x}
    ensures |InsertByCount(x, s)| == |s| + 1
    decreases |s|
  {
    if |s| > 0 && s[0].count > x.count {
      InsertByCountPermutes(x, s[1..]);
      assert s == [s[0]] + s[1..];
    }
  }

  lemma {:induction false} InsertByCountSorted(x: Entry, s: seq<Entry>)
    requires NonIncreasing(s)
    ensures NonIncreasing(InsertByCount(x, s))
    decreases |s|
  {
    if |s| > 0 && s[0].count > x.count {
      var t := InsertByCount(x, s[1..]);
      InsertByCountSorted(x, s[1..]);
      InsertByCountPermutes(x, s[1..]);
      assert InsertByCount(x, s) == [s[0]] + t;
      forall j | 0 <= j < |t|
        ensures t[j].count <= s[0].count
      {
        assert t[j] in multiset(t);
        if t[j] != x {
          assert t[j] in multiset(s[1..]);
          var p :| 0 <= p < |s[1..]| && s[1..][p] == t[j];
          assert s[p + 1] == t[j];
        }
      }
    }
  }

  lemma {:induction false} InsertByCountStable(x: Entry, s: seq<Entry>, v: nat)
    ensures WithCount(InsertByCount(x, s), v) == (if x.count == v then [x] else []) + WithCount(s, v)
    decreases |s|
  {
    var r := InsertByCount(x, s);
    if |s| == 0 || s[0].count <= x.count {
      assert r == [x] + s;
      assert r[0] == x && r[1..] == s;
    } else {
      var t := InsertByCount(x, s[1..]);
      assert r == [s[0]] + t;
      assert r[0] == s[0] && r[1..] == t;
      InsertByCountStable(x, s[1..], v);
      assert WithCount(r, v) == (if s[0].count == v then [s[0]] else []) + WithCount(t, v);
      assert WithCount(s, v) == (if s[0].count == v then [s[0]] else []) + WithCount(s[1..], v);
    }
  }

  /** One insertion step of the sort keeps all three of its promises. */
  lemma InsertByCountStep(s: seq<Entry>, t: seq<Entry>)
    requires |s| > 0
    requires NonIncreasing(t) && multiset(t) == multiset(s[1..])
    requires forall v :: WithCount(t, v) == WithCount(s[1..], v)
    ensures NonIncreasing(InsertByCount(s[0], t))
    ensures multiset(InsertByCount(s[0], t)) == multiset(s)
    ensures |InsertByCount(s[0], t)| == |s|
    ensures forall v :: WithCount(InsertByCount(s[0], t), v) == WithCount(s, v)
  {
    InsertByCountSorted(s[0], t);
    InsertByCountPermutes(s[0], t);
    assert s == [s[0]] + s[1..];
    assert |t| == |multiset(t)| == |s| - 1;
    forall v ensures WithCount(InsertByCount(s[0], t), v) == WithCount(s, v) {
      InsertByCountStable(s[0], t, v);
    }
  }

  /** `sorted(items, key=count, reverse=True)`: largest count first, equal
      counts in their original order. */
  function SortByCountDesc(s: seq<Entry>): (r: seq<Entry>)
    ensures NonIncreasing(r)
    ensures multiset(r) == multiset(s)
    ensures |r| == |s|
    ensures forall v :: WithCount(r, v) == WithCount(s, v)
  {
    if |s| == 0 then []
    else
      var t := SortByCountDesc(s[1..]);
      InsertByCountStep(s, t);
      InsertByCount(s[0], t)
  }

  lemma {:induction false} WithCountPrefix(s: seq<Entry>, m: nat, v: nat)
    requires m <= |s|
    ensures WithCount(s[..m], v) <= WithCount(s, v)
    decreases m
  {
    if m > 0 {
      assert s[..m][1..] == s[1..][..m - 1];
      WithCountPrefix(s[1..], m - 1, v);
    }
  }

  /** Entries with the same multiset of items have the same keys. */
  lemma KeysOfPermutation(a: seq<Entry>, b: seq<Entry>)
    requires multiset(a) == multiset(b)
    ensures Keys(a) == Keys(b)
  {
    forall k | k in Keys(a) ensures k in Keys(b) {
      var i :| 0 <= i < |a| && a[i].key == k;
      assert a[i] in multiset(b);
      var j :| 0 <= j < |b| && b[j] == a[i];
    }
    forall k | k in Keys(b) ensures k in Keys(a) {
      var j :| 0 <= j < |b| && b[j].key == k;
      assert b[j] in multiset(a);
      var i :| 0 <= i < |a| && a[i] == b[j];
    }
  }

  lemma KeysCons(e: Entry, s: seq<Entry>)
    ensures Keys([e] + s) == {e.key} + Keys(s)
  {
    var t := [e] + s;
    assert forall q :: 0 <= q < |s| ==> t[q + 1] == s[q];
    forall k | k in Keys(t) ensures k in {e.key} + Keys(s) {
      var i :| 0 <= i < |t| && t[i].key == k;
      if i > 0 { assert s[i - 1].key == k; }
    }
    forall k | k in {e.key} + Keys(s) ensures k in Keys(t) {
      if k != e.key {
        var i :| 0 <= i < |s| && s[i].key == k;
        assert t[i + 1].key == k;
      } else {
        assert t[0].key == k;
      }
    }
  }

  lemma DistinctCons(e: Entry, s: seq<Entry>)
    requires KeysDistinct(s) && e.key !in Keys(s)
    ensures KeysDistinct([e] + s)
  {
    var t := [e] + s;
    forall i, j | 0 <= i < j < |t| ensures t[i].key != t[j].key {
      assert t[j] == s[j - 1];
      if i > 0 {
        assert t[i] == s[i - 1];
      } else {
        assert s[j - 1].key in Keys(s);
      }
    }
  }

  /** Sorting a counter keeps its keys distinct. */
  lemma {:induction false} InsertByCountDistinct(x: Entry, s: seq<Entry>)
    requires KeysDistinct(s) && x.key !in Keys(s)
    ensures KeysDistinct(InsertByCount(x, s))
    ensures Keys(InsertByCount(x, s)) == Keys(s) + {x.key}
    decreases |s|
  {
    if |s| == 0 || s[0].count <= x.count {
      KeysCons(x, s);
      DistinctCons(x, s);
    } else {
      assert s == [s[0]] + s[1..];
      KeysCons(s[0], s[1..]);
      assert KeysDistinct(s[1..]);
      DistinctOfCons(s);
      InsertByCountDistinct(x, s[1..]);
      var t := InsertByCount(x, s[1..]);
      KeysCons(s[0], t);
      DistinctCons(s[0], t);
    }
  }

  lemma DistinctOfCons(s: seq<Entry>)
    requires |s| > 0 && KeysDistinct(s)
    ensures s[0].key !in Keys(s[1..])
  {
    forall q | 0 <= q < |s[1..]| ensures s[1..][q].key != s[0].key {
      assert s[1..][q] == s[q + 1];
    }
  }

  lemma {:induction false} SortByCountDescDistinct(s: seq<Entry>)
    requires KeysDistinct(s)
    ensures KeysDistinct(SortByCountDesc(s))
    decreases |s|
  {
    if |s| > 0 {
      var t := SortByCountDesc(s[1..]);
      assert KeysDistinct(s[1..]);
      SortByCountDescDistinct(s[1..]);
      KeysOfPermutation(t, s[1..]);
      DistinctOfCons(s);
      InsertByCountDistinct(s[0], t);
    }
  }

  lemma SortedCounterDistinct(c: seq<Entry>)
    ensures KeysDistinct(c) ==> KeysDistinct(SortByCountDesc(c))
  {
    if KeysDistinct(c) {
      SortByCountDescDistinct(c);
    }
  }

  /** A prefix of a largest-first arrangement of `c` holds the largest counts
      of `c`, and for each count the earliest entries of `c` with it. */
  lemma {:induction false} TopPrefix(c: seq<Entry>, sorted: seq<Entry>, m: nat)
    requires NonIncreasing(sorted) && multiset(sorted) == multiset(c)
    requires forall v :: WithCount(sorted, v) == WithCount(c, v)
    requires m <= |sorted|
    ensures NonIncreasing(sorted[..m])
    ensures multiset(sorted[..m]) <= multiset(c)
    ensures forall e, j :: e in c && e !in sorted[..m] && 0 <= j < m ==> sorted[..m][j].count >= e.count
    ensures forall v :: WithCount(sorted[..m], v) <= WithCount(c, v)
  {
    var r := sorted[..m];
    assert sorted == r + sorted[m..];
    assert multiset(sorted) == multiset(r) + multiset(sorted[m..]);
    forall e, j | e in c && e !in r && 0 <= j < m
      ensures r[j].count >= e.count
    {
      assert e in multiset(sorted);
      var p :| 0 <= p < |sorted| && sorted[p] == e;
      assert forall q :: 0 <= q < m ==> r[q] == sorted[q];
    }
    forall v ensures WithCount(r, v) <= WithCount(c, v) {
      WithCountPrefix(sorted, m, v);
    }
  }

  /** `most_common(n)`: the `n` largest counts, largest first, equal counts in
      insertion order. */
  function MostCommon(c: Tally, n: nat): (r: seq<Entry>)
    ensures |r| == Min(n, |c|)
    ensures NonIncreasing(r)
    ensures multiset(r) <= multiset(c)
    ensures forall e, j :: e in c && e !in r && 0 <= j < |r| ==> r[j].count >= e.count
    ensures forall v :: WithCount(r, v) <= WithCount(c, v)
    ensures |r| < n ==> multiset(r) == multiset(c)
    ensures KeysDistinct(c) ==> KeysDistinct(r)
  {
    var sorted := SortByCountDesc(c);
    TopPrefix(c, sorted, Min(n, |c|));
    SortedCounterDistinct(c);
    assert sorted[..|sorted|] == sorted;
    sorted[..Min(n, |c|)]
  }
}
