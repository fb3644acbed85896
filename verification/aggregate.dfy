/** `aggregate_languages` and `aggregate_contributors`: sum the per-repository
    answers of the host into organisation-wide counters. */
module Aggregate {
  import opened Wrappers
  import opened Counter

  /** The per-repository increments, one batch per repository, in order. */
  type Batches = seq<seq<Entry>>

  /** What the counter must hold under `k` after all batches: the sum of every
      increment for `k`. */
  function Total(batches: Batches, k: string): nat
  {
    if |batches| == 0 then 0
    else Total(batches[..|batches| - 1], k) + Count(batches[|batches| - 1], k)
  }

  /** Every key some batch mentions. */
  function KeysSeen(batches: Batches): set<string>
  {
    if |batches| == 0 then {}
    else KeysSeen(batches[..|batches| - 1]) + Keys(batches[|batches| - 1])
  }

  /** `order`, then each key of `items` not met before, at its first
      occurrence. */
  function NewKeys(order: seq<string>, items: seq<Entry>): seq<string>
  {
    if |items| == 0 then order
    else
      var before := NewKeys(order, items[..|items| - 1]);
      var k := items[|items| - 1].key;
      if k in before then before else before + [k]
  }

  /** Every key some batch mentions, in order of first mention. */
  function FirstSeen(batches: Batches): seq<string>
  {
    if |batches| == 0 then []
    else NewKeys(FirstSeen(batches[..|batches| - 1]), batches[|batches| - 1])
  }

  lemma PrefixOfBatches(batches: Batches, i: nat)
    requires i < |batches|
    ensures batches[..i + 1][..i] == batches[..i] && batches[..i + 1][i] == batches[i]
  {
  }

  lemma KeysAppend(items: seq<Entry>, j: nat)
    requires j < |items|
    ensures Keys(items[..j + 1]) == Keys(items[..j]) + {items[j].key}
  {
    assert forall q :: 0 <= q < j ==> items[..j + 1][q] == items[..j][q];
  }

  /** The counter after the first `i` batches and the first `j` increments of
      batch `i`. */
  ghost predicate PartialTally(tally: Tally, batches: Batches, i: nat, j: nat)
    requires i < |batches| && j <= |batches[i]|
  {
    && KeysDistinct(tally)
    && (forall k :: Count(tally, k) == Total(batches[..i], k) + Count(batches[i][..j], k))
    && Keys(tally) == KeysSeen(batches[..i]) + Keys(batches[i][..j])
    && KeyOrder(tally) == NewKeys(FirstSeen(batches[..i]), batches[i][..j])
  }

  /** `counter[k] += n` for the next increment keeps the partial tally. */
  lemma IncrementStep(tally: Tally, batches: Batches, i: nat, j: nat)
    requires i < |batches| && j < |batches[i]| && PartialTally(tally, batches, i, j)
    ensures PartialTally(Add(tally, batches[i][j].key, batches[i][j].count), batches, i, j + 1)
  {
    var items := batches[i];
    assert items[..j + 1] == items[..j] + [items[j]];
    forall k ensures Count(items[..j + 1], k) == Count(items[..j], k) + (if items[j].key == k then items[j].count else 0) {
      CountAppend(items[..j], items[j], k);
    }
    KeysAppend(items, j);
    assert items[..j + 1][..j] == items[..j];
    AddOrder(tally, items[j].key, items[j].count);
  }

  /** A finished batch extends the tally of the batches before it. */
  lemma BatchStep(tally: Tally, batches: Batches, i: nat)
    requires i < |batches| && PartialTally(tally, batches, i, |batches[i]|)
    ensures TallyOf(tally, batches[..i + 1])
  {
    assert batches[i][..|batches[i]|] == batches[i];
    PrefixOfBatches(batches, i);
  }

  /** The inner `for` loop: `counter[k] += n` for every increment of batch
      `i`, taking the tally of the batches before it to the tally of the
      batches up to and including it. */
  method AddBatch(tally: Tally, batches: Batches, i: nat) returns (next: Tally)
    requires i < |batches| && TallyOf(tally, batches[..i])
    ensures TallyOf(next, batches[..i + 1])
  {
    var items := batches[i];
    next := tally;
    var j := 0;
    assert items[..0] == [];
    while j < |items|
      invariant j <= |items|
      invariant PartialTally(next, batches, i, j)
    {
      IncrementStep(next, batches, i, j);
      next := Add(next, items[j].key, items[j].count);
      j := j + 1;
    }
    BatchStep(next, batches, i);
  }

  /** The two nested `for` loops: `counter[k] += n` for every increment of every
      batch. The counter ends up holding, under each key, the sum of that key's
      increments, and has exactly the keys mentioned. */
  method Accumulate(batches: Batches) returns (tally: Tally)
    ensures KeysDistinct(tally)
    ensures forall k :: Count(tally, k) == Total(batches, k)
    ensures Keys(tally) == KeysSeen(batches)
    ensures KeyOrder(tally) == FirstSeen(batches)
  {
    tally := [];
    var i := 0;
    while i < |batches|
      invariant i <= |batches|
      invariant TallyOf(tally, batches[..i])
    {
      tally := AddBatch(tally, batches, i);
      i := i + 1;
    }
    assert batches[..i] == batches;
  }

  lemma {:induction false} TotalConcat(a: Batches, b: Batches, k: string)
    ensures Total(a + b, k) == Total(a, k) + Total(b, k)
    decreases |b|
  {
    if |b| == 0 {
      assert a + b == a;
    } else {
      assert (a + b)[..|a + b| - 1] == a + b[..|b| - 1];
      TotalConcat(a, b[..|b| - 1], k);
    }
  }

  /** The tally does not depend on the order the repositories are visited in:
      any rearrangement of the batches gives the same totals. */
  lemma {:induction false} TotalPermutation(a: Batches, b: Batches, k: string)
    requires multiset(a) == multiset(b)
    ensures Total(a, k) == Total(b, k)
    decreases |a|
  {
    if |a| > 0 {
      var x := a[|a| - 1];
      assert a == a[..|a| - 1] + [x];
      assert x in multiset(b);
      var p :| 0 <= p < |b| && b[p] == x;
      var rest := b[..p] + b[p + 1..];
      assert b == b[..p] + [x] + b[p + 1..];
      assert multiset(a) == multiset(a[..|a| - 1]) + multiset{x};
      assert multiset(b) == multiset(b[..p]) + multiset{x} + multiset(b[p + 1..]);
      assert multiset(rest) == multiset(b[..p]) + multiset(b[p + 1..]);
      assert multiset(a[..|a| - 1]) == multiset(a) - multiset{x};
      assert multiset(rest) == multiset(b) - multiset{x};
      TotalPermutation(a[..|a| - 1], rest, k);
      TotalConcat(b[..p] + [x], b[p + 1..], k);
      TotalConcat(b[..p], [x], k);
      TotalConcat(b[..p], b[p + 1..], k);
      assert [x][..0] == [];
    }
  }

  // ---- languages ----

  /** The per-repository `/languages` answers in repository order: the decoded
      object's items as (language, bytes) entries, or `None` when the request
      raised. */
  type LanguageReply = Option<seq<Entry>>

  /** The `except` branch of `fetch_repo_languages`: a failed request counts as
      an empty object. */
  function LanguageBatches(replies: seq<LanguageReply>): (batches: Batches)
    ensures |batches| == |replies|
    ensures forall i :: 0 <= i < |replies| && replies[i].None? ==> batches[i] == []
    ensures forall i :: 0 <= i < |replies| && replies[i].Some? ==> batches[i] == replies[i].value
  {
    seq(|replies|, i requires 0 <= i < |replies| => replies[i].GetOr([]))
  }

  /** `aggregate_languages`: for every language, the organisation-wide byte count
      is the sum of that language's byte counts over every repository whose
      request succeeded; the languages are exactly those some answer mentions. */
  method AggregateLanguages(replies: seq<LanguageReply>) returns (tally: Tally)
    ensures KeysDistinct(tally)
    ensures forall lang :: Count(tally, lang) == Total(LanguageBatches(replies), lang)
    ensures Keys(tally) == KeysSeen(LanguageBatches(replies))
    ensures KeyOrder(tally) == FirstSeen(LanguageBatches(replies))
  {
    tally := Accumulate(LanguageBatches(replies));
  }

  /** A repository whose request failed changes no language's total: the sum
      is the same as if that repository were not in the list at all. */
  lemma FailedReplyAddsNothing(replies: seq<LanguageReply>, i: nat, lang: string)
    requires i < |replies| && replies[i].None?
    ensures Total(LanguageBatches(replies), lang)
         == Total(LanguageBatches(replies[..i] + replies[i + 1..]), lang)
  {
    var none: seq<Entry> := [];
    var all := LanguageBatches(replies);
    var without := LanguageBatches(replies[..i] + replies[i + 1..]);
    assert all == all[..i] + [none] + all[i + 1..];
    assert without == all[..i] + all[i + 1..];
    TotalConcat(all[..i] + [none], all[i + 1..], lang);
    TotalConcat(all[..i], [none], lang);
    TotalConcat(all[..i], all[i + 1..], lang);
    assert [none][..0] == [];
  }

  // ---- contributors ----

  /** One item of a `/contributors` answer: `login` and `contributions`, each
      `None` when the key is absent. */
  datatype Contributor = Contributor(login: Option<string>, contributions: Option<nat>)

  /** Per-repository `/contributors` answers; `None` when the request raised. */
  type ContributorReply = Option<seq<Contributor>>

  /** `if login:` — an item without a login, or with an empty one, is skipped. */
  predicate HasLogin(c: Contributor)
  {
    c.login.Some? && c.login.value != ""
  }

  /** The increments one answer makes: for each item with a login, in order,
      that login with its contributions (0 when the key is absent). */
  function Counted(cs: seq<Contributor>): (es: seq<Entry>)
    ensures |es| <= |cs|
    ensures forall e :: e in es ==> e.key != ""
  {
    if |cs| == 0 then []
    else
      var last := cs[|cs| - 1];
      Counted(cs[..|cs| - 1])
        + (if HasLogin(last) then [Entry(last.login.value, last.contributions.GetOr(0))] else [])
  }

  lemma {:induction false} CountedConcat(a: seq<Contributor>, b: seq<Contributor>)
    ensures Counted(a + b) == Counted(a) + Counted(b)
    decreases |b|
  {
    if |b| == 0 {
      assert a + b == a;
    } else {
      assert (a + b)[..|a + b| - 1] == a + b[..|b| - 1];
      assert (a + b)[|a + b| - 1] == b[|b| - 1];
      CountedConcat(a, b[..|b| - 1]);
    }
  }

  lemma CountedOne(c: Contributor)
    ensures Counted([c]) == if HasLogin(c) then [Entry(c.login.value, c.contributions.GetOr(0))] else []
  {
    assert [c][..0] == [];
  }

  /** An item without a login, or with an empty one, adds nothing: the answer
      makes the same increments as the answer without that item. */
  lemma NoLoginAddsNothing(cs: seq<Contributor>, i: nat)
    requires i < |cs| && !HasLogin(cs[i])
    ensures Counted(cs) == Counted(cs[..i] + cs[i + 1..])
  {
    var before, rest := cs[..i], cs[i + 1..];
    assert cs == (before + [cs[i]]) + rest;
    CountedConcat(before + [cs[i]], rest);
    CountedConcat(before, [cs[i]]);
    CountedOne(cs[i]);
    assert Counted(before + [cs[i]]) == Counted(before);
    CountedConcat(before, rest);
  }

  /** An item with a login adds exactly one increment, at its place: that
      login with its contributions, 0 when the key is absent. */
  lemma LoginAddsItsCount(cs: seq<Contributor>, i: nat)
    requires i < |cs| && HasLogin(cs[i])
    ensures Counted(cs)
         == Counted(cs[..i]) + [Entry(cs[i].login.value, cs[i].contributions.GetOr(0))] + Counted(cs[i + 1..])
  {
    var before, rest := cs[..i], cs[i + 1..];
    assert cs == (before + [cs[i]]) + rest;
    CountedConcat(before + [cs[i]], rest);
    CountedConcat(before, [cs[i]]);
    CountedOne(cs[i]);
  }

  function ContributorBatches(replies: seq<ContributorReply>): (batches: Batches)
    ensures |batches| == |replies|
    ensures forall i :: 0 <= i < |replies| ==> batches[i] == Counted(replies[i].GetOr([]))
  {
    seq(|replies|, i requires 0 <= i < |replies| => Counted(replies[i].GetOr([])))
  }

  /** No contributor without a login is ever counted. */
  lemma {:induction false} EmptyLoginNeverCounted(batches: Batches)
    requires forall i, e :: 0 <= i < |batches| && e in batches[i] ==> e.key != ""
    ensures "" !in KeysSeen(batches)
    decreases |batches|
  {
    if |batches| > 0 {
      EmptyLoginNeverCounted(batches[..|batches| - 1]);
      var last := batches[|batches| - 1];
      forall j | 0 <= j < |last| ensures last[j].key != "" {
        assert last[j] in batches[|batches| - 1];
      }
    }
  }

  /** A counter's entry is the one its key reads. */
  lemma EntryOfCounter(c: Tally, e: Entry)
    requires KeysDistinct(c) && e in c
    ensures Count(c, e.key) == e.count
  {
    var q :| 0 <= q < |c| && c[q] == e;
    CountOfEntry(c, q);
  }

  /** A tally that counts, key by key, what `batches` sum to. */
  ghost predicate TallyOf(total: Tally, batches: Batches)
  {
    && KeysDistinct(total)
    && (forall k :: Count(total, k) == Total(batches, k))
    && Keys(total) == KeysSeen(batches)
    && KeyOrder(total) == FirstSeen(batches)
  }

  /** Entries drawn from such a tally carry the full sum of their key, and the
      key is non-empty when no batch holds an empty key. */
  lemma ListedCarryTotals(batches: Batches, total: Tally, top: seq<Entry>)
    requires TallyOf(total, batches) && "" !in KeysSeen(batches)
    requires multiset(top) <= multiset(total)
    ensures forall j :: 0 <= j < |top| ==> top[j].key != "" && top[j].count == Total(batches, top[j].key)
    ensures Keys(top) <= KeysSeen(batches)
  {
    forall j | 0 <= j < |top|
      ensures top[j].key != "" && top[j].count == Total(batches, top[j].key)
    {
      assert top[j] in multiset(total);
      var q :| 0 <= q < |total| && total[q] == top[j];
      assert total[q].key in Keys(total);
      EntryOfCounter(total, top[j]);
    }
    forall k | k in Keys(top) ensures k in KeysSeen(batches) {
      var j :| 0 <= j < |top| && top[j].key == k;
      assert top[j] in multiset(total);
      var q :| 0 <= q < |total| && total[q] == top[j];
      assert total[q].key in Keys(total);
    }
  }

  /** A key of the tally that is not listed has a sum no larger than any
      listed entry, when every entry left out is no larger. */
  lemma LeftOutNoLarger(batches: Batches, total: Tally, top: seq<Entry>)
    requires TallyOf(total, batches)
    requires forall e, j :: e in total && e !in top && 0 <= j < |top| ==> top[j].count >= e.count
    ensures forall login, j :: login in KeysSeen(batches) && login !in Keys(top) && 0 <= j < |top|
              ==> top[j].count >= Total(batches, login)
  {
    forall login, j | login in KeysSeen(batches) && login !in Keys(top) && 0 <= j < |top|
      ensures top[j].count >= Total(batches, login)
    {
      var q :| 0 <= q < |total| && total[q].key == login;
      assert forall p :: 0 <= p < |top| ==> top[p].key in Keys(top);
      assert total[q] !in top;
      EntryOfCounter(total, total[q]);
    }
  }

  /** `a` comes before `b` in `order`. */
  predicate SeenBefore(order: seq<string>, a: string, b: string)
  {
    exists p, q :: 0 <= p < q < |order| && order[p] == a && order[q] == b
  }

  /** Two listed logins of equal sum, listed as a per-count prefix of the
      tally, appear in the order of first mention. */
  lemma ListedTiesInOrder(batches: Batches, total: Tally, top: seq<Entry>, i: nat, j: nat)
    requires TallyOf(total, batches)
    requires forall v :: WithCount(top, v) <= WithCount(total, v)
    requires i < j < |top| && top[i].count == top[j].count
    ensures SeenBefore(FirstSeen(batches), top[i].key, top[j].key)
  {
    assert WithCount(top, top[i].count) <= WithCount(total, top[i].count);
    var p, q := TiedOrderKept(top, total, i, j);
    assert KeyOrder(total)[p] == top[i].key && KeyOrder(total)[q] == top[j].key;
  }

  /** A login of the tally left out of such a listing, with the same sum as a
      listed one, was first mentioned after it. */
  lemma LeftOutTiesLater(batches: Batches, total: Tally, top: seq<Entry>, login: string, j: nat)
    requires TallyOf(total, batches)
    requires forall v :: WithCount(top, v) <= WithCount(total, v)
    requires login in KeysSeen(batches) && login !in Keys(top)
    requires j < |top| && top[j].count == Total(batches, login)
    ensures SeenBefore(FirstSeen(batches), top[j].key, login)
  {
    var q :| 0 <= q < |total| && total[q].key == login;
    CountOfEntry(total, q);
    assert total[q] !in top;
    assert WithCount(top, top[j].count) <= WithCount(total, top[j].count);
    var p := LeftOutTiedLater(top, total, j, q);
    assert KeyOrder(total)[p] == top[j].key && KeyOrder(total)[q] == login;
  }

  /** `aggregate_contributors`: the `topN` logins with the most contributions
      summed over all repositories, most first, equal sums in first-seen order:
      two listed logins of one sum appear in the order they were first met,
      and a login left out with the sum of a listed one was met after it.
      Every login listed was seen, is non-empty, appears once, and carries its
      full sum;
      no login left out has a larger sum than one listed; and when fewer than
      `topN` are listed, every login seen is listed. */
  method AggregateContributors(replies: seq<ContributorReply>, topN: nat) returns (top: seq<Entry>)
    ensures |top| <= topN
    ensures NonIncreasing(top)
    ensures KeysDistinct(top)
    ensures forall j :: 0 <= j < |top| ==>
              top[j].key != "" && top[j].count == Total(ContributorBatches(replies), top[j].key)
    ensures forall login, j :: login in KeysSeen(ContributorBatches(replies)) && login !in Keys(top) && 0 <= j < |top|
              ==> top[j].count >= Total(ContributorBatches(replies), login)
    ensures |top| < topN ==> Keys(top) == KeysSeen(ContributorBatches(replies))
    ensures Keys(top) <= KeysSeen(ContributorBatches(replies))
    ensures forall i, j :: 0 <= i < j < |top| && top[i].count == top[j].count
              ==> SeenBefore(FirstSeen(ContributorBatches(replies)), top[i].key, top[j].key)
    ensures forall login, j :: login in KeysSeen(ContributorBatches(replies)) && login !in Keys(top) && 0 <= j < |top|
              && top[j].count == Total(ContributorBatches(replies), login)
              ==> SeenBefore(FirstSeen(ContributorBatches(replies)), top[j].key, login)
  {
    var batches := ContributorBatches(replies);
    var total := Accumulate(batches);
    top := MostCommon(total, topN);
    EmptyLoginNeverCounted(batches);
    ListedCarryTotals(batches, total, top);
    LeftOutNoLarger(batches, total, top);
    forall i, j | 0 <= i < j < |top| && top[i].count == top[j].count
      ensures SeenBefore(FirstSeen(batches), top[i].key, top[j].key)
    {
      ListedTiesInOrder(batches, total, top, i, j);
    }
    forall login, j | login in KeysSeen(batches) && login !in Keys(top) && 0 <= j < |top|
        && top[j].count == Total(batches, login)
      ensures SeenBefore(FirstSeen(batches), top[j].key, login)
    {
      LeftOutTiesLater(batches, total, top, login, j);
    }
    if |top| < topN {
      KeysOfPermutation(top, total);
    }
  }
}
