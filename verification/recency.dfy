/** The ordering `main` puts the listing in before anything is rendered:
    `repos.sort(key=lambda r: r["pushed_at"] or "", reverse=True)`. */
module Recency {
  import opened Wrappers
  import opened Seqs
  import opened Text
  import opened Repos
  import opened Sorting

  /** Once sorted newest first, a repository that was never pushed is followed
      only by repositories that were never pushed either. */
  lemma NeverPushedLast(sorted: seq<Repo>)
    requires SortedByKey(sorted, PushedKey, true)
    ensures forall i, j :: 0 <= i < j < |sorted| && NeverPushed(sorted[i]) ==> NeverPushed(sorted[j])
  {
    forall i, j | 0 <= i < j < |sorted| && NeverPushed(sorted[i])
      ensures NeverPushed(sorted[j])
    {
      EmptyIsLeast(PushedKey(sorted[j]));
    }
  }

  /** The listing newest push first (timestamps compare as strings), the
      repositories without a timestamp at the end, repositories with equal
      timestamps in listing order. */
  function SortByRecency(repos: seq<Repo>): (sorted: seq<Repo>)
    ensures multiset(sorted) == multiset(repos)
    ensures |sorted| == |repos|
    ensures forall i, j :: 0 <= i < j < |sorted| ==> !StrLt(PushedKey(sorted[i]), PushedKey(sorted[j]))
    ensures forall i, j :: 0 <= i < j < |sorted| && NeverPushed(sorted[i]) ==> NeverPushed(sorted[j])
    ensures forall k :: WithKey(sorted, PushedKey, k) == WithKey(repos, PushedKey, k)
  {
    var sorted := SortByKey(repos, PushedKey, true);
    NeverPushedLast(sorted);
    sorted
  }

  lemma SortTwoSwapped(x: Repo, y: Repo)
    requires StrLt(PushedKey(x), PushedKey(y))
    ensures SortByKey([x, y], PushedKey, true) == [y, x]
  {
    assert [x, y][1..] == [y];
    assert [y][1..] == [];
    assert SortByKey([y], PushedKey, true) == [y];
  }

  lemma SortThreeMiddle(x: Repo, y: Repo, z: Repo)
    requires SortByKey([y, z], PushedKey, true) == [z, y]
    requires StrLt(PushedKey(x), PushedKey(z)) && !StrLt(PushedKey(x), PushedKey(y))
    ensures SortByKey([x, y, z], PushedKey, true) == [z, x, y]
  {
    assert [x, y, z][1..] == [y, z];
    assert SortByKey([x, y, z], PushedKey, true) == InsertByKey(x, [z, y], PushedKey, true);
    assert [z, y][1..] == [y];
    assert InsertByKey(x, [z, y], PushedKey, true) == [z] + InsertByKey(x, [y], PushedKey, true);
    assert InsertByKey(x, [y], PushedKey, true) == [x, y];
  }

  /** Two pushed repositories around a never-pushed one: the newer comes
      first, then the older, and the never-pushed one drops out of the top two. */
  lemma NewerFirstNeverPushedLast(older: Repo, never: Repo, newer: Repo)
    requires NeverPushed(never) && !NeverPushed(older)
    requires StrLt(PushedKey(older), PushedKey(newer))
    ensures Prefix(SortByRecency([older, never, newer]), 2) == [newer, older]
  {
    assert PushedKey(never) == "";
    EmptyIsLeast(PushedKey(newer));
    assert !StrLt(PushedKey(older), PushedKey(never));
    SortTwoSwapped(never, newer);
    SortThreeMiddle(older, never, newer);
    var sorted := SortByRecency([older, never, newer]);
    assert sorted == SortByKey([older, never, newer], PushedKey, true);
    assert sorted == [newer, older, never];
  }

  /** Pushed 2024-01-01, never pushed, pushed 2024-03-01: with a limit of two,
      the table shows the March repository, then the January one. */
  lemma RecentOrderExample()
    ensures var jan := Repo("jan", "https://example.org/jan", Some("2024-01-01"), 0, None);
            var none := Repo("none", "https://example.org/none", None, 0, None);
            var mar := Repo("mar", "https://example.org/mar", Some("2024-03-01"), 0, None);
            Prefix(SortByRecency([jan, none, mar]), 2) == [mar, jan]
  {
    var jan := Repo("jan", "https://example.org/jan", Some("2024-01-01"), 0, None);
    var none := Repo("none", "https://example.org/none", None, 0, None);
    var mar := Repo("mar", "https://example.org/mar", Some("2024-03-01"), 0, None);
    assert StrLt(PushedKey(jan), PushedKey(mar)) by {
      assert "2024-01-01"[..6] == "2024-03-01"[..6];
      StrLtAt("2024-01-01", "2024-03-01", 6);
    }
    NewerFirstNeverPushedLast(jan, none, mar);
  }
}
