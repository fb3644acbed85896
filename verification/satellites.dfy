/** `group_repos_by_satellite`: split the repositories into the five satellite
    buckets, in declared order, plus the catch-all `OTHERS`. */
module Satellites {
  import opened Text
  import opened Repos

  /** A satellite and the keywords that put a repository into it. */
  datatype Satellite = Satellite(name: string, keywords: seq<string>)

  /** The satellites in declared order; the first one that matches wins. */
  const Catalogue: seq<Satellite> := [
    Satellite("YOMOGI", ["yomogi", "YOMOGI", "ymg", "YMG"]),
    Satellite("KASHIWA", ["kashiwa", "KASHIWA", "ksh", "KSH"]),
    Satellite("SAKURA", ["sakura", "SAKURA", "skr", "SKR"]),
    Satellite("BOTAN", ["botan", "BOTAN", "btn", "BTN"]),
    Satellite("MOMIJI", ["momiji", "MOMIJI", "mmj", "MMJ"])
  ]

  const OtherGroup: string := "OTHERS"

  /** The index of the catch-all bucket, after the satellites. */
  const OthersIndex: nat := |Catalogue|

  /** One named bucket of the grouping, its repositories in input order. */
  datatype Bucket = Bucket(name: string, repos: seq<Repo>)

  function BucketName(b: nat): string
    requires b <= OthersIndex
  {
    if b < OthersIndex then Catalogue[b].name else OtherGroup
  }

  /** `any(kw.lower() in lower for kw in keywords)` for an already lowered name. */
  predicate Matches(sat: Satellite, lowered: string)
  {
    exists i :: 0 <= i < |sat.keywords| && IsSubstring(Lower(sat.keywords[i]), lowered)
  }

  /** A satellite matches a lowered name exactly when one of its lowered
      keywords occurs at some position of the name. */
  lemma MatchesIffOccurs(sat: Satellite, lowered: string)
    ensures Matches(sat, lowered)
        <==> exists i, at :: 0 <= i < |sat.keywords| && OccursAt(Lower(sat.keywords[i]), lowered, at)
  {
    forall i | 0 <= i < |sat.keywords| {
      SubstringIffOccurs(Lower(sat.keywords[i]), lowered);
    }
  }

  function ClassifyFrom(lowered: string, b: nat): (k: nat)
    requires b <= OthersIndex
    ensures b <= k <= OthersIndex
    ensures k < OthersIndex ==> Matches(Catalogue[k], lowered)
    ensures forall j :: b <= j < k ==> !Matches(Catalogue[j], lowered)
    decreases OthersIndex - b
  {
    if b == OthersIndex then OthersIndex
    else if Matches(Catalogue[b], lowered) then b
    else ClassifyFrom(lowered, b + 1)
  }

  /** The bucket a repository name belongs to: the first satellite, in declared
      order, one of whose lowered keywords occurs in the lowered name, or
      `OTHERS` when none does. */
  function Classify(name: string): (k: nat)
    ensures k <= OthersIndex
    ensures k < OthersIndex ==> Matches(Catalogue[k], Lower(name))
    ensures forall j :: 0 <= j < k ==> !Matches(Catalogue[j], Lower(name))
  {
    ClassifyFrom(Lower(name), 0)
  }

  /** The repositories of `repos` that belong to bucket `b`, in input order. */
  function InBucket(repos: seq<Repo>, b: nat): seq<Repo>
  {
    if |repos| == 0 then []
    else
      var last := repos[|repos| - 1];
      InBucket(repos[..|repos| - 1], b) + (if Classify(last.name) == b then [last] else [])
  }

  /** All repositories of all buckets, counted with multiplicity. */
  function Union(grouped: seq<Bucket>): multiset<Repo>
  {
    if |grouped| == 0 then multiset{} else multiset(grouped[0].repos) + Union(grouped[1..])
  }

  /** The number of repositories over all buckets. */
  function TotalSize(grouped: seq<Bucket>): nat
  {
    if |grouped| == 0 then 0 else |grouped[0].repos| + TotalSize(grouped[1..])
  }

  /** Placing one more repository in bucket `k` adds exactly it to the union. */
  lemma {:induction false} AppendToBucket(grouped: seq<Bucket>, k: nat, r: Repo)
    requires k < |grouped|
    ensures Union(grouped[k := Bucket(grouped[k].name, grouped[k].repos + [r])]) == Union(grouped) + multiset{r}
    decreases |grouped|
  {
    var g' := grouped[k := Bucket(grouped[k].name, grouped[k].repos + [r])];
    if k == 0 {
      assert g'[1..] == grouped[1..];
    } else {
      assert g'[1..] == grouped[1..][k - 1 := Bucket(grouped[k].name, grouped[k].repos + [r])];
      AppendToBucket(grouped[1..], k - 1, r);
    }
  }

  /** The keys of the grouping, in order, each bucket still empty. */
  function EmptyGrouping(): (g: seq<Bucket>)
    ensures |g| == OthersIndex + 1
    ensures forall b :: 0 <= b < |g| ==> g[b].name == BucketName(b) && g[b].repos == []
  {
    seq(OthersIndex + 1, b requires 0 <= b <= OthersIndex => Bucket(BucketName(b), []))
  }

  lemma {:induction false} EmptyUnion(g: seq<Bucket>)
    requires forall b :: 0 <= b < |g| ==> g[b].repos == []
    ensures Union(g) == multiset{}
    decreases |g|
  {
    if |g| > 0 {
      EmptyUnion(g[1..]);
    }
  }

  /** The inner `for sat_name, keywords in SATELLITE_GROUPS.items()` loop with
      its `break`: the index of the first matching satellite, or `OthersIndex`
      when the loop ran out (`found` stayed false). */
  method FirstMatch(lowered: string) returns (k: nat)
    ensures k == ClassifyFrom(lowered, 0)
  {
    k := 0;
    var found := false;
    while k < |Catalogue| && !found
      invariant k <= |Catalogue|
      invariant found ==> k < |Catalogue| && Matches(Catalogue[k], lowered)
      invariant forall j :: 0 <= j < k ==> !Matches(Catalogue[j], lowered)
      decreases |Catalogue| - k, !found
    {
      if Matches(Catalogue[k], lowered) {
        found := true;
      } else {
        k := k + 1;
      }
    }
    ClassifyFromIsFirst(lowered, k);
  }

  /** The first match is unique: any index that matches and is preceded only by
      non-matching satellites is the one `ClassifyFrom` finds. */
  lemma ClassifyFromIsFirst(lowered: string, k: nat)
    requires k <= OthersIndex
    requires k < OthersIndex ==> Matches(Catalogue[k], lowered)
    requires forall j :: 0 <= j < k ==> !Matches(Catalogue[j], lowered)
    ensures ClassifyFrom(lowered, 0) == k
  {
  }

  lemma InBucketStep(repos: seq<Repo>, i: nat, b: nat)
    requires i < |repos|
    ensures InBucket(repos[..i + 1], b)
         == InBucket(repos[..i], b) + (if Classify(repos[i].name) == b then [repos[i]] else [])
  {
    assert repos[..i + 1][..i] == repos[..i];
  }

  /** The buckets carry the satellite names in declared order, then `OTHERS`. */
  ghost predicate NamedBuckets(grouped: seq<Bucket>)
  {
    |grouped| == OthersIndex + 1 && forall b :: 0 <= b < |grouped| ==> grouped[b].name == BucketName(b)
  }

  /** The contents of the grouping of the first `i` repositories. */
  ghost predicate GroupsPrefix(grouped: seq<Bucket>, repos: seq<Repo>, i: nat)
    requires i <= |repos|
  {
    && |grouped| == OthersIndex + 1
    && (forall b :: 0 <= b < |grouped| ==> grouped[b].repos == InBucket(repos[..i], b))
    && Union(grouped) == multiset(repos[..i])
  }

  /** One bucket after the next repository is placed: it grows by that
      repository exactly when the repository is classified into it. */
  lemma BucketStep(bucket: Bucket, repos: seq<Repo>, i: nat, b: nat, k: nat)
    requires i < |repos| && k == Classify(repos[i].name)
    requires bucket.repos == InBucket(repos[..i], b)
    ensures (if b == k then Bucket(bucket.name, bucket.repos + [repos[i]]) else bucket).repos
         == InBucket(repos[..i + 1], b)
  {
    InBucketStep(repos, i, b);
  }

  /** Placing a repository in bucket `k` keeps every bucket's name. */
  lemma PlaceKeepsNames(grouped: seq<Bucket>, k: nat, r: Repo)
    requires k < |grouped|
    ensures var g' := grouped[k := Bucket(grouped[k].name, grouped[k].repos + [r])];
      |g'| == |grouped| && forall b :: 0 <= b < |g'| ==> g'[b].name == grouped[b].name
  {
  }

  /** Placing the next repository in the bucket it is classified into keeps
      every bucket equal to its filter of the input seen so far. */
  lemma PlaceKeepsBuckets(grouped: seq<Bucket>, repos: seq<Repo>, i: nat, k: nat)
    requires i < |repos| && k == Classify(repos[i].name) && k < |grouped|
    requires forall b :: 0 <= b < |grouped| ==> grouped[b].repos == InBucket(repos[..i], b)
    ensures var g' := grouped[k := Bucket(grouped[k].name, grouped[k].repos + [repos[i]])];
      forall b :: 0 <= b < |g'| ==> g'[b].repos == InBucket(repos[..i + 1], b)
  {
    var g' := grouped[k := Bucket(grouped[k].name, grouped[k].repos + [repos[i]])];
    forall b | 0 <= b < |g'|
      ensures g'[b].repos == InBucket(repos[..i + 1], b)
    {
      assert g'[b] == if b == k then Bucket(grouped[k].name, grouped[k].repos + [repos[i]]) else grouped[b];
      BucketStep(grouped[b], repos, i, b, k);
    }
  }

  /** Appending the next repository to its bucket extends the grouping by one. */
  lemma GroupStep(grouped: seq<Bucket>, repos: seq<Repo>, i: nat)
    requires i < |repos| && GroupsPrefix(grouped, repos, i)
    ensures var k := Classify(repos[i].name);
      GroupsPrefix(grouped[k := Bucket(grouped[k].name, grouped[k].repos + [repos[i]])], repos, i + 1)
  {
    var r := repos[i];
    var k := Classify(r.name);
    assert multiset(repos[..i + 1]) == multiset(repos[..i]) + multiset{r} by {
      assert repos[..i + 1] == repos[..i] + [r];
    }
    AppendToBucket(grouped, k, r);
    PlaceKeepsBuckets(grouped, repos, i, k);
  }

  /** `group_repos_by_satellite`. The result has exactly the five satellite
      buckets and `OTHERS`, in that order; bucket `b` holds, in input order, the
      repositories classified into `b`; and together the buckets hold every
      input repository exactly once. */
  method GroupBySatellite(repos: seq<Repo>) returns (grouped: seq<Bucket>)
    ensures |grouped| == OthersIndex + 1
    ensures forall b :: 0 <= b < |grouped| ==> grouped[b].name == BucketName(b)
    ensures forall b :: 0 <= b < |grouped| ==> grouped[b].repos == InBucket(repos, b)
    ensures Union(grouped) == multiset(repos)
  {
    grouped := EmptyGrouping();
    EmptyUnion(grouped);
    var i := 0;
    while i < |repos|
      invariant i <= |repos|
      invariant NamedBuckets(grouped)
      invariant GroupsPrefix(grouped, repos, i)
    {
      var r := repos[i];
      var k := FirstMatch(Lower(r.name));
      GroupStep(grouped, repos, i);
      PlaceKeepsNames(grouped, k, r);
      grouped := grouped[k := Bucket(grouped[k].name, grouped[k].repos + [r])];
      i := i + 1;
    }
    assert repos[..i] == repos;
  }

  /** The buckets' sizes add up to the size of their union. */
  lemma {:induction false} TotalSizeIsUnionSize(grouped: seq<Bucket>)
    ensures TotalSize(grouped) == |Union(grouped)|
    decreases |grouped|
  {
    if |grouped| > 0 {
      TotalSizeIsUnionSize(grouped[1..]);
    }
  }

  /** A grouping that holds every repository exactly once has as many entries
      as there are repositories. */
  lemma GroupingSize(repos: seq<Repo>, grouped: seq<Bucket>)
    requires Union(grouped) == multiset(repos)
    ensures TotalSize(grouped) == |repos|
  {
    TotalSizeIsUnionSize(grouped);
  }

  /** A repository is in bucket `b` exactly when it is an input repository
      classified into `b`. */
  lemma {:induction false} InBucketMembership(repos: seq<Repo>, b: nat, r: Repo)
    ensures r in InBucket(repos, b) <==> r in repos && Classify(r.name) == b
    decreases |repos|
  {
    if |repos| > 0 {
      InBucketMembership(repos[..|repos| - 1], b, r);
      assert repos == repos[..|repos| - 1] + [repos[|repos| - 1]];
    }
  }

  /** Each repository lands in one bucket only: in no bucket other than the one
      it is classified into. */
  lemma ExactlyOneBucket(repos: seq<Repo>, r: Repo, b: nat)
    requires r in repos && b <= OthersIndex
    ensures r in InBucket(repos, b) <==> b == Classify(r.name)
  {
    InBucketMembership(repos, b, r);
  }

  /** A satellite none of whose keywords can start anywhere in the name does
      not match it. */
  lemma NoKeywordStarts(sat: Satellite, lowered: string)
    requires forall i :: 0 <= i < |sat.keywords| ==> |sat.keywords[i]| > 0
    requires forall i, j :: 0 <= i < |sat.keywords| && 0 <= j < |lowered| ==> lowered[j] != LowerChar(sat.keywords[i][0])
    ensures !Matches(sat, lowered)
  {
    forall i | 0 <= i < |sat.keywords|
      ensures !IsSubstring(Lower(sat.keywords[i]), lowered)
    {
      var p := Lower(sat.keywords[i]);
      SubstringIffOccurs(p, lowered);
      forall at: int
        ensures !OccursAt(p, lowered, at)
      {
        if 0 <= at && at + |p| <= |lowered| {
          assert lowered[at..at + |p|][0] == lowered[at];
        }
      }
    }
  }

  /** A keyword found at one position of the name is enough for a match. */
  lemma MatchesAt(sat: Satellite, i: nat, lowered: string, at: nat)
    requires i < |sat.keywords|
    requires OccursAt(Lower(sat.keywords[i]), lowered, at)
    ensures Matches(sat, lowered)
  {
    SubstringIffOccurs(Lower(sat.keywords[i]), lowered);
  }

  lemma KashiwaShortKeyword()
    ensures Catalogue[1].keywords[2] == "ksh" && Lower("ksh") == "ksh"
  {
    LowerOfLowercase("ksh");
  }

  lemma MomijiShortKeyword()
    ensures Catalogue[4].keywords[2] == "mmj" && Lower("mmj") == "mmj"
  {
    LowerOfLowercase("mmj");
  }

  /** Every YOMOGI keyword starts with a `y` once lowered, so a lowered name
      without a `y` is not a YOMOGI name. */
  lemma NoYomogiWithoutY(lowered: string)
    requires forall j :: 0 <= j < |lowered| ==> lowered[j] != 'y'
    ensures !Matches(Catalogue[0], lowered)
  {
    NoKeywordStarts(Catalogue[0], lowered);
  }

  /** A repository never lands in a satellite declared after one it matches:
      the loop stops at the first match. */
  lemma NeverPassedOver(name: string, b: nat)
    requires b < OthersIndex && Matches(Catalogue[b], Lower(name))
    ensures Classify(name) <= b
  {
  }

  /** Overlapping keywords are settled by declared order: `ksh-mmj` matches
      both KASHIWA and MOMIJI and goes to KASHIWA, which is declared first. */
  lemma FirstDeclaredWins()
    ensures Matches(Catalogue[4], Lower("ksh-mmj"))
    ensures Classify("ksh-mmj") == 1
    ensures BucketName(1) == "KASHIWA"
  {
    var name := "ksh-mmj";
    assert Lower(name) == name by {
      LowerOfLowercase(name);
    }
    assert Matches(Catalogue[1], name) by {
      KashiwaShortKeyword();
      assert OccursAt("ksh", name, 0);
      MatchesAt(Catalogue[1], 2, name, 0);
    }
    assert Matches(Catalogue[4], name) by {
      MomijiShortKeyword();
      assert OccursAt("mmj", name, 4);
      MatchesAt(Catalogue[4], 2, name, 4);
    }
    NoYomogiWithoutY(name);
    ClassifyFromIsFirst(name, 1);
  }

  lemma LowerWorkshop()
    ensures Lower("Workshop") == "workshop"
  {
    var r := Lower("Workshop");
    assert r[0] == 'w';
    assert r[1..] == "Workshop"[1..];
  }

  /** The short keywords also match inside ordinary words, whatever their case:
      "Workshop" contains "ksh" and so is filed under KASHIWA. */
  lemma ShortKeywordMatchesInsideWords()
    ensures Classify("Workshop") == 1
  {
    var name := "workshop";
    LowerWorkshop();
    assert Matches(Catalogue[1], name) by {
      KashiwaShortKeyword();
      assert OccursAt("ksh", name, 3);
      MatchesAt(Catalogue[1], 2, name, 3);
    }
    NoYomogiWithoutY(name);
    ClassifyFromIsFirst(name, 1);
  }
}
