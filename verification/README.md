# org_stats core, modelled in Dafny

`scripts/org_stats.py` builds the statistics block of an organisation's
profile README. It lists every repository of the organisation page by page,
sorts them by last push, sums the per-repository language byte counts and
contributor counts into organisation-wide counters, files every repository
under one of five "satellite" projects (YOMOGI, KASHIWA, SAKURA, BOTAN,
MOMIJI) or `OTHERS` by keywords in its name, and renders Markdown fragments:
the recent-activity table, the contributor ranking and the satellite listing.

This project models that logic as pure Dafny functions and methods and proves
what the script promises about it:

- `Wrappers`, `Seqs`, `Text`: optional values, slices and concatenation,
  ASCII `str.lower()`, the `in` substring test, string ordering and `str(n)`.
- `Repos`: the repository record and Python's `value or default`.
- `Pagination`: the `fetch_all_repos` loop over an abstract sequence of host
  answers.
- `Sorting`, `Recency`: a stable sort by a string key, and the newest-first
  ordering of the listing.
- `Counter`: `collections.Counter` as an insertion-ordered sequence of
  (key, count) entries, with `c[k] += n` and `most_common(n)`.
- `Aggregate`: `aggregate_languages` and `aggregate_contributors`.
- `Satellites`: `group_repos_by_satellite`.
- `Markdown`: `make_recent_repos_table`, `make_contributors_section` and
  `make_satellite_section`, each as a list of lines whose concatenation is the
  fragment.

Host answers are parameters: a page or a per-repository answer is
`Some(items)`, or `None` when the request raised. A `Counter` keeps its keys in
first-insertion order, so `most_common` is modelled as "a stable sort by
count, largest first, then the first `n` entries". That is the order Python
documents for ties.

## Model

| member | source | states |
|---|---|---|
| Text.Lower | scripts/org_stats.py:178 | `name.lower()` keeps the length and lowers each ASCII capital by 32 code points; every other character is kept. |
| Text.LowerIdempotent | scripts/org_stats.py:178-181 | Lowering a string that is already lowered changes nothing, so `kw.lower()` on a lowered keyword is harmless. |
| Text.SubstringIffOccurs | scripts/org_stats.py:181 | `kw in lower` holds exactly when `kw` occurs at some position of `lower`. |
| Text.StrLtTransitive | scripts/org_stats.py:259 | String comparison, as used by `sorted` and `list.sort`, is transitive. |
| Text.StrLtTotal | scripts/org_stats.py:259 | Of two different strings, exactly one compares below the other. |
| Text.EmptyIsLeast | scripts/org_stats.py:277 | The fallback key `""` compares below every non-empty timestamp. |
| Text.NatToString | scripts/org_stats.py:205 | `str(n)` is a non-empty run of decimal digits with no leading zero. |
| Text.NatToStringRoundTrip | scripts/org_stats.py:205 | Reading the rendered digits back gives the number that was rendered. |
| Sorting.SortByKey | scripts/org_stats.py:259 | `sorted(s, key=…, reverse=…)`: the result is ordered by the key, is a permutation of the input, and elements with equal keys keep their input order. |
| Counter.Add | scripts/org_stats.py:122 | `c[k] += n` grows only `k`'s count, by `n`. A new key is appended. Existing keys keep their order. Keys stay distinct. |
| Counter.AddOrder | scripts/org_stats.py:122 | `c[k] += n` leaves the key order unchanged for a key already present, and appends a new key at the end. |
| Counter.SortByCountDesc | scripts/org_stats.py:163 | Entries ordered by count, largest first, as a permutation of the input. Equal counts keep their input order. |
| Counter.MostCommon | scripts/org_stats.py:163 | `most_common(n)` gives `min(n, len)` entries, largest first, drawn from the counter. No entry left out is larger than one kept. Ties keep insertion order. Everything is kept when fewer than `n` exist. |
| Pagination.FetchAllRepos | scripts/org_stats.py:66-83 | Pages are requested in order while each is full. The loop stops at a failed, empty or short page. The listing is the concatenation of the requested pages, or nothing when a request raised. |
| Pagination.CollectedIgnoresLaterPages | scripts/org_stats.py:74-82 | Pages after the stopping page never affect the listing. |
| Pagination.CollectedIsFlatten | scripts/org_stats.py:79 | When every page arrives, the listing is the `extend` of the pages in order. |
| Satellites.EmptyGrouping | scripts/org_stats.py:173-174 | Before any repository is placed there are six empty buckets: the satellites in declared order, then `OTHERS`. |
| Satellites.MatchesIffOccurs | scripts/org_stats.py:181 | A satellite matches a name exactly when one of its lowered keywords occurs at some position of the lowered name. |
| Satellites.Classify | scripts/org_stats.py:176-186 | The bucket of a name is the first satellite, in declared order, one of whose lowered keywords occurs in the lowered name, or `OTHERS`. |
| Satellites.FirstMatch | scripts/org_stats.py:179-186 | The inner loop with `found` and `break` stops at exactly that first matching satellite. |
| Satellites.GroupBySatellite | scripts/org_stats.py:167-187 | Six buckets named in declared order, then `OTHERS`. Each bucket holds the repositories classified into it, in input order. Together the buckets hold every input repository exactly once. |
| Satellites.GroupingSize | scripts/org_stats.py:173-186 | A grouping holding every repository exactly once has, over all buckets, as many entries as there are repositories. |
| Satellites.InBucketMembership | scripts/org_stats.py:176-186 | A repository is in bucket `b` iff it is an input repository classified into `b`. |
| Satellites.ExactlyOneBucket | scripts/org_stats.py:180-186 | An input repository is in a bucket iff that bucket is its classification. |
| Satellites.NeverPassedOver | scripts/org_stats.py:180-184 | A repository never lands in a satellite declared after one it matches. |
| Satellites.FirstDeclaredWins | scripts/org_stats.py:180-184 | `ksh-mmj`, which matches both KASHIWA and MOMIJI, goes to KASHIWA, the one declared first. |
| Satellites.ShortKeywordMatchesInsideWords | scripts/org_stats.py:38 | The three-letter keywords match inside ordinary words in any case: `Workshop` is filed under KASHIWA. |
| Aggregate.AddBatch | scripts/org_stats.py:121-122 | The inner loop over one repository's answer takes the tally of the repositories before it to the tally including it: sums, key set and first-seen key order. |
| Aggregate.Accumulate | scripts/org_stats.py:117-122 | After both loops, each key's count is the sum of all its increments. The keys are exactly those mentioned, each once, in order of first mention. |
| Aggregate.TotalPermutation | scripts/org_stats.py:118-122 | The sums do not depend on the order in which the repositories are visited. |
| Aggregate.AggregateLanguages | scripts/org_stats.py:112-123 | Each language's total is the sum of its byte counts over the repositories whose request succeeded. The languages are exactly those mentioned, in order of first mention. |
| Aggregate.FailedReplyAddsNothing | scripts/org_stats.py:92-96 | A repository whose `/languages` request failed leaves every total as if it were absent. |
| Aggregate.Counted | scripts/org_stats.py:158-162 | One answer makes at most one increment per item, and none under an empty login. |
| Aggregate.NoLoginAddsNothing | scripts/org_stats.py:159-161 | An item without a login, or with an empty one, adds nothing: the answer makes the same increments as the answer without that item. |
| Aggregate.LoginAddsItsCount | scripts/org_stats.py:159-162 | An item with a login adds exactly one increment at its place: that login with its `contributions`, 0 when the key is absent. |
| Aggregate.EmptyLoginNeverCounted | scripts/org_stats.py:161 | The empty login is never a key of the contributor totals. |
| Aggregate.AggregateContributors | scripts/org_stats.py:149-163 | At most `top_n` logins, most contributions first, each listed once. Each was seen, is non-empty and carries its full sum. No login left out has more than one listed. All logins are listed when fewer than `top_n` exist. Two listed logins with equal sums appear in the order they were first met. A login left out with the sum of a listed one was first met after it. |
| Markdown.SplitJoin | scripts/org_stats.py:207 | Splitting the joined lines at line breaks gives the lines back, when each is a single line. |
| Markdown.PushedCell | scripts/org_stats.py:202-205 | The Pushed cell is `-` for a missing or empty timestamp. Otherwise it is the first `min(10, len)` characters of the timestamp. It never exceeds 10 characters. |
| Markdown.LangCell | scripts/org_stats.py:204 | The Lang cell is the language, or `-` when it is null or empty. |
| Repos.OrDefault | scripts/org_stats.py:204 | `value or default`: a missing or empty string gives the default; any other string is kept. |
| Markdown.RecentRow | scripts/org_stats.py:202-205 | A row opens with the repository link and then the Pushed cell (`-` when never pushed, at most 10 characters) and the star mark. The digits that follow read back as the star count, with no leading zero. The row closes with the Lang cell. It is a single line when no field holds a line break. |
| Markdown.RecentReposLines | scripts/org_stats.py:191-207 | Three header lines, one row for each of the first `limit` repositories in order, then a blank line. |
| Markdown.MakeRecentReposTable | scripts/org_stats.py:191-207 | The table opens with its heading line. |
| Markdown.RecentTableReadsBack | scripts/org_stats.py:191-207 | The rendered table splits back into exactly its lines, `4 + min(limit, len)` of them. |
| Markdown.ContributorRow | scripts/org_stats.py:223 | A row opens with the `@login` cell. The digits of the next cell read back as the count, with no leading zero, as `str(cnt)` writes it. |
| Markdown.ContributorRowIsLine | scripts/org_stats.py:223 | A ranking row is a single line when the login holds no line break. |
| Markdown.ContributorLines | scripts/org_stats.py:210-225 | An empty ranking gives the heading and the "no data" text, and only it does. Otherwise: heading, two header lines, one row per login in ranking order, blank line. |
| Markdown.ContributorsSectionReadsBack | scripts/org_stats.py:210-225 | The rendered ranking splits back into exactly its lines. |
| Markdown.MakeContributorsSection | scripts/org_stats.py:210-225 | The fragment opens with its heading. An empty ranking renders as exactly the heading followed by `データがありません。\n\n`. |
| Markdown.ByName | scripts/org_stats.py:259 | A bucket's repositories, a permutation ordered case-insensitively by name. Names equal up to case keep their input order. |
| Markdown.BulletLine | scripts/org_stats.py:260 | A bullet is `- [name](url)` and a line break: the name in brackets, linked to the repository URL. It is a single line when neither the name nor the URL holds a line break. |
| Markdown.BucketBlock | scripts/org_stats.py:255-261 | An empty bucket contributes no lines, and only an empty one. Otherwise: its heading, one bullet per repository in name order, a blank line. |
| Markdown.EmptyBucketSkipped | scripts/org_stats.py:256-257 | The listing is the same with or without an empty bucket. |
| Markdown.SatelliteLineCount | scripts/org_stats.py:249-262 | The listing has `1 + (repositories) + 2 × (non-empty buckets)` lines. |
| Markdown.MakeSatelliteSection | scripts/org_stats.py:249-262 | The listing opens with its heading line. |
| Markdown.SatelliteSectionReadsBack | scripts/org_stats.py:249-262 | The rendered listing splits back into exactly its lines. |
| Recency.SortByRecency | scripts/org_stats.py:277 | `repos.sort(key=pushed_at or "", reverse=True)`: a permutation, newest first. Repositories never pushed come last. Equal timestamps keep listing order. |
| Recency.NeverPushedLast | scripts/org_stats.py:277 | In a newest-first order, a never-pushed repository is followed only by never-pushed ones. |
| Recency.NewerFirstNeverPushedLast | scripts/org_stats.py:277 | Take older, never-pushed, newer, in that order. The first two after sorting are the newer one, then the older one. |
| Recency.RecentOrderExample | scripts/org_stats.py:199 | Repositories pushed 2024-01-01, never, and 2024-03-01 show, with a limit of two, as March then January. |

## Left out

- `github_api` (scripts/org_stats.py:48-63): HTTP, the token and JSON decoding are not modelled. Each host answer is a parameter. A raised request is `None`.
- `fetch_all_repos`: a raised request propagates out of `main` and ends the run. `Pagination.FetchAllRepos` reports it as a `None` listing.
- `fetch_repo_languages` and `fetch_repo_contributors` (scripts/org_stats.py:86-108): their `except` branches become "`None` counts as `{}` / `[]`". Only the first 100 contributors of a repository are requested. The model takes whatever list the answer holds.
- `save_language_svg` (scripts/org_stats.py:126-145): chart drawing with matplotlib, outside the pure core.
- `make_language_section` (scripts/org_stats.py:228-246): its ratio column is floating-point formatting.
- The 30-day activity count (scripts/org_stats.py:280-287): it needs the clock and ISO timestamp parsing.
- `main`'s environment reads, `print` calls and exit codes (scripts/org_stats.py:28-33, 265-274) are I/O. The rest of `main` after line 300, including the README block rewrite, is not part of this model.
- Text.Lower: only ASCII letters are lowered. Python's `str.lower()` also lowers non-ASCII letters. Keywords and ordinary repository names are ASCII.
- Aggregate.AggregateContributors: `contributions` present but `null` makes Python raise `TypeError` at `+=`. That is not modelled: the model has a missing key count as 0 and cannot express a null.
- Aggregate.AggregateContributors: `top_n` is a `nat`, so Python's negative `top_n` (which gives an empty list) is not modelled.
- Markdown.RecentReposLines: `limit` is a `nat`, so Python's negative slice bound `repos[:-k]` is not modelled.
- Counter.Add: counts are `nat`. Language sizes and contribution counts from the host are never negative.
- Markdown.RecentTableReadsBack: the read-back holds when no rendered field contains a line break (`PlainRepo`). A name with a line break would split a row.
- Markdown.ContributorsSectionReadsBack: the read-back holds when no login contains a line break. A login with a line break would split its row.
- Markdown.SatelliteSectionReadsBack: the read-back holds when no bucket name, repository name or URL contains a line break (`PlainGrouping`). Such a field would split its line.
- Markdown.ContributorLines: the source appends the "no data" text and the blank line as one string, `"データがありません。\n\n"`. The model keeps them as two lines, which join to the same text.
