/** The Markdown fragments of the report: the recent-activity table, the
    contributor ranking and the satellite listing. Each fragment is built as a
    list of lines and rendered with `"".join`. */
module Markdown {
  import opened Wrappers
  import opened Seqs
  import opened Text
  import opened Repos
  import opened Counter
  import opened Sorting
  import opened Satellites

  // ---- lines ----

  predicate NoNewline(s: string)
  {
    forall i :: 0 <= i < |s| ==> s[i] != '\n'
  }

  /** A line of text: its content followed by one line break. */
  function Line(content: string): string
  {
    content + "\n"
  }

  /** A single line: non-empty, ending in its only line break. */
  predicate IsLine(l: string)
  {
    |l| > 0 && l[|l| - 1] == '\n' && NoNewline(l[..|l| - 1])
  }

  lemma LineIsLine(content: string)
    requires NoNewline(content)
    ensures IsLine(Line(content))
  {
    assert Line(content)[..|content|] == content;
  }

  /** Every entry of `ls` is a single line. */
  predicate AllLines(ls: seq<string>)
  {
    forall i :: 0 <= i < |ls| ==> IsLine(ls[i])
  }

  lemma AllLinesConcat(a: seq<string>, b: seq<string>)
    requires AllLines(a) && AllLines(b)
    ensures AllLines(a + b)
  {
    forall i | 0 <= i < |a + b| ensures IsLine((a + b)[i]) {
      if i < |a| {
        assert (a + b)[i] == a[i];
      } else {
        assert (a + b)[i] == b[i - |a|];
      }
    }
  }

  lemma NoNewlineConcat(a: string, b: string)
    requires NoNewline(a) && NoNewline(b)
    ensures NoNewline(a + b)
  {
  }

  /** `"".join(lines)`. */
  function Join(ls: seq<string>): string
  {
    Flatten(ls)
  }

  function FirstNewline(s: string): (i: nat)
    ensures i <= |s|
    ensures i < |s| ==> s[i] == '\n'
    ensures NoNewline(s[..i])
  {
    if |s| == 0 then 0
    else if s[0] == '\n' then 0
    else
      var j := FirstNewline(s[1..]);
      assert s[..j + 1] == [s[0]] + s[1..][..j];
      j + 1
  }

  /** `str.splitlines(keepends=True)` for `\n`: cut the text after every line
      break; a last piece without one is kept as it is. Joining the pieces
      gives the text back. */
  function SplitLines(s: string): (ls: seq<string>)
    ensures Join(ls) == s
    ensures forall i :: 0 <= i < |ls| - 1 ==> IsLine(ls[i])
    decreases |s|
  {
    if |s| == 0 then []
    else
      var i := FirstNewline(s);
      if i == |s| then
        assert Join([s]) == s by { FlattenCons(s, []); }
        [s]
      else
        var head := s[..i + 1];
        var rest := SplitLines(s[i + 1..]);
        assert head[..|head| - 1] == s[..i];
        FlattenCons(head, rest);
        assert head + s[i + 1..] == s;
        [head] + rest
  }

  lemma {:induction false} FirstNewlineOfLine(l: string, rest: string)
    requires IsLine(l)
    ensures FirstNewline(l + rest) == |l| - 1
    decreases |l|
  {
    if |l| > 1 {
      assert (l + rest)[1..] == l[1..] + rest;
      assert l[1..][..|l| - 2] == l[..|l| - 1][1..];
      FirstNewlineOfLine(l[1..], rest);
    }
  }

  /** Splitting the rendered lines gives the lines back, as long as every one
      of them is a single line. */
  lemma {:induction false} SplitJoin(ls: seq<string>)
    requires AllLines(ls)
    ensures SplitLines(Join(ls)) == ls
    decreases |ls|
  {
    if |ls| > 0 {
      var l := ls[0];
      var rest := Join(ls[1..]);
      assert ls == [l] + ls[1..];
      FlattenCons(l, ls[1..]);
      FirstNewlineOfLine(l, rest);
      assert (l + rest)[..|l|] == l;
      assert (l + rest)[|l|..] == rest;
      SplitJoin(ls[1..]);
    }
  }

  // ---- recent-activity table ----

  const RecentHeading: string := Line("### \U{1F4E6} 最近動いたリポジトリ")
  const RecentColumns: string := Line("| Repo | Pushed | Stars | Lang |")
  const RecentRule: string := Line("|------|--------|-------|------|")
  const BlankLine: string := Line("")

  /** The Pushed column, `(r["pushed_at"] or "-")[:10]`: the date part of the
      timestamp, or `-` when there is none. */
  function PushedCell(r: Repo): (c: string)
    ensures |c| <= 10
    ensures NeverPushed(r) ==> c == "-"
    ensures !NeverPushed(r) ==> c <= r.pushedAt.value && |c| == Min(10, |r.pushedAt.value|)
  {
    Prefix(OrDefault(r.pushedAt, "-"), 10)
  }

  /** The Lang column, `r["language"] or "-"`. */
  function LangCell(r: Repo): (c: string)
    ensures r.language == None || r.language == Some("") ==> c == "-"
    ensures r.language.Some? && r.language.value != "" ==> c == r.language.value
  {
    OrDefault(r.language, "-")
  }

  /** What a row of the recent table holds before the star count: the
      repository link, the Pushed cell and the star mark. */
  function StarsOpening(r: Repo): string
  {
    "| [" + r.name + "](" + r.htmlUrl + ") | " + PushedCell(r) + " | \U{2B50} "
  }

  /** A row of the recent table: the repository link, then the Pushed, Stars
      and Lang cells. It opens with the link and the Pushed cell, the digits
      after the star read back as the star count with no leading zero, it
      closes with the Lang cell, and it is a single line when no field holds a
      line break. */
  function RecentRow(r: Repo): (row: string)
    ensures IsPrefix("| [" + r.name + "](" + r.htmlUrl + ") | ", row)
    ensures IsPrefix(StarsOpening(r), row)
    ensures |StarsOpening(r)| < |row| - |LangCell(r)| - 6
    ensures var d, e := |StarsOpening(r)|, |row| - |LangCell(r)| - 6;
      AllDigits(row[d..e]) && DigitsValue(row[d..e]) == r.stars && (row[d] == '0' ==> e == d + 1)
    ensures row[|row| - |LangCell(r)| - 6..] == " | " + LangCell(r) + " |\n"
    ensures PlainRepo(r) ==> IsLine(row)
  {
    var link := "| [" + r.name + "](" + r.htmlUrl + ") | ";
    var cells := PushedCell(r) + " | \U{2B50} " + NatToString(r.stars) + " | ";
    var row := link + cells + LangCell(r) + " |\n";
    RecentRowShape(r, link, cells, row);
    StarsReadBack(r, row);
    row
  }

  lemma RecentRowShape(r: Repo, link: string, cells: string, row: string)
    requires link == "| [" + r.name + "](" + r.htmlUrl + ") | "
    requires cells == PushedCell(r) + " | \U{2B50} " + NatToString(r.stars) + " | "
    requires row == link + cells + LangCell(r) + " |\n"
    ensures IsPrefix(link, row)
    ensures PlainRepo(r) ==> IsLine(row)
  {
    RowShape(link, cells, LangCell(r));
    RecentCellsPlain(r);
  }

  /** The digits between the star mark and the Lang cell are `str(stars)`. */
  lemma StarsReadBack(r: Repo, row: string)
    requires row == ("| [" + r.name + "](" + r.htmlUrl + ") | ")
                    + (PushedCell(r) + " | \U{2B50} " + NatToString(r.stars) + " | ") + LangCell(r) + " |\n"
    ensures IsPrefix(StarsOpening(r), row)
    ensures |StarsOpening(r)| < |row| - |LangCell(r)| - 6
    ensures var d, e := |StarsOpening(r)|, |row| - |LangCell(r)| - 6;
      AllDigits(row[d..e]) && DigitsValue(row[d..e]) == r.stars && (row[d] == '0' ==> e == d + 1)
    ensures row[|row| - |LangCell(r)| - 6..] == " | " + LangCell(r) + " |\n"
  {
    var opening := StarsOpening(r);
    var digits := NatToString(r.stars);
    var tail := " | " + LangCell(r) + " |\n";
    assert row == opening + digits + tail;
    assert row[..|opening|] == opening;
    assert row[|opening|..|opening| + |digits|] == digits;
    assert row[|opening| + |digits|..] == tail;
    NatToStringRoundTrip(r.stars);
  }

  /** A row built as `opening + middle + last + " |\n"` opens with `opening`,
      closes with `last + " |\n"`, and is a single line when its parts are. */
  lemma RowShape(opening: string, middle: string, last: string)
    ensures IsPrefix(opening, opening + middle + last + " |\n")
    ensures (opening + middle + last + " |\n")[|opening + middle|..] == last + " |\n"
    ensures NoNewline(opening) && NoNewline(middle) && NoNewline(last)
        ==> IsLine(opening + middle + last + " |\n")
  {
    var row := opening + middle + last + " |\n";
    assert row == opening + (middle + last + " |\n");
    assert row == (opening + middle) + (last + " |\n");
    if NoNewline(opening) && NoNewline(middle) && NoNewline(last) {
      NoNewlineConcat(opening, middle);
      NoNewlineConcat(opening + middle, last);
      NoNewlineConcat(opening + middle + last, " |");
      LineIsLine(opening + middle + last + " |");
    }
  }

  lemma RecentCellsPlain(r: Repo)
    ensures PlainRepo(r) ==> NoNewline("| [" + r.name + "](" + r.htmlUrl + ") | ")
    ensures PlainRepo(r) ==> NoNewline(PushedCell(r) + " | \U{2B50} " + NatToString(r.stars) + " | ")
    ensures PlainRepo(r) ==> NoNewline(LangCell(r))
  {
    DigitsHaveNoNewline(NatToString(r.stars));
  }

  /** The lines of `make_recent_repos_table`: three header lines, one row per
      repository for the first `limit` of them in input order, then a blank
      line. */
  function RecentReposLines(repos: seq<Repo>, limit: nat): (ls: seq<string>)
    ensures |ls| == 4 + Min(limit, |repos|)
    ensures ls[..3] == [RecentHeading, RecentColumns, RecentRule]
    ensures forall i :: 0 <= i < Min(limit, |repos|) ==> ls[3 + i] == RecentRow(repos[i])
    ensures ls[|ls| - 1] == BlankLine
  {
    var shown := Prefix(repos, limit);
    var rows := RecentRows(shown);
    var ls := [RecentHeading, RecentColumns, RecentRule] + rows + [BlankLine];
    FramedRows(rows, ls);
    assert forall i :: 0 <= i < |shown| ==> shown[i] == repos[i];
    ls
  }

  lemma FramedRows(rows: seq<string>, ls: seq<string>)
    requires ls == [RecentHeading, RecentColumns, RecentRule] + rows + [BlankLine]
    ensures |ls| == 4 + |rows|
    ensures ls[..3] == [RecentHeading, RecentColumns, RecentRule]
    ensures forall i :: 0 <= i < |rows| ==> ls[3 + i] == rows[i]
    ensures ls[|ls| - 1] == BlankLine
  {
  }

  /** One table row per repository, in order. */
  function RecentRows(repos: seq<Repo>): (rows: seq<string>)
    ensures |rows| == |repos|
    ensures forall i :: 0 <= i < |repos| ==> rows[i] == RecentRow(repos[i])
  {
    seq(|repos|, i requires 0 <= i < |repos| => RecentRow(repos[i]))
  }

  /** `make_recent_repos_table`: the table opens with its heading. */
  function MakeRecentReposTable(repos: seq<Repo>, limit: nat): (t: string)
    ensures IsPrefix(RecentHeading, t)
  {
    var ls := RecentReposLines(repos, limit);
    assert ls == [ls[0]] + ls[1..];
    FlattenCons(ls[0], ls[1..]);
    Join(ls)
  }

  /** A repository none of whose rendered fields holds a line break. */
  predicate PlainRepo(r: Repo)
  {
    && NoNewline(r.name) && NoNewline(r.htmlUrl)
    && (r.pushedAt.Some? ==> NoNewline(r.pushedAt.value))
    && (r.language.Some? ==> NoNewline(r.language.value))
  }

  lemma DigitsHaveNoNewline(s: string)
    requires AllDigits(s)
    ensures NoNewline(s)
  {
  }

  /** The fixed lines of the report are single lines. */
  lemma FixedLinesAreLines()
    ensures IsLine(RecentHeading) && IsLine(RecentColumns) && IsLine(RecentRule) && IsLine(BlankLine)
    ensures IsLine(ContributorsHeading) && IsLine(NoDataLine)
    ensures IsLine(ContributorColumns) && IsLine(ContributorRule)
    ensures IsLine(SatelliteHeading)
  {
    RecentFixedLines();
    ContributorFixedLines();
    assert IsLine(SatelliteHeading) by { LineIsLine("### \U{1F6F0}\U{FE0F} Satellite Projects"); }
  }

  lemma RecentFixedLines()
    ensures IsLine(RecentHeading) && IsLine(RecentColumns) && IsLine(RecentRule) && IsLine(BlankLine)
  {
    assert IsLine(RecentHeading) by { LineIsLine("### \U{1F4E6} 最近動いたリポジトリ"); }
    assert IsLine(RecentColumns) by { LineIsLine("| Repo | Pushed | Stars | Lang |"); }
    assert IsLine(RecentRule) by { LineIsLine("|------|--------|-------|------|"); }
    assert IsLine(BlankLine) by { LineIsLine(""); }
  }

  lemma ContributorFixedLines()
    ensures IsLine(ContributorsHeading) && IsLine(NoDataLine)
    ensures IsLine(ContributorColumns) && IsLine(ContributorRule)
  {
    ContributorHeadingLines();
    ContributorTableLines();
  }

  lemma ContributorHeadingLines()
    ensures IsLine(ContributorsHeading) && IsLine(NoDataLine)
  {
    assert IsLine(ContributorsHeading) by {
      LineIsLine("### \U{1F9D1}\U{200D}\U{1F4BB} Top Contributors (all repos)");
    }
    assert IsLine(NoDataLine) by { LineIsLine("データがありません。"); }
  }

  lemma ContributorTableLines()
    ensures IsLine(ContributorColumns) && IsLine(ContributorRule)
  {
    assert IsLine(ContributorColumns) by { LineIsLine("| User | Contributions |"); }
    assert IsLine(ContributorRule) by { LineIsLine("|------|----------------|"); }
  }

  /** The rendered table reads back as exactly its lines: three header lines,
      `min(limit, |repos|)` rows in input order, and a blank line. */
  lemma RecentTableReadsBack(repos: seq<Repo>, limit: nat)
    requires forall i :: 0 <= i < |repos| ==> PlainRepo(repos[i])
    ensures SplitLines(MakeRecentReposTable(repos, limit)) == RecentReposLines(repos, limit)
    ensures |SplitLines(MakeRecentReposTable(repos, limit))| == 4 + Min(limit, |repos|)
  {
    RecentLinesAreLines(repos, limit);
    SplitJoin(RecentReposLines(repos, limit));
  }

  lemma RecentLinesAreLines(repos: seq<Repo>, limit: nat)
    requires forall i :: 0 <= i < |repos| ==> PlainRepo(repos[i])
    ensures AllLines(RecentReposLines(repos, limit))
  {
    var ls := RecentReposLines(repos, limit);
    RecentFixedLines();
    forall i | 0 <= i < |ls| ensures IsLine(ls[i]) {
      if 3 <= i < |ls| - 1 {
        assert PlainRepo(repos[i - 3]);
      } else if i < 3 {
        assert ls[i] == [RecentHeading, RecentColumns, RecentRule][i];
      }
    }
  }

  // ---- contributor ranking ----

  const ContributorsHeading: string := Line("### \U{1F9D1}\U{200D}\U{1F4BB} Top Contributors (all repos)")
  const NoDataLine: string := Line("データがありません。")
  const ContributorColumns: string := Line("| User | Contributions |")
  const ContributorRule: string := Line("|------|----------------|")

  /** A row of the ranking: the login, then the summed contributions. It opens
      with the login cell, and the digits between that cell and the closing
      bar read back as the count, with no leading zero. */
  function ContributorRow(e: Entry): (row: string)
    ensures IsPrefix("| @" + e.key + " | ", row)
    ensures |e.key| + 6 <= |row| - 3 && row[|row| - 3..] == " |\n"
    ensures AllDigits(row[|e.key| + 6..|row| - 3]) && DigitsValue(row[|e.key| + 6..|row| - 3]) == e.count
    ensures row[|e.key| + 6] == '0' ==> |row| == |e.key| + 10
  {
    var cell := "| @" + e.key + " | ";
    var digits := NatToString(e.count);
    var row := cell + digits + " |\n";
    assert row[|e.key| + 6..|row| - 3] == digits;
    NatToStringRoundTrip(e.count);
    row
  }

  /** A ranking row is a single line when the login holds no line break. */
  lemma ContributorRowIsLine(e: Entry)
    requires NoNewline(e.key)
    ensures IsLine(ContributorRow(e))
  {
    var digits := NatToString(e.count);
    DigitsHaveNoNewline(digits);
    NoNewlineConcat("| @", e.key);
    NoNewlineConcat("| @" + e.key, " | ");
    NoNewlineConcat("| @" + e.key + " | ", digits);
    NoNewlineConcat("| @" + e.key + " | " + digits, " |");
    LineIsLine("| @" + e.key + " | " + digits + " |");
    assert ContributorRow(e) == Line("| @" + e.key + " | " + digits + " |");
  }

  /** The lines of `make_contributors_section`: for an empty ranking only the
      heading, the "no data" line and a blank line; otherwise the heading, two
      table header lines, one row per ranked login in ranking order, and a
      blank line. */
  function ContributorLines(top: seq<Entry>): (ls: seq<string>)
    ensures |top| == 0 <==> ls == [ContributorsHeading, NoDataLine, BlankLine]
    ensures |top| > 0 ==> |ls| == 4 + |top|
    ensures |top| > 0 ==> ls[..3] == [ContributorsHeading, ContributorColumns, ContributorRule]
    ensures |top| > 0 ==> forall i :: 0 <= i < |top| ==> ls[3 + i] == ContributorRow(top[i])
    ensures ls[|ls| - 1] == BlankLine
  {
    if |top| == 0 then [ContributorsHeading, NoDataLine, BlankLine]
    else
      [ContributorsHeading, ContributorColumns, ContributorRule]
        + seq(|top|, i requires 0 <= i < |top| => ContributorRow(top[i]))
        + [BlankLine]
  }

  /** `make_contributors_section`: the fragment opens with its heading; an
      empty ranking renders as the heading followed by the "no data" text and
      a blank line, and nothing else. */
  function MakeContributorsSection(top: seq<Entry>): (t: string)
    ensures IsPrefix(ContributorsHeading, t)
    ensures |top| == 0 ==> t == ContributorsHeading + NoDataLine + BlankLine
  {
    var ls := ContributorLines(top);
    assert ls == [ls[0]] + ls[1..];
    FlattenCons(ls[0], ls[1..]);
    if |top| == 0 then
      assert ls[1..] == [NoDataLine] + [BlankLine];
      FlattenCons(NoDataLine, [BlankLine]);
      FlattenCons(BlankLine, []);
      Join(ls)
    else
      Join(ls)
  }

  lemma ContributorLinesAreLines(top: seq<Entry>)
    requires forall i :: 0 <= i < |top| ==> NoNewline(top[i].key)
    ensures AllLines(ContributorLines(top))
  {
    var ls := ContributorLines(top);
    FixedLinesAreLines();
    forall i | 0 <= i < |ls| ensures IsLine(ls[i]) {
      if |top| == 0 {
        assert ls[i] == [ContributorsHeading, NoDataLine, BlankLine][i];
      } else if 3 <= i < |ls| - 1 {
        ContributorRowIsLine(top[i - 3]);
      } else if i < 3 {
        assert ls[i] == [ContributorsHeading, ContributorColumns, ContributorRule][i];
      }
    }
  }

  /** The rendered ranking, the join `MakeContributorsSection` returns, reads
      back as exactly its lines. */
  lemma ContributorsSectionReadsBack(top: seq<Entry>)
    requires forall i :: 0 <= i < |top| ==> NoNewline(top[i].key)
    ensures SplitLines(Join(ContributorLines(top))) == ContributorLines(top)
  {
    ContributorLinesAreLines(top);
    SplitJoin(ContributorLines(top));
  }

  // ---- satellite listing ----

  const SatelliteHeading: string := Line("### \U{1F6F0}\U{FE0F} Satellite Projects")

  /** The listing's sort key, `x["name"].lower()`. */
  function NameKey(r: Repo): string
  {
    Lower(r.name)
  }

  /** `sorted(repos, key=lambda x: x["name"].lower())`: the same repositories,
      ordered case-insensitively by name; names equal up to case keep their
      input order. */
  function ByName(repos: seq<Repo>): (sorted: seq<Repo>)
    ensures multiset(sorted) == multiset(repos)
    ensures |sorted| == |repos|
    ensures forall i, j :: 0 <= i < j < |sorted| ==> !StrLt(Lower(sorted[j].name), Lower(sorted[i].name))
    ensures forall k :: WithKey(sorted, NameKey, k) == WithKey(repos, NameKey, k)
  {
    SortByKey(repos, NameKey, false)
  }

  /** A bullet of the listing: the repository name linked to its page. It
      opens with the bracketed name, continues with the URL and the closing
      parenthesis, and is a single line when neither the name nor the URL
      holds a line break. */
  function BulletLine(r: Repo): (line: string)
    ensures IsPrefix("- [" + r.name + "](", line)
    ensures line[|"- [" + r.name + "]("|..] == r.htmlUrl + ")\n"
    ensures NoNewline(r.name) && NoNewline(r.htmlUrl) ==> IsLine(line)
  {
    var opening := "- [" + r.name + "](";
    var text := opening + r.htmlUrl + ")";
    assert NoNewline(r.name) && NoNewline(r.htmlUrl) ==> NoNewline(text);
    assert Line(text) == opening + (r.htmlUrl + ")\n");
    Line(text)
  }

  /** The lines one bucket contributes: nothing for an empty bucket; otherwise
      its heading, one bullet per repository in name order, and a blank line. */
  function BucketBlock(b: Bucket): (ls: seq<string>)
    ensures |b.repos| == 0 <==> ls == []
    ensures |b.repos| > 0 ==> |ls| == |b.repos| + 2
    ensures |b.repos| > 0 ==> ls[0] == Line("#### " + b.name) && ls[|ls| - 1] == BlankLine
    ensures |b.repos| > 0 ==> forall i :: 0 <= i < |b.repos| ==> ls[1 + i] == BulletLine(ByName(b.repos)[i])
  {
    if |b.repos| == 0 then []
    else
      var sorted := ByName(b.repos);
      [Line("#### " + b.name)]
        + seq(|sorted|, i requires 0 <= i < |sorted| => BulletLine(sorted[i]))
        + [BlankLine]
  }

  /** The bucket blocks in bucket order. */
  function SatelliteBlocks(grouped: seq<Bucket>): seq<string>
  {
    if |grouped| == 0 then [] else BucketBlock(grouped[0]) + SatelliteBlocks(grouped[1..])
  }

  /** The lines of `make_satellite_section`. */
  function SatelliteLines(grouped: seq<Bucket>): seq<string>
  {
    [SatelliteHeading] + SatelliteBlocks(grouped)
  }

  /** `make_satellite_section`: the listing opens with its heading. */
  function MakeSatelliteSection(grouped: seq<Bucket>): (t: string)
    ensures IsPrefix(SatelliteHeading, t)
  {
    FlattenCons(SatelliteHeading, SatelliteBlocks(grouped));
    Join(SatelliteLines(grouped))
  }

  /** The number of buckets that hold at least one repository. */
  function NonEmptyBuckets(grouped: seq<Bucket>): nat
  {
    if |grouped| == 0 then 0
    else (if |grouped[0].repos| > 0 then 1 else 0) + NonEmptyBuckets(grouped[1..])
  }

  lemma {:induction false} EmptyBlockSkipped(grouped: seq<Bucket>, i: nat)
    requires i < |grouped| && |grouped[i].repos| == 0
    ensures SatelliteBlocks(grouped) == SatelliteBlocks(grouped[..i] + grouped[i + 1..])
    decreases i
  {
    if i == 0 {
      assert grouped[..0] + grouped[1..] == grouped[1..];
    } else {
      var rest := grouped[1..];
      var tail := rest[..i - 1] + rest[i..];
      var shorter := grouped[..i] + grouped[i + 1..];
      assert shorter[0] == grouped[0] && shorter[1..] == tail by {
        assert shorter == [grouped[0]] + tail;
      }
      calc {
        SatelliteBlocks(shorter);
        BucketBlock(grouped[0]) + SatelliteBlocks(tail);
        { EmptyBlockSkipped(rest, i - 1); }
        BucketBlock(grouped[0]) + SatelliteBlocks(rest);
        SatelliteBlocks(grouped);
      }
    }
  }

  /** An empty bucket is skipped entirely: the listing is the same as if it
      were not there. */
  lemma EmptyBucketSkipped(grouped: seq<Bucket>, i: nat)
    requires i < |grouped| && |grouped[i].repos| == 0
    ensures SatelliteLines(grouped) == SatelliteLines(grouped[..i] + grouped[i + 1..])
  {
    EmptyBlockSkipped(grouped, i);
  }

  /** The listing has one heading line, then per non-empty bucket a heading, a
      bullet per repository and a blank line. */
  lemma {:induction false} SatelliteLineCount(grouped: seq<Bucket>)
    ensures |SatelliteLines(grouped)| == 1 + TotalSize(grouped) + 2 * NonEmptyBuckets(grouped)
    decreases |grouped|
  {
    if |grouped| > 0 {
      SatelliteLineCount(grouped[1..]);
    }
  }

  /** A grouping whose names and repositories hold no line breaks. */
  predicate PlainGrouping(grouped: seq<Bucket>)
  {
    forall b :: 0 <= b < |grouped| ==>
      NoNewline(grouped[b].name) && forall i :: 0 <= i < |grouped[b].repos| ==> PlainRepo(grouped[b].repos[i])
  }

  lemma BucketBlockIsLines(b: Bucket)
    requires NoNewline(b.name) && forall i :: 0 <= i < |b.repos| ==> PlainRepo(b.repos[i])
    ensures AllLines(BucketBlock(b))
  {
    forall i | 0 <= i < |BucketBlock(b)| ensures IsLine(BucketBlock(b)[i]) {
      BucketBlockLineIsLine(b, i);
    }
  }

  lemma SortedBulletIsLine(repos: seq<Repo>, j: nat)
    requires forall i :: 0 <= i < |repos| ==> PlainRepo(repos[i])
    requires j < |repos|
    ensures IsLine(BulletLine(ByName(repos)[j]))
  {
    var r := ByName(repos)[j];
    assert r in multiset(repos);
    var q :| 0 <= q < |repos| && repos[q] == r;
    assert IsLine(BulletLine(r));
  }

  lemma BucketBlockLineIsLine(b: Bucket, i: nat)
    requires NoNewline(b.name) && forall i :: 0 <= i < |b.repos| ==> PlainRepo(b.repos[i])
    requires i < |BucketBlock(b)|
    ensures IsLine(BucketBlock(b)[i])
  {
    var block := BucketBlock(b);
    if i == 0 {
      NoNewlineConcat("#### ", b.name);
      LineIsLine("#### " + b.name);
    } else if i < |block| - 1 {
      SortedBulletIsLine(b.repos, i - 1);
    } else {
      LineIsLine("");
    }
  }

  lemma {:induction false} BlocksAreLines(grouped: seq<Bucket>)
    requires PlainGrouping(grouped)
    ensures AllLines(SatelliteBlocks(grouped))
    decreases |grouped|
  {
    if |grouped| > 0 {
      assert NoNewline(grouped[0].name) && forall i :: 0 <= i < |grouped[0].repos| ==> PlainRepo(grouped[0].repos[i]);
      BucketBlockIsLines(grouped[0]);
      assert PlainGrouping(grouped[1..]) by {
        forall q | 0 <= q < |grouped[1..]| ensures grouped[1..][q] == grouped[q + 1] {}
      }
      BlocksAreLines(grouped[1..]);
      AllLinesConcat(BucketBlock(grouped[0]), SatelliteBlocks(grouped[1..]));
    }
  }

  /** The rendered listing, the join `MakeSatelliteSection` returns, reads back
      as exactly its lines. */
  lemma SatelliteSectionReadsBack(grouped: seq<Bucket>)
    requires PlainGrouping(grouped)
    ensures SplitLines(Join(SatelliteLines(grouped))) == SatelliteLines(grouped)
  {
    BlocksAreLines(grouped);
    FixedLinesAreLines();
    assert AllLines([SatelliteHeading]);
    AllLinesConcat([SatelliteHeading], SatelliteBlocks(grouped));
    SplitJoin(SatelliteLines(grouped));
  }
}
