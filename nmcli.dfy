/** The row loop of `analyze_network_security` over `nmcli -f SSID,SECURITY,SIGNAL dev
    wifi` output: skip the header line, take at most ten non-blank rows, split each
    on whitespace into an SSID and a security column, and assess the security. */
module Nmcli {
  import opened PyStr
  import opened Seqs
  import opened Security

  const MaxAnalysed := 10

  /** One parsed row. */
  datatype Network = Network(ssid: string, security: string)

  /** What the analysis prints for one row: the network, its level and its advice. */
  datatype Report = Report(network: Network, level: Level, advice: seq<Tip>)

  /** The (ssid, security) of a row's whitespace-separated tokens: one token gives
      ("Hidden", "Unknown"); two give both; with three or more the last token (the
      signal) is dropped and the middle ones are re-joined by single spaces. */
  function Columns(parts: seq<string>): Network {
    if |parts| >= 2 then
      Network(parts[0], if |parts| > 2 then Join(parts[1..|parts| - 1], " ") else Join(parts[1..], " "))
    else
      Network("Hidden", "Unknown")
  }

  /** The (ssid, security) of one row. */
  function ParseRow(line: string): Network {
    Columns(Words(Strip(line, Whitespace)))
  }

  /** The report for a row: the level and the advice both come from the parsed
      security column. */
  function Analyse(line: string): Report {
    var network := ParseRow(line);
    var level := Assess(network.security);
    Report(network, level, AdviceFor(level))
  }

  /** A row the analysis looks at: scanning from the left for a character that
      `strip()` keeps stops before the end. */
  predicate Filled(line: string) {
    FirstKept(line, Whitespace, 0) < |line|
  }

  /** Filled rows are exactly those whose `line.strip()` is not empty, that is
      those with a character that is not whitespace. */
  lemma FilledIffStripNonEmpty(line: string)
    ensures Filled(line) <==> Strip(line, Whitespace) != ""
    ensures Filled(line) <==> exists k :: 0 <= k < |line| && !IsSpace(line[k])
  {
    FirstKeptIsFirst(line, Whitespace, 0);
    StripEmpty(line, Whitespace);
  }

  /** The reports of every non-blank row, in order, before the limit applies. */
  function AllReports(rows: seq<string>): seq<Report> {
    Gathered(rows, Filled, Analyse)
  }

  /** What the analysis of a whole output shows: the first ten reports of the rows
      after the header line. */
  function Analysis(stdout: string): seq<Report> {
    Take(AllReports(Split(stdout, "\n")[1..]), MaxAnalysed)
  }

  /** `nmcli` handling in `analyze_network_security`: split the output into lines,
      skip the header and analyse the rows. An empty result is the case that falls
      back to `alternative_scan`. */
  method AnalyzeNetworks(stdout: string) returns (reports: seq<Report>)
    ensures reports == Analysis(stdout)
    ensures |reports| <= MaxAnalysed
    ensures forall k :: 0 <= k < |reports| ==>
      reports[k].level == Assess(reports[k].network.security) &&
      reports[k].advice == AdviceFor(reports[k].level)
  {
    var lines := Split(stdout, "\n");
    var rows := lines[1..];
    reports := AnalyzeRows(rows);
    CollectedIsTake(rows, Filled, Analyse, MaxAnalysed, |rows|);
    assert rows[..|rows|] == rows;
    ReportsComeFromRows(rows);
  }

  /** The loop over the rows after the header: a report for each non-blank row while
      fewer than ten are made. `networks_found` ends as the number of reports. */
  method AnalyzeRows(rows: seq<string>) returns (reports: seq<Report>)
    ensures reports == Collected(rows, Filled, Analyse, MaxAnalysed, |rows|)
  {
    var networksFound := 0;
    reports := [];
    var i := 0;
    while i < |rows|
      invariant 0 <= i <= |rows|
      invariant reports == Collected(rows, Filled, Analyse, MaxAnalysed, i)
      invariant networksFound == |reports|
    {
      var line := rows[i];
      if Filled(line) && networksFound < MaxAnalysed {
        networksFound := networksFound + 1;
        var report := AnalyzeRow(line);
        CollectedTakes(rows, Filled, Analyse, MaxAnalysed, i, reports, report);
        reports := reports + [report];
      } else {
        CollectedPasses(rows, Filled, Analyse, MaxAnalysed, i, reports);
      }
      i := i + 1;
    }
  }

  /** The body of the loop for one non-blank row: split it on whitespace, pick the
      SSID and security columns, and assess the security. */
  method AnalyzeRow(line: string) returns (report: Report)
    ensures report == Analyse(line)
  {
    var parts := Words(Strip(line, Whitespace));
    var ssid, security;
    if |parts| >= 2 {
      ssid := parts[0];
      security := if |parts| > 2 then Join(parts[1..|parts| - 1], " ") else Join(parts[1..], " ");
    } else {
      ssid, security := "Hidden", "Unknown";
    }
    var securityLevel := Assess(security);
    report := Report(Network(ssid, security), securityLevel, Advice(security));
    AdviceFollowsLevel(security);
  }

  /** The reports on offer are one per non-blank row, in row order, each assessed
      from its own security column. */
  lemma ReportsComeFromRows(rows: seq<string>)
    ensures |AllReports(rows)| == |Positions(rows, Filled)|
    ensures forall k :: 0 <= k < |AllReports(rows)| ==>
      AllReports(rows)[k] == Analyse(rows[Positions(rows, Filled)[k]]) &&
      AllReports(rows)[k].level == Assess(AllReports(rows)[k].network.security) &&
      AllReports(rows)[k].advice == AdviceFor(AllReports(rows)[k].level)
  {
    GatheredAt(rows, Filled, Analyse);
  }

  /** A row written as tokens separated by runs of whitespace, with whitespace
      around them, as `nmcli` aligns its columns, splits back into exactly those
      tokens. */
  lemma PaddedRowTokens(pre: string, ts: seq<string>, gaps: seq<string>, post: string)
    requires |ts| >= 1 && |gaps| == |ts| - 1
    requires forall k :: 0 <= k < |ts| ==> IsWord(ts[k])
    requires Gaps(gaps) && AllSpace(pre) && AllSpace(post)
    ensures Words(Strip(pre + Interleave(ts, gaps) + post, Whitespace)) == ts
  {
    InterleavedWordsKept(ts, gaps);
    SpacesDropped(pre);
    SpacesDropped(post);
    StripPadded(pre, Interleave(ts, gaps), post, Whitespace);
    WordsOfInterleave(ts, gaps);
  }

  /** Stripping a row before splitting it changes nothing: `line.strip().split()`
      is `line.split()`, since every row is its tokens with whitespace between and
      around them. */
  lemma StripBeforeSplitIsRedundant(line: string)
    ensures Words(Strip(line, Whitespace)) == Words(line)
  {
    if Words(line) == [] {
      TrailingSpace(line);
      SpacesDropped(line);
      StripEmpty(line, Whitespace);
    } else {
      var pre, gaps, post := WordsCover(line);
      WordsAreWords(line);
      PaddedRowTokens(pre, Words(line), gaps, post);
    }
  }

  lemma InterleavedWordsKept(ts: seq<string>, gaps: seq<string>)
    requires |ts| >= 1 && |gaps| == |ts| - 1
    requires forall k :: 0 <= k < |ts| ==> IsWord(ts[k])
    ensures var j := Interleave(ts, gaps); j != [] && !Drops(Whitespace, j[0]) && !Drops(Whitespace, j[|j| - 1])
  {
    InterleaveEnds(ts, gaps);
    var first, last := ts[0], ts[|ts| - 1];
    assert !IsSpace(first[0]) && !IsSpace(last[|last| - 1]);
  }

  lemma SpacesDropped(s: string)
    requires AllSpace(s)
    ensures forall k :: 0 <= k < |s| ==> Drops(Whitespace, s[k])
  {
  }

  /** Such a row parses by its token count: one token gives the hidden network, two
      give (ssid, security), and three or more drop the last token (the signal),
      re-joining the middle ones by single spaces so that the security column
      splits back into exactly the middle tokens. */
  lemma RowByTokens(pre: string, ts: seq<string>, gaps: seq<string>, post: string)
    requires |ts| >= 1 && |gaps| == |ts| - 1
    requires forall k :: 0 <= k < |ts| ==> IsWord(ts[k])
    requires Gaps(gaps) && AllSpace(pre) && AllSpace(post)
    ensures var n := ParseRow(pre + Interleave(ts, gaps) + post);
      && (|ts| == 1 ==> n == Network("Hidden", "Unknown"))
      && (|ts| == 2 ==> n == Network(ts[0], ts[1]))
      && (|ts| >= 3 ==> n == Network(ts[0], Join(ts[1..|ts| - 1], " "))
                        && Words(n.security) == ts[1..|ts| - 1])
  {
    PaddedRowTokens(pre, ts, gaps, post);
    ColumnsByCount(ts);
  }

  lemma ColumnsByCount(ts: seq<string>)
    requires |ts| >= 1 && forall k :: 0 <= k < |ts| ==> IsWord(ts[k])
    ensures |ts| == 1 ==> Columns(ts) == Network("Hidden", "Unknown")
    ensures |ts| == 2 ==> Columns(ts) == Network(ts[0], ts[1])
    ensures |ts| >= 3 ==> Columns(ts) == Network(ts[0], Join(ts[1..|ts| - 1], " "))
                          && Words(Columns(ts).security) == ts[1..|ts| - 1]
  {
    if |ts| >= 3 {
      var middle := ts[1..|ts| - 1];
      forall k | 0 <= k < |middle| ensures IsWord(middle[k]) {
        assert middle[k] == ts[k + 1];
      }
      WordsOfJoin(middle);
    }
  }

  /** The header line is never parsed: outputs that differ only in their first
      line are analysed alike. */
  lemma HeaderIgnored(h1: string, h2: string, rest: string)
    requires !Contains(h1, "\n") && !Contains(h2, "\n")
    ensures Analysis(h1 + "\n" + rest) == Analysis(h2 + "\n" + rest)
  {
    SplitAfterFirst(h1, '\n', rest);
    SplitAfterFirst(h2, '\n', rest);
  }

  /** Output of a single line, the header alone, gives no reports: the case that
      falls back to `alternative_scan`. */
  lemma HeaderOnlyGivesNothing(stdout: string)
    requires !Contains(stdout, "\n")
    ensures Analysis(stdout) == []
  {
  }

  /** Blank rows produce nothing and do not count toward the limit. */
  lemma BlankRowAddsNothing(rows: seq<string>, line: string)
    requires !Filled(line)
    ensures AllReports(rows + [line]) == AllReports(rows)
  {
    assert (rows + [line])[..|rows|] == rows;
  }

  /** A one-token row is reported as the "Hidden" network with security "Unknown",
      which the classifier sends to CheckManually. */
  lemma HiddenRowIsCheckManually(pre: string, t: string, post: string)
    requires IsWord(t) && AllSpace(pre) && AllSpace(post)
    ensures Analyse(pre + t + post).network == Network("Hidden", "Unknown")
    ensures Analyse(pre + t + post).level == CheckManually
  {
    RowByTokens(pre, [t], [], post);
    UnknownIsCheckManually();
  }

  /** Column splitting cannot tell an SSID with a space from the security column:
      the row "My Net WPA2 70" is read as SSID "My" with security "Net WPA2". */
  lemma SsidWithSpaceIsSplit()
    ensures ParseRow("My Net WPA2 70") == Network("My", "Net WPA2")
  {
    var ts := ["My", "Net", "WPA2", "70"];
    SampleRowTokens();
    RowByTokens("", ts, [" ", " ", " "], "");
    assert "" + "My Net WPA2 70" + "" == "My Net WPA2 70";
  }

  lemma SampleRowTokens()
    ensures var ts := ["My", "Net", "WPA2", "70"];
      && (forall k :: 0 <= k < |ts| ==> IsWord(ts[k]))
      && Gaps([" ", " ", " "])
      && Interleave(ts, [" ", " ", " "]) == "My Net WPA2 70"
      && Join(ts[1..3], " ") == "Net WPA2"
  {
    var ts := ["My", "Net", "WPA2", "70"];
    assert forall k :: 0 <= k < |ts| ==> IsWord(ts[k]);
    assert Interleave(ts, [" ", " ", " "]) == "My Net WPA2 70";
    assert Join(ts[1..3], " ") == "Net WPA2";
  }

  /** A column-aligned row: the runs of spaces between the columns do not reach the
      parsed values. */
  lemma AlignedRowParses()
    ensures ParseRow("MyNet   WPA2   70") == Network("MyNet", "WPA2")
  {
    AlignedRowTokens();
    RowByTokens("", ["MyNet", "WPA2", "70"], ["   ", "   "], "");
    assert "" + "MyNet   WPA2   70" + "" == "MyNet   WPA2   70";
  }

  lemma AlignedRowTokens()
    ensures var ts := ["MyNet", "WPA2", "70"];
      && (forall k :: 0 <= k < |ts| ==> IsWord(ts[k]))
      && Gaps(["   ", "   "])
      && Interleave(ts, ["   ", "   "]) == "MyNet   WPA2   70"
      && Join(ts[1..2], " ") == "WPA2"
  {
    var ts := ["MyNet", "WPA2", "70"];
    assert forall k :: 0 <= k < |ts| ==> IsWord(ts[k]);
    assert Interleave(ts, ["   ", "   "]) == "MyNet   WPA2   70";
    assert ts[1..2] == ["WPA2"];
  }
}
