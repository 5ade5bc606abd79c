/** The network-name listing of `scan_networks` and `alternative_scan`: both walk the
    lines of `iwlist scan` output and list at most five non-empty ESSIDs. */
module Essid {
  import opened PyStr
  import opened Seqs

  const Marker := "ESSID:"
  const MaxListed := 5

  /** `line.split('ESSID:')[1]`: the text after the first marker, up to the next
      marker or the end of the line. */
  function Field(line: string): string
    requires Contains(line, Marker)
  {
    Split(line, Marker)[1]
  }

  /** The field lies right after the first marker of the line, holds no marker, and
      is followed by the end of the line or by another marker. */
  lemma FieldIsBetweenMarkers(line: string) returns (pre: string, post: string)
    requires Contains(line, Marker)
    ensures line == pre + Marker + Field(line) + post
    ensures !Contains(pre, Marker) && !Contains(Field(line), Marker)
    ensures post == "" || StartsWith(post, Marker)
  {
    pre := Split(line, Marker)[0];
    post := SplitSecond(line, Marker);
    SplitPiecesFree(line, Marker);
  }

  /** `line.split('ESSID:')[1].strip().strip('"')`: the field cleaned of surrounding
      whitespace and then of surrounding double quotes. */
  function Essid(line: string): string
    requires Contains(line, Marker)
  {
    Strip(Strip(Field(line), Whitespace), Only('"'))
  }

  /** The cleaned name is a piece of the field with no double quote at either end,
      and only whitespace and double quotes are cut off around it. Whitespace inside
      the quotes survives: the quotes are stripped after the whitespace. */
  lemma EssidIsCleaned(line: string) returns (a: nat)
    requires Contains(line, Marker)
    ensures a + |Essid(line)| <= |Field(line)| && Essid(line) == Field(line)[a..a + |Essid(line)|]
    ensures forall k :: 0 <= k < a ==> IsSpace(Field(line)[k]) || Field(line)[k] == '"'
    ensures forall k :: a + |Essid(line)| <= k < |Field(line)| ==>
      IsSpace(Field(line)[k]) || Field(line)[k] == '"'
    ensures Essid(line) != "" ==>
      var e := Essid(line); e[0] != '"' && e[|e| - 1] != '"'
  {
    a := StripTwice(Field(line), Whitespace, Only('"'));
  }

  /** The name a line offers: its cleaned field, or nothing without a marker. */
  function Name(line: string): string {
    if Contains(line, Marker) then Essid(line) else ""
  }

  /** A line is listed when it has the marker and its cleaned name is not empty. */
  predicate Listed(line: string) {
    Name(line) != ""
  }

  /** Every name the scan output offers, in line order, before the limit applies. */
  function AllNames(lines: seq<string>): seq<string> {
    Gathered(lines, Listed, Name)
  }

  /** `iwlist scan` handling in `scan_networks`: split the output into lines and
      list their names. `alternative_scan` makes the same test and extraction and
      differs only in what it prints. With at most five names on offer all are
      listed, otherwise exactly the first five. */
  method ListNetworks(stdout: string) returns (names: seq<string>)
    ensures names == Take(AllNames(Split(stdout, "\n")), MaxListed)
    ensures |AllNames(Split(stdout, "\n"))| <= MaxListed ==> names == AllNames(Split(stdout, "\n"))
    ensures |AllNames(Split(stdout, "\n"))| > MaxListed ==> names == AllNames(Split(stdout, "\n"))[..MaxListed]
    ensures |names| <= MaxListed
    ensures forall k :: 0 <= k < |names| ==> names[k] != ""
  {
    var lines := Split(stdout, "\n");
    names := ListNames(lines);
    CollectedIsTake(lines, Listed, Name, MaxListed, |lines|);
    assert lines[..|lines|] == lines;
    NamesComeFromListedLines(lines);
  }

  /** The loop over the lines: the names it prints, in order, one per listed line
      while fewer than five are shown. `networks_found` ends as the number of names. */
  method ListNames(lines: seq<string>) returns (names: seq<string>)
    ensures names == Collected(lines, Listed, Name, MaxListed, |lines|)
  {
    var networksFound := 0;
    names := [];
    var i := 0;
    while i < |lines|
      invariant 0 <= i <= |lines|
      invariant names == Collected(lines, Listed, Name, MaxListed, i)
      invariant networksFound == |names|
    {
      var line := lines[i];
      CollectedStep(lines, Listed, Name, MaxListed, i);
      if Contains(line, Marker) && networksFound < MaxListed {
        var essid := Essid(line);
        if essid != "" {
          networksFound := networksFound + 1;
          names := names + [essid];
        }
      }
      i := i + 1;
    }
  }

  /** The listing is the listed lines' names in line order: the k-th name on offer
      is the cleaned name of the k-th listed line, so it is never empty. */
  lemma NamesComeFromListedLines(lines: seq<string>)
    ensures |Positions(lines, Listed)| == |AllNames(lines)|
    ensures forall k :: 0 <= k < |AllNames(lines)| ==>
      AllNames(lines)[k] == Name(lines[Positions(lines, Listed)[k]]) && AllNames(lines)[k] != ""
  {
    GatheredAt(lines, Listed, Name);
  }

  /** A line without the marker, or whose name cleans to nothing, adds no name. */
  lemma UnlistedLineAddsNothing(lines: seq<string>, line: string)
    requires !Listed(line)
    ensures AllNames(lines + [line]) == AllNames(lines)
  {
    assert (lines + [line])[..|lines|] == lines;
  }

  /** Names are listed in the order of their lines: output split at any line is the
      names of the first part followed by those of the rest. */
  lemma AllNamesAppend(a: seq<string>, b: seq<string>)
    ensures AllNames(a + b) == AllNames(a) + AllNames(b)
  {
    GatheredAppend(a, b, Listed, Name);
  }

  /** Output without a single listed line gives the empty listing: the "no networks
      found" path. */
  lemma NoListedLineNoNames(lines: seq<string>)
    requires forall k :: 0 <= k < |lines| ==> !Listed(lines[k])
    ensures AllNames(lines) == []
  {
    GatheredNone(lines, Listed, Name);
  }
}
