/** The line labelling of `check_interfaces` over `ip link show` output: each line
    that names a wireless, wired or loopback interface is printed stripped, with the
    first matching label, and `wireless_found` records whether a wireless line was
    seen. */
module Interfaces {
  import opened PyStr
  import opened Seqs

  /** The three labelled kinds of line, and the lines that are not printed. */
  datatype Kind = Wireless | Wired | Loopback | Other

  /** One printed line: its label and the stripped line. */
  datatype Entry = Entry(kind: Kind, text: string)

  /** The first matching test of the loop: "wl" or "wlan", then "eth" or
      "ethernet" in the lower-cased line, then "lo:". */
  function KindOf(line: string): Kind {
    if Contains(line, "wl") || Contains(line, "wlan") then Wireless
    else if Contains(line, "eth") || Contains(Lower(line), "ethernet") then Wired
    else if Contains(line, "lo:") then Loopback
    else Other
  }

  predicate Shown(line: string) {
    KindOf(line) != Other
  }

  function EntryOf(line: string): Entry {
    Entry(KindOf(line), Strip(line, Whitespace))
  }

  /** The lines printed for the output's lines, in order. */
  function AllEntries(lines: seq<string>): seq<Entry> {
    Gathered(lines, Shown, EntryOf)
  }

  /** Some line among the first `i` mentions "wl". */
  predicate WirelessSeen(lines: seq<string>, i: nat)
    requires i <= |lines|
  {
    exists k :: 0 <= k < i && Contains(lines[k], "wl")
  }

  /** `check_interfaces` after the command has run: the lines it prints and whether
      it reports a wireless interface. */
  method CheckInterfaces(stdout: string) returns (entries: seq<Entry>, wirelessFound: bool)
    ensures entries == AllEntries(Split(stdout, "\n"))
    ensures wirelessFound <==> exists k :: 0 <= k < |Split(stdout, "\n")| && Contains(Split(stdout, "\n")[k], "wl")
  {
    var lines := Split(stdout, "\n");
    entries, wirelessFound := LabelLines(lines);
  }

  /** The loop over the lines. */
  method LabelLines(lines: seq<string>) returns (entries: seq<Entry>, wirelessFound: bool)
    ensures entries == AllEntries(lines)
    ensures wirelessFound <==> WirelessSeen(lines, |lines|)
  {
    entries := [];
    wirelessFound := false;
    var i := 0;
    while i < |lines|
      invariant 0 <= i <= |lines|
      invariant entries == AllEntries(lines[..i])
      invariant wirelessFound <==> WirelessSeen(lines, i)
    {
      var line := lines[i];
      GatheredStep(lines, Shown, EntryOf, i);
      WirelessStep(lines, i);
      if Contains(line, "wl") || Contains(line, "wlan") {
        entries := entries + [Entry(Wireless, Strip(line, Whitespace))];
        wirelessFound := true;
      } else if Contains(line, "eth") || Contains(Lower(line), "ethernet") {
        entries := entries + [Entry(Wired, Strip(line, Whitespace))];
      } else if Contains(line, "lo:") {
        entries := entries + [Entry(Loopback, Strip(line, Whitespace))];
      }
      i := i + 1;
    }
    assert lines[..|lines|] == lines;
  }

  /** The flag after one more line: set exactly when that line takes the wireless
      branch, and never cleared. */
  lemma WirelessStep(lines: seq<string>, i: nat)
    requires i < |lines|
    ensures WirelessSeen(lines, i + 1) <==>
      WirelessSeen(lines, i) || Contains(lines[i], "wl") || Contains(lines[i], "wlan")
  {
    WlanIsWl(lines[i]);
  }

  /** A line naming "wlan" names "wl": the second test of the wireless branch adds
      nothing to the first. */
  lemma WlanIsWl(line: string)
    ensures Contains(line, "wlan") ==> Contains(line, "wl")
  {
    assert Contains("wlan", "wl") by { assert "wlan"[..2] == "wl"; }
    if Contains(line, "wlan") {
      ContainsTrans(line, "wlan", "wl");
    }
  }

  /** The labelling rules as they act: a line is wireless exactly when it names
      "wl"; wired exactly when it does not, but names "eth" or, in any case,
      "ethernet"; loopback exactly when it names none of these but "lo:". */
  lemma KindRules(line: string)
    ensures KindOf(line) == Wireless <==> Contains(line, "wl")
    ensures KindOf(line) == Wired <==>
      !Contains(line, "wl") && (Contains(line, "eth") || Contains(Lower(line), "ethernet"))
    ensures KindOf(line) == Loopback <==>
      !Contains(line, "wl") && !Contains(line, "eth") && !Contains(Lower(line), "ethernet") &&
      Contains(line, "lo:")
  {
    WlanIsWl(line);
  }

  /** The flag is set exactly when some printed line is labelled wireless. */
  lemma {:induction false} WirelessFoundIffWirelessEntry(lines: seq<string>)
    ensures WirelessSeen(lines, |lines|) <==>
      exists k :: 0 <= k < |AllEntries(lines)| && AllEntries(lines)[k].kind == Wireless
  {
    GatheredAt(lines, Shown, EntryOf);
    var r := Positions(lines, Shown);
    var es := AllEntries(lines);
    if WirelessSeen(lines, |lines|) {
      var j :| 0 <= j < |lines| && Contains(lines[j], "wl");
      KindRules(lines[j]);
      PositionsComplete(lines, Shown, j);
      var k :| 0 <= k < |r| && r[k] == j;
      assert es[k].kind == Wireless;
    }
    if exists k :: 0 <= k < |es| && es[k].kind == Wireless {
      var k :| 0 <= k < |es| && es[k].kind == Wireless;
      KindRules(lines[r[k]]);
      assert Contains(lines[r[k]], "wl");
    }
  }

  /** Upper-case letters do not hide an Ethernet interface: the wired test looks for
      "ethernet" in the lower-cased line. */
  lemma CapitalisedEthernetIsWired(pre: string, post: string)
    requires !Contains(pre + "Ethernet" + post, "wl")
    ensures KindOf(pre + "Ethernet" + post) == Wired
  {
    var line := pre + "Ethernet" + post;
    LowerEthernet();
    LowerKeepsContains(line, "Ethernet", |pre|);
    KindRules(line);
  }

  lemma LowerEthernet()
    ensures Lower("Ethernet") == "ethernet"
  {
  }

  /** Lower-casing keeps an occurrence in place. */
  lemma LowerKeepsContains(s: string, p: string, i: nat)
    requires i + |p| <= |s| && s[i..i + |p|] == p
    ensures Contains(Lower(s), Lower(p))
  {
    var l := Lower(s);
    assert l[i..][..|p|] == Lower(p);
    ContainsAt(l, Lower(p), i);
  }
}
