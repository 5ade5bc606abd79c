/** The few operations of Python's `str` type that the auditor's parsing relies on:
    substring tests (`p in s`), `upper`/`lower`, `strip`, `split(sep)`, `split()`
    and `sep.join`. Each is stated by a contract that characterises it independently
    of how it is computed. */
module PyStr {

  datatype Option<T> = None | Some(value: T)

  /** `c.isspace()`, the code points that `str.strip()` and `str.split()` drop:
      U+0009..U+000D, U+001C..U+0020, U+0085, U+00A0, U+1680, U+2000..U+200A,
      U+2028, U+2029, U+202F, U+205F and U+3000. */
  predicate IsSpace(c: char) {
    || ('\t' <= c <= '\r')
    || ('\U{1C}' <= c <= ' ')
    || c == '\U{85}' || c == '\U{A0}' || c == '\U{1680}'
    || ('\U{2000}' <= c <= '\U{200A}')
    || c == '\U{2028}' || c == '\U{2029}' || c == '\U{202F}' || c == '\U{205F}'
    || c == '\U{3000}'
  }

  predicate StartsWith(s: string, p: string) {
    |p| <= |s| && s[..|p|] == p
  }

  lemma StartsWithAppend(p: string, t: string)
    ensures StartsWith(p + t, p)
  {
    assert (p + t)[..|p|] == p;
  }

  /** Python's `p in s`. */
  predicate Contains(s: string, p: string)
    decreases |s|
  {
    StartsWith(s, p) || (|s| > 0 && Contains(s[1..], p))
  }

  lemma {:induction false} ContainsAt(s: string, p: string, i: nat)
    requires i <= |s| && StartsWith(s[i..], p)
    ensures Contains(s, p)
    decreases i
  {
    if i == 0 {
      assert s[0..] == s;
    } else {
      assert s[1..][i - 1..] == s[i..];
      ContainsAt(s[1..], p, i - 1);
    }
  }

  lemma {:induction false} ContainsWitness(s: string, p: string) returns (i: nat)
    requires Contains(s, p)
    ensures i + |p| <= |s| && StartsWith(s[i..], p)
    decreases |s|
  {
    if StartsWith(s, p) {
      i := 0;
      assert s[0..] == s;
    } else {
      var j := ContainsWitness(s[1..], p);
      assert s[1..][j..] == s[j + 1..];
      i := j + 1;
    }
  }

  /** The recursive definition agrees with "some suffix of `s` starts with `p`". */
  lemma ContainsIff(s: string, p: string)
    ensures Contains(s, p) <==> exists i :: 0 <= i <= |s| && StartsWith(s[i..], p)
  {
    if Contains(s, p) {
      var i := ContainsWitness(s, p);
    }
    if exists i :: 0 <= i <= |s| && StartsWith(s[i..], p) {
      var i :| 0 <= i <= |s| && StartsWith(s[i..], p);
      ContainsAt(s, p, i);
    }
  }

  lemma {:induction false} PrefixContains(s: string, p: string, q: string)
    requires StartsWith(s, p) && Contains(p, q)
    ensures Contains(s, q)
    decreases |p|
  {
    if StartsWith(p, q) {
      assert s[..|q|] == p[..|q|];
    } else {
      assert StartsWith(s[1..], p[1..]) by { assert s[1..][..|p| - 1] == s[..|p|][1..]; }
      PrefixContains(s[1..], p[1..], q);
    }
  }

  /** Substring containment is transitive: an `s` containing "WPA2" contains "WPA". */
  lemma {:induction false} ContainsTrans(s: string, p: string, q: string)
    requires Contains(s, p) && Contains(p, q)
    ensures Contains(s, q)
    decreases |s|
  {
    if StartsWith(s, p) {
      PrefixContains(s, p, q);
    } else {
      ContainsTrans(s[1..], p, q);
    }
  }

  /** A pattern found in `s` is made of characters of `s`. */
  lemma {:induction false} ContainsKeepsProperty(s: string, p: string, P: char -> bool)
    requires Contains(s, p)
    requires forall k :: 0 <= k < |s| ==> P(s[k])
    ensures forall k :: 0 <= k < |p| ==> P(p[k])
  {
    var i := ContainsWitness(s, p);
    forall k | 0 <= k < |p| ensures P(p[k]) {
      assert p[k] == s[i + k];
    }
  }

  /** `s.find(p, i)`: the first position from `i` on where `p` occurs. */
  function FindFrom(s: string, p: string, i: nat): (r: Option<nat>)
    requires i <= |s|
    ensures r.Some? ==> i <= r.value <= |s| && StartsWith(s[r.value..], p)
    ensures r.Some? ==> forall j :: i <= j < r.value ==> !StartsWith(s[j..], p)
    ensures r.None? ==> forall j :: i <= j <= |s| ==> !StartsWith(s[j..], p)
    decreases |s| - i
  {
    if StartsWith(s[i..], p) then Some(i)
    else if i == |s| then None
    else FindFrom(s, p, i + 1)
  }

  lemma NowhereNotContained(s: string, p: string)
    requires forall j :: 0 <= j <= |s| ==> !StartsWith(s[j..], p)
    ensures !Contains(s, p)
  {
    if Contains(s, p) {
      var i := ContainsWitness(s, p);
      assert false;
    }
  }

  /** `s.find(p)`, with `None` for Python's -1: the first position where `p` occurs. */
  function Find(s: string, p: string): (r: Option<nat>)
    ensures r.Some? <==> Contains(s, p)
    ensures r.Some? ==> r.value + |p| <= |s| && StartsWith(s[r.value..], p)
    ensures r.Some? ==> forall j :: 0 <= j < r.value ==> !StartsWith(s[j..], p)
  {
    var r := FindFrom(s, p, 0);
    if r.Some? then
      ContainsAt(s, p, r.value);
      r
    else
      NowhereNotContained(s, p);
      r
  }

  /** `sep.join(ps)`. */
  function Join(ps: seq<string>, sep: string): string
    decreases |ps|
  {
    if |ps| == 0 then ""
    else if |ps| == 1 then ps[0]
    else ps[0] + sep + Join(ps[1..], sep)
  }

  lemma OccurrenceInPrefix(s: string, p: string, i: nat) returns (j: nat)
    requires i <= |s| && Contains(s[..i], p)
    ensures j + |p| <= i && StartsWith(s[j..], p)
  {
    j := ContainsWitness(s[..i], p);
    assert s[..i][j..][..|p|] == s[j..][..|p|];
  }

  lemma NoOccurrenceBefore(s: string, p: string, i: nat)
    requires p != "" && i <= |s|
    requires forall j :: 0 <= j < i ==> !StartsWith(s[j..], p)
    ensures !Contains(s[..i], p)
  {
    if Contains(s[..i], p) {
      var j := OccurrenceInPrefix(s, p, i);
      assert false;
    }
  }

  /** `s.split(sep)` for a non-empty separator: the pieces between the occurrences
      of `sep` found from left to right. There are at least two pieces exactly when
      `sep` occurs in `s`; `SplitJoin` states what the pieces are. */
  function Split(s: string, sep: string): (r: seq<string>)
    requires sep != ""
    ensures |r| >= 1
    ensures |r| >= 2 <==> Contains(s, sep)
    decreases |s|
  {
    match Find(s, sep)
    case None => [s]
    case Some(i) => [s[..i]] + Split(s[i + |sep|..], sep)
  }

  /** An occurrence of `sep` at `i` cuts `s` into the text before it, `sep`, and the
      text after it. */
  lemma CutAt(s: string, sep: string, i: nat)
    requires i <= |s| && StartsWith(s[i..], sep)
    ensures s == s[..i] + sep + s[i + |sep|..]
  {
    assert s[i..] == s[i..][..|sep|] + s[i + |sep|..];
  }

  /** Joining the pieces back with `sep` gives `s`. */
  lemma {:induction false} SplitJoin(s: string, sep: string)
    requires sep != ""
    ensures Join(Split(s, sep), sep) == s
    decreases |s|
  {
    if Contains(s, sep) {
      var a, b := SplitCut(s, sep);
      SplitJoin(b, sep);
      assert ([a] + Split(b, sep))[1..] == Split(b, sep);
    }
  }

  /** No piece of a split contains the separator. */
  lemma {:induction false} SplitPiecesFree(s: string, sep: string)
    requires sep != ""
    ensures forall k :: 0 <= k < |Split(s, sep)| ==> !Contains(Split(s, sep)[k], sep)
    decreases |s|
  {
    if Contains(s, sep) {
      var i := Find(s, sep).value;
      NoOccurrenceBefore(s, sep, i);
      SplitPiecesFree(s[i + |sep|..], sep);
    }
  }

  /** The second piece of a split lies between the first occurrence of `sep` and
      the next one, or the end of `s`. */
  lemma SplitSecond(s: string, sep: string) returns (post: string)
    requires sep != "" && Contains(s, sep)
    ensures s == Split(s, sep)[0] + sep + Split(s, sep)[1] + post
    ensures post == "" || StartsWith(post, sep)
  {
    SplitJoin(s, sep);
    post := JoinSecond(s, sep, Split(s, sep));
  }

  /** A join of two or more pieces is the first piece, the separator, the second
      piece, and then nothing or the separator again. */
  lemma JoinSecond(s: string, sep: string, ps: seq<string>) returns (post: string)
    requires |ps| >= 2 && Join(ps, sep) == s
    ensures s == ps[0] + sep + ps[1] + post
    ensures post == "" || StartsWith(post, sep)
  {
    post := JoinFirst(ps[1..], sep);
    assert ps[1..][0] == ps[1];
  }

  /** Splitting at an occurring separator peels off the text before its first
      occurrence. */
  lemma SplitCut(s: string, sep: string) returns (a: string, b: string)
    requires sep != "" && Contains(s, sep)
    ensures s == a + sep + b && |b| < |s|
    ensures Split(s, sep) == [a] + Split(b, sep)
  {
    var i := Find(s, sep).value;
    CutAt(s, sep, i);
    a, b := s[..i], s[i + |sep|..];
  }

  /** A join is its first piece followed by nothing or by the separator. */
  lemma JoinFirst(ps: seq<string>, sep: string) returns (post: string)
    requires |ps| >= 1
    ensures Join(ps, sep) == ps[0] + post
    ensures post == "" || StartsWith(post, sep)
  {
    if |ps| == 1 {
      post := "";
    } else {
      var tail := Join(ps[1..], sep);
      post := sep + tail;
      StartsWithAppend(sep, tail);
    }
  }

  /** Splitting at a one-character separator that does not occur in `h` peels
      exactly `h` off the front. */
  lemma {:induction false} SplitAfterFirst(h: string, c: char, t: string)
    requires !Contains(h, [c])
    ensures Split(h + [c] + t, [c]) == [h] + Split(t, [c])
    decreases |h|
  {
    var s := h + [c] + t;
    FindAfterFree(h, c, t);
    assert s[..|h|] == h;
    assert s[|h| + 1..] == t;
  }

  lemma FindAfterFree(h: string, c: char, t: string)
    requires !Contains(h, [c])
    ensures Find(h + [c] + t, [c]) == Some(|h|)
  {
    var s := h + [c] + t;
    forall j | 0 <= j < |h| ensures !StartsWith(s[j..], [c]) {
      if s[j] == c {
        CharContained(h, j);
        assert false;
      }
    }
    assert s[|h|..][..1] == [c];
    ContainsAt(s, [c], |h|);
  }

  lemma CharContained(h: string, j: nat)
    requires j < |h|
    ensures Contains(h, [h[j]])
  {
    assert h[j..][..1] == [h[j]];
    ContainsAt(h, [h[j]], j);
  }

  /** ASCII case mapping used for `str.upper()` and `str.lower()`. */
  function UpperChar(c: char): char {
    if 'a' <= c <= 'z' then (c as int - 32) as char else c
  }

  function LowerChar(c: char): char {
    if 'A' <= c <= 'Z' then (c as int + 32) as char else c
  }

  /** `s.upper()`: same length, each letter upper-cased in place. */
  function Upper(s: string): string {
    seq(|s|, k requires 0 <= k < |s| => UpperChar(s[k]))
  }

  /** Upper-casing keeps the length, maps every character by `UpperChar` and
      leaves no lower-case ASCII letter. */
  lemma UpperChars(s: string)
    ensures |Upper(s)| == |s|
    ensures forall k :: 0 <= k < |s| ==> Upper(s)[k] == UpperChar(s[k])
    ensures forall k :: 0 <= k < |Upper(s)| ==> !('a' <= Upper(s)[k] <= 'z')
  {
  }

  /** `s.lower()`: same length, each letter lower-cased in place. */
  function Lower(s: string): (r: string)
    ensures |r| == |s|
    ensures forall k :: 0 <= k < |s| ==> r[k] == LowerChar(s[k])
    ensures forall k :: 0 <= k < |r| ==> !('A' <= r[k] <= 'Z')
  {
    seq(|s|, k requires 0 <= k < |s| => LowerChar(s[k]))
  }

  /** Upper-casing twice is upper-casing once. */
  lemma UpperIdempotent(s: string)
    ensures Upper(Upper(s)) == Upper(s)
  {
    var u := Upper(s);
    assert forall k :: 0 <= k < |u| ==> UpperChar(u[k]) == u[k];
  }

  /** The argument of `strip`: no argument (whitespace) or a one-character string. */
  datatype StripChars = Whitespace | Only(c: char)

  predicate Drops(chars: StripChars, c: char) {
    match chars
    case Whitespace => IsSpace(c)
    case Only(d) => c == d
  }

  /** The first index from `i` on whose character is kept, or `|s|`;
      `FirstKeptIsFirst` states what it finds. */
  function FirstKept(s: string, chars: StripChars, i: nat): (j: nat)
    requires i <= |s|
    ensures i <= j <= |s|
    decreases |s| - i
  {
    if i < |s| && Drops(chars, s[i]) then FirstKept(s, chars, i + 1) else i
  }

  /** Everything from `i` up to `FirstKept` is dropped, and the character there is kept. */
  lemma {:induction false} FirstKeptIsFirst(s: string, chars: StripChars, i: nat)
    requires i <= |s|
    ensures forall k :: i <= k < FirstKept(s, chars, i) ==> Drops(chars, s[k])
    ensures FirstKept(s, chars, i) == |s| || !Drops(chars, s[FirstKept(s, chars, i)])
    decreases |s| - i
  {
    if i < |s| && Drops(chars, s[i]) {
      FirstKeptIsFirst(s, chars, i + 1);
    }
  }

  /** The end of the last kept character before `j`, or 0; `LastKeptIsLast` states
      what it finds. */
  function LastKept(s: string, chars: StripChars, j: nat): (i: nat)
    requires j <= |s|
    ensures i <= j
  {
    if j > 0 && Drops(chars, s[j - 1]) then LastKept(s, chars, j - 1) else j
  }

  /** Everything from `LastKept` up to `j` is dropped, and the character before it is kept. */
  lemma {:induction false} LastKeptIsLast(s: string, chars: StripChars, j: nat)
    requires j <= |s|
    ensures forall k :: LastKept(s, chars, j) <= k < j ==> Drops(chars, s[k])
    ensures LastKept(s, chars, j) == 0 || !Drops(chars, s[LastKept(s, chars, j) - 1])
  {
    if j > 0 && Drops(chars, s[j - 1]) {
      LastKeptIsLast(s, chars, j - 1);
    }
  }

  /** `s.lstrip(chars)`: everything from the first kept character on. */
  function LStrip(s: string, chars: StripChars): string {
    s[FirstKept(s, chars, 0)..]
  }

  /** `s.rstrip(chars)`: everything up to the last kept character. */
  function RStrip(s: string, chars: StripChars): string {
    s[..LastKept(s, chars, |s|)]
  }

  /** `s.strip(chars)`: both ends trimmed. */
  function Strip(s: string, chars: StripChars): string {
    RStrip(LStrip(s, chars), chars)
  }

  /** What `strip` leaves is a contiguous piece of `s` with only dropped characters
      around it, and it neither starts nor ends with a dropped character. */
  lemma StripSlice(s: string, chars: StripChars) returns (a: nat)
    ensures a + |Strip(s, chars)| <= |s| && Strip(s, chars) == s[a..a + |Strip(s, chars)|]
    ensures forall k :: 0 <= k < a ==> Drops(chars, s[k])
    ensures forall k :: a + |Strip(s, chars)| <= k < |s| ==> Drops(chars, s[k])
    ensures Strip(s, chars) != [] ==>
      !Drops(chars, Strip(s, chars)[0]) && !Drops(chars, Strip(s, chars)[|Strip(s, chars)| - 1])
  {
    a := FirstKept(s, chars, 0);
    FirstKeptIsFirst(s, chars, 0);
    var l := s[a..];
    var b := LastKept(l, chars, |l|);
    LastKeptIsLast(l, chars, |l|);
    forall k | a + b <= k < |s| ensures Drops(chars, s[k]) {
      assert s[k] == l[k - a];
    }
  }

  /** What `strip` leaves is empty exactly when every character of `s` is dropped. */
  lemma StripEmpty(s: string, chars: StripChars)
    ensures Strip(s, chars) == [] <==> forall k :: 0 <= k < |s| ==> Drops(chars, s[k])
  {
    var a := FirstKept(s, chars, 0);
    FirstKeptIsFirst(s, chars, 0);
    if a < |s| {
      var l := s[a..];
      LastKeptIsLast(l, chars, |l|);
      assert l[0] == s[a];
      assert LastKept(l, chars, |l|) > 0;
    }
  }

  /** Stripping text padded with dropped characters on both sides gives back the
      text, provided it neither starts nor ends with a dropped character. */
  lemma StripPadded(pre: string, s: string, post: string, chars: StripChars)
    requires forall k :: 0 <= k < |pre| ==> Drops(chars, pre[k])
    requires forall k :: 0 <= k < |post| ==> Drops(chars, post[k])
    requires s != [] ==> !Drops(chars, s[0]) && !Drops(chars, s[|s| - 1])
    ensures Strip(pre + s + post, chars) == s
  {
    var t := pre + s + post;
    forall k | 0 <= k < |pre| ensures Drops(chars, t[k]) {
      assert t[k] == pre[k];
    }
    forall k | |pre| + |s| <= k < |t| ensures Drops(chars, t[k]) {
      assert t[k] == post[k - |pre| - |s|];
    }
    if s == [] {
      assert t == pre + post;
      forall k | |pre| <= k < |t| ensures Drops(chars, t[k]) {
        assert t[k] == post[k - |pre|];
      }
      StripEmpty(t, chars);
    } else {
      assert t[|pre|] == s[0] && t[|pre| + |s| - 1] == s[|s| - 1];
      FirstKeptIsFirst(t, chars, 0);
      assert FirstKept(t, chars, 0) == |pre|;
      var l := t[|pre|..];
      assert l == s + post;
      LastKeptIsLast(l, chars, |l|);
      assert LastKept(l, chars, |l|) == |s|;
      assert l[..|s|] == s;
    }
  }

  /** Stripping one set of characters, then another, leaves a contiguous piece with
      only characters of either set cut off around it, and none of the second set
      at its ends. */
  lemma StripTwice(s: string, c1: StripChars, c2: StripChars) returns (a: nat)
    ensures var e := Strip(Strip(s, c1), c2);
      && a + |e| <= |s| && e == s[a..a + |e|]
      && (forall k :: 0 <= k < a ==> Drops(c1, s[k]) || Drops(c2, s[k]))
      && (forall k :: a + |e| <= k < |s| ==> Drops(c1, s[k]) || Drops(c2, s[k]))
      && (e != [] ==> !Drops(c2, e[0]) && !Drops(c2, e[|e| - 1]))
  {
    var b := StripSlice(s, c1);
    var c := StripSlice(Strip(s, c1), c2);
    a := SliceOfSlice(s, Strip(s, c1), Strip(Strip(s, c1), c2), b, c, c1, c2);
  }

  /** A slice `e` of a slice `w` of `s`, with characters of `c1` around `w` and of
      `c2` around `e`, is a slice of `s` with only characters of either set around
      it; its ends are as they were. */
  lemma SliceOfSlice(s: string, w: string, e: string, b: nat, c: nat, c1: StripChars, c2: StripChars)
    returns (a: nat)
    requires b + |w| <= |s| && w == s[b..b + |w|] && c + |e| <= |w| && e == w[c..c + |e|]
    requires forall k :: 0 <= k < b ==> Drops(c1, s[k])
    requires forall k :: b + |w| <= k < |s| ==> Drops(c1, s[k])
    requires forall k :: 0 <= k < c ==> Drops(c2, w[k])
    requires forall k :: c + |e| <= k < |w| ==> Drops(c2, w[k])
    requires e != [] ==> !Drops(c2, e[0]) && !Drops(c2, e[|e| - 1])
    ensures && a + |e| <= |s| && e == s[a..a + |e|]
      && (forall k :: 0 <= k < a ==> Drops(c1, s[k]) || Drops(c2, s[k]))
      && (forall k :: a + |e| <= k < |s| ==> Drops(c1, s[k]) || Drops(c2, s[k]))
      && (e != [] ==> !Drops(c2, e[0]) && !Drops(c2, e[|e| - 1]))
  {
    a := b + c;
    assert e == s[a..a + |e|] by {
      forall k | 0 <= k < |e| ensures e[k] == s[b + c + k] {
        assert e[k] == w[c + k];
      }
    }
    forall k | 0 <= k < a ensures Drops(c1, s[k]) || Drops(c2, s[k]) {
      if k >= b { assert s[k] == w[k - b]; }
    }
    forall k | a + |e| <= k < |s| ensures Drops(c1, s[k]) || Drops(c2, s[k]) {
      if k < b + |w| { assert s[k] == w[k - b]; }
    }
  }

  /** A word of `str.split()`: non-empty and free of whitespace. */
  predicate IsWord(w: string) {
    w != [] && forall j :: 0 <= j < |w| ==> !IsSpace(w[j])
  }

  /** The longest prefix of `s` without whitespace. */
  function LeadingWord(s: string): (w: string)
    ensures |w| <= |s| && w == s[..|w|]
    ensures forall j :: 0 <= j < |w| ==> !IsSpace(w[j])
    ensures |w| == |s| || IsSpace(s[|w|])
    decreases |s|
  {
    if s == [] || IsSpace(s[0]) then [] else [s[0]] + LeadingWord(s[1..])
  }

  /** `s.split()`: the maximal runs of non-whitespace, in order. */
  function Words(s: string): seq<string>
    decreases |s|
  {
    if s == [] then []
    else if IsSpace(s[0]) then Words(s[1..])
    else
      var w := LeadingWord(s);
      [w] + Words(s[|w|..])
  }

  /** Every piece `split()` returns is a word: non-empty and free of whitespace. */
  lemma {:induction false} WordsAreWords(s: string)
    ensures forall k :: 0 <= k < |Words(s)| ==> IsWord(Words(s)[k])
    decreases |s|
  {
    if s == [] {
    } else if IsSpace(s[0]) {
      WordsAreWords(s[1..]);
    } else {
      var w := LeadingWord(s);
      WordsAreWords(s[|w|..]);
    }
  }

  lemma {:induction false} LeadingWordOf(w: string, t: string)
    requires IsWord(w) && (t == [] || IsSpace(t[0]))
    ensures LeadingWord(w + t) == w
    decreases |w|
  {
    if |w| > 1 {
      assert (w + t)[1..] == w[1..] + t;
      LeadingWordOf(w[1..], t);
      assert w == [w[0]] + w[1..];
    } else {
      assert (w + t)[1..] == t;
    }
  }

  /** Words separated by the given whitespace gaps, one gap between each two
      neighbours: the shape of a column-aligned table row. */
  function Interleave(ts: seq<string>, gaps: seq<string>): string
    requires |ts| >= 1 && |gaps| == |ts| - 1
    decreases |ts|
  {
    if |ts| == 1 then ts[0] else ts[0] + gaps[0] + Interleave(ts[1..], gaps[1..])
  }

  /** Every gap is a non-empty run of whitespace. */
  predicate Gaps(gaps: seq<string>) {
    forall k :: 0 <= k < |gaps| ==> gaps[k] != [] && AllSpace(gaps[k])
  }

  predicate AllSpace(s: string) {
    forall j :: 0 <= j < |s| ==> IsSpace(s[j])
  }

  /** `split()` skips leading whitespace. */
  lemma {:induction false} WordsSkipSpace(g: string, t: string)
    requires AllSpace(g)
    ensures Words(g + t) == Words(t)
    decreases |g|
  {
    if g != [] {
      assert (g + t)[1..] == g[1..] + t;
      WordsSkipSpace(g[1..], t);
    } else {
      assert g + t == t;
    }
  }

  /** Splitting words separated by any non-empty whitespace gaps gives the words back,
      however wide the gaps. */
  lemma {:induction false} WordsOfInterleave(ts: seq<string>, gaps: seq<string>)
    requires |ts| >= 1 && |gaps| == |ts| - 1
    requires forall k :: 0 <= k < |ts| ==> IsWord(ts[k])
    requires Gaps(gaps)
    ensures Words(Interleave(ts, gaps)) == ts
    decreases |ts|
  {
    var w := ts[0];
    if |ts| == 1 {
      LeadingWordOf(w, "");
      assert w + "" == w;
      assert w[|w|..] == "";
    } else {
      var g, rest := gaps[0], Interleave(ts[1..], gaps[1..]);
      var s := w + g + rest;
      LeadingWordOf(w, g + rest);
      assert s == w + (g + rest);
      assert s[|w|..] == g + rest;
      WordsSkipSpace(g, rest);
      WordsOfInterleave(ts[1..], gaps[1..]);
      assert ts == [w] + ts[1..];
    }
  }

  /** Words separated by gaps start with the first word's first character and end
      with the last word's last character. */
  lemma {:induction false} InterleaveEnds(ts: seq<string>, gaps: seq<string>)
    requires |ts| >= 1 && |gaps| == |ts| - 1
    requires forall k :: 0 <= k < |ts| ==> IsWord(ts[k])
    ensures IsWord(ts[0]) && IsWord(ts[|ts| - 1])
    ensures var j := Interleave(ts, gaps);
      |j| >= 1 && j[0] == ts[0][0] && j[|j| - 1] == ts[|ts| - 1][|ts[|ts| - 1]| - 1]
    decreases |ts|
  {
    if |ts| > 1 {
      InterleaveEnds(ts[1..], gaps[1..]);
    }
  }

  /** Conversely, every string that splits into words is those words separated by
      whitespace gaps, with whitespace before and after: `split()` finds the maximal
      runs of non-whitespace and nothing else. */
  lemma {:induction false} WordsCover(s: string) returns (pre: string, gaps: seq<string>, post: string)
    requires Words(s) != []
    ensures |gaps| == |Words(s)| - 1 && Gaps(gaps) && AllSpace(pre) && AllSpace(post)
    ensures s == pre + Interleave(Words(s), gaps) + post
    decreases |s|
  {
    if IsSpace(s[0]) {
      var p, gs, q := WordsCover(s[1..]);
      pre, gaps, post := CoverAfterSpace(s, p, gs, q);
    } else {
      var w, t := WordsStep(s);
      if Words(t) == [] {
        TrailingSpace(t);
        pre, gaps, post := "", [], t;
      } else {
        var p, gs, q := WordsCover(t);
        gaps, post := CoverAfterWord(w, t, p, gs, q);
        pre := "";
      }
    }
  }

  /** Leading whitespace joins the whitespace before the first word. */
  lemma CoverAfterSpace(s: string, p: string, gs: seq<string>, q: string)
    returns (pre: string, gaps: seq<string>, post: string)
    requires s != [] && IsSpace(s[0]) && Words(s[1..]) != []
    requires |gs| == |Words(s[1..])| - 1 && Gaps(gs) && AllSpace(p) && AllSpace(q)
    requires s[1..] == p + Interleave(Words(s[1..]), gs) + q
    ensures Words(s) == Words(s[1..])
    ensures |gaps| == |Words(s)| - 1 && Gaps(gaps) && AllSpace(pre) && AllSpace(post)
    ensures s == pre + Interleave(Words(s), gaps) + post
  {
    var m := Interleave(Words(s[1..]), gs);
    pre, gaps, post := [s[0]] + p, gs, q;
    assert s == [s[0]] + (p + m + q);
    assert [s[0]] + (p + m + q) == pre + m + post;
  }

  /** A string that starts with a word is that word, then nothing or whitespace. */
  lemma WordsStep(s: string) returns (w: string, t: string)
    requires s != [] && !IsSpace(s[0])
    ensures IsWord(w) && s == w + t && (t == [] || IsSpace(t[0]))
    ensures Words(s) == [w] + Words(t)
  {
    w := LeadingWord(s);
    t := s[|w|..];
  }

  /** A word followed by a covered remainder that starts with whitespace is covered
      too, with the remainder's leading whitespace as its first gap. */
  lemma CoverAfterWord(w: string, t: string, p: string, gs: seq<string>, q: string)
    returns (gaps: seq<string>, post: string)
    requires IsWord(w) && t != [] && IsSpace(t[0]) && Words(t) != []
    requires |gs| == |Words(t)| - 1 && Gaps(gs) && AllSpace(p) && AllSpace(q)
    requires t == p + Interleave(Words(t), gs) + q
    ensures |gaps| == |Words(t)| && Gaps(gaps) && AllSpace(post)
    ensures w + t == Interleave([w] + Words(t), gaps) + post
  {
    var ws := Words(t);
    WordsAreWords(t);
    InterleaveEnds(ws, gs);
    var m := Interleave(ws, gs);
    assert t[|p|] == m[0];
    assert p != [];
    gaps, post := [p] + gs, q;
    assert ([w] + ws)[1..] == ws && gaps[1..] == gs;
    assert Interleave([w] + ws, gaps) == w + p + m;
    assert w + t == (w + p + m) + q;
  }

  /** A string without words is all whitespace. */
  lemma {:induction false} TrailingSpace(t: string)
    requires Words(t) == []
    ensures AllSpace(t)
    decreases |t|
  {
    if t != [] {
      TrailingSpace(t[1..]);
      assert forall j :: 1 <= j < |t| ==> t[j] == t[1..][j - 1];
    }
  }

  /** Re-splitting words joined by single spaces gives the same words back. */
  lemma {:induction false} WordsOfJoin(ts: seq<string>)
    requires forall k :: 0 <= k < |ts| ==> IsWord(ts[k])
    ensures Words(Join(ts, " ")) == ts
    decreases |ts|
  {
    if |ts| == 0 {
    } else if |ts| == 1 {
      LeadingWordOf(ts[0], "");
      assert ts[0] + "" == ts[0];
      assert ts[0][|ts[0]|..] == "";
    } else {
      var rest := Join(ts[1..], " ");
      var s := ts[0] + " " + rest;
      LeadingWordOf(ts[0], " " + rest);
      assert s == ts[0] + (" " + rest);
      assert s[|ts[0]|..] == " " + rest;
      assert (" " + rest)[1..] == rest;
      WordsOfJoin(ts[1..]);
      assert ts == [ts[0]] + ts[1..];
    }
  }
}
