/** Sequence helpers shared by the three output parsers. Each parser walks the lines
    of a command's output, keeps some of them, turns each kept line into a result
    and stops collecting at a limit; `Gathered` and `Collected` state that shape
    once, for any test and any conversion. */
module Seqs {

  /** The first `n` elements, or all of them when there are fewer. */
  function Take<T>(s: seq<T>, n: nat): seq<T> {
    if |s| <= n then s else s[..n]
  }

  /** Appending to a sequence extends its first `n` elements only while there are
      fewer than `n`: the shape of a loop that stops collecting at a limit. */
  lemma TakeAppend<T>(s: seq<T>, tail: seq<T>, n: nat)
    requires |tail| <= 1
    ensures Take(s + tail, n) == if |s| < n then Take(s, n) + tail else Take(s, n)
  {
    if |s| >= n {
      assert (s + tail)[..n] == s[..n];
    }
  }

  /** The indexes of the elements of `xs` that satisfy `p`, in increasing order. */
  function Positions<T>(xs: seq<T>, p: T -> bool): (r: seq<nat>)
    ensures forall k :: 0 <= k < |r| ==> r[k] < |xs| && p(xs[r[k]])
    ensures forall j, k :: 0 <= j < k < |r| ==> r[j] < r[k]
    decreases |xs|
  {
    if xs == [] then []
    else
      var n: nat := |xs| - 1;
      assert forall k :: 0 <= k < n ==> xs[..n][k] == xs[k];
      Positions(xs[..n], p) + (if p(xs[n]) then [n] else [])
  }

  /** Every index whose element satisfies `p` is among the positions. */
  lemma {:induction false} PositionsComplete<T>(xs: seq<T>, p: T -> bool, j: nat)
    requires j < |xs| && p(xs[j])
    ensures j in Positions(xs, p)
    decreases |xs|
  {
    var n: nat := |xs| - 1;
    if j < n {
      assert xs[..n][j] == xs[j];
      PositionsComplete(xs[..n], p, j);
    }
  }

  /** `f` of every element of `xs` that satisfies `keep`, in order. */
  function Gathered<T, U>(xs: seq<T>, keep: T -> bool, f: T -> U): seq<U>
    decreases |xs|
  {
    if xs == [] then []
    else
      var last := xs[|xs| - 1];
      Gathered(xs[..|xs| - 1], keep, f) + if keep(last) then [f(last)] else []
  }

  /** One step of a loop that gathers without a limit. */
  lemma GatheredStep<T, U>(xs: seq<T>, keep: T -> bool, f: T -> U, i: nat)
    requires i < |xs|
    ensures Gathered(xs[..i + 1], keep, f) ==
      Gathered(xs[..i], keep, f) + if keep(xs[i]) then [f(xs[i])] else []
  {
    assert xs[..i + 1][..i] == xs[..i];
  }

  /** What a loop holds after the first `i` elements when it gathers at most `n`:
      an element that satisfies `keep` adds its image while fewer than `n` are held. */
  function Collected<T, U>(xs: seq<T>, keep: T -> bool, f: T -> U, n: nat, i: nat): seq<U>
    requires i <= |xs|
    decreases i
  {
    if i == 0 then []
    else
      var held := Collected(xs, keep, f, n, i - 1);
      if keep(xs[i - 1]) && |held| < n then held + [f(xs[i - 1])] else held
  }

  /** One step of such a loop, as a loop body uses it. */
  lemma CollectedStep<T, U>(xs: seq<T>, keep: T -> bool, f: T -> U, n: nat, i: nat)
    requires i < |xs|
    ensures Collected(xs, keep, f, n, i + 1) ==
      if keep(xs[i]) && |Collected(xs, keep, f, n, i)| < n then Collected(xs, keep, f, n, i) + [f(xs[i])]
      else Collected(xs, keep, f, n, i)
  {
  }

  /** The step of such a loop that takes an element. */
  lemma CollectedTakes<T, U>(xs: seq<T>, keep: T -> bool, f: T -> U, n: nat, i: nat, held: seq<U>, y: U)
    requires i < |xs| && held == Collected(xs, keep, f, n, i)
    requires keep(xs[i]) && |held| < n && y == f(xs[i])
    ensures Collected(xs, keep, f, n, i + 1) == held + [y]
  {
  }

  /** The step of such a loop that passes an element by. */
  lemma CollectedPasses<T, U>(xs: seq<T>, keep: T -> bool, f: T -> U, n: nat, i: nat, held: seq<U>)
    requires i < |xs| && held == Collected(xs, keep, f, n, i)
    requires !keep(xs[i]) || |held| >= n
    ensures Collected(xs, keep, f, n, i + 1) == held
  {
  }

  /** Such a loop holds the first `n` of everything the elements offer. */
  lemma {:induction false} CollectedIsTake<T, U>(xs: seq<T>, keep: T -> bool, f: T -> U, n: nat, i: nat)
    requires i <= |xs|
    ensures Collected(xs, keep, f, n, i) == Take(Gathered(xs[..i], keep, f), n)
    decreases i
  {
    if i > 0 {
      CollectedIsTake(xs, keep, f, n, i - 1);
      var last := xs[i - 1];
      assert xs[..i][..i - 1] == xs[..i - 1];
      TakeAppend(Gathered(xs[..i - 1], keep, f), if keep(last) then [f(last)] else [], n);
    }
  }

  /** The gathered results are the images of the kept elements, one each, in the
      order of the elements. */
  lemma {:induction false} GatheredAt<T, U>(xs: seq<T>, keep: T -> bool, f: T -> U)
    ensures |Gathered(xs, keep, f)| == |Positions(xs, keep)|
    ensures forall k :: 0 <= k < |Gathered(xs, keep, f)| ==>
      Gathered(xs, keep, f)[k] == f(xs[Positions(xs, keep)[k]])
    decreases |xs|
  {
    if xs != [] {
      var n: nat := |xs| - 1;
      var init := xs[..n];
      GatheredAt(init, keep, f);
      var r := Positions(xs, keep);
      var g := Gathered(xs, keep, f);
      forall k | 0 <= k < |g| ensures g[k] == f(xs[r[k]]) {
        if k < |Gathered(init, keep, f)| {
          assert r[k] == Positions(init, keep)[k];
          assert xs[r[k]] == init[r[k]];
        }
      }
    }
  }

  /** Gathering over two parts in a row gathers over the first, then the second. */
  lemma {:induction false} GatheredAppend<T, U>(a: seq<T>, b: seq<T>, keep: T -> bool, f: T -> U)
    ensures Gathered(a + b, keep, f) == Gathered(a, keep, f) + Gathered(b, keep, f)
    decreases |b|
  {
    if b == [] {
      assert a + b == a;
    } else {
      var n := |b| - 1;
      assert (a + b)[..|a + b| - 1] == a + b[..n];
      GatheredAppend(a, b[..n], keep, f);
    }
  }

  /** Nothing is gathered when no element is kept. */
  lemma {:induction false} GatheredNone<T, U>(xs: seq<T>, keep: T -> bool, f: T -> U)
    requires forall k :: 0 <= k < |xs| ==> !keep(xs[k])
    ensures Gathered(xs, keep, f) == []
    decreases |xs|
  {
    if xs != [] {
      var init := xs[..|xs| - 1];
      assert forall k :: 0 <= k < |init| ==> init[k] == xs[k];
      GatheredNone(init, keep, f);
    }
  }
}
