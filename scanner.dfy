/**
 * The lazy bracket scans of the dispatch loop. Neither scan is precomputed:
 * each runs when the loop meets `[` over a zero cell (forward, to skip the
 * body) or `]` over a nonzero cell (backward, to repeat it), counting
 * nesting depth from 1 until it reaches 0 or runs off the code.
 */
module Scanner {
  import opened Wrappers

  /** What one character does to the nesting depth of a forward scan. */
  function Delta(c: char): int {
    if c == '[' then 1 else if c == ']' then -1 else 0
  }

  /** Net nesting change over a stretch of code. */
  function Net(s: seq<char>): int {
    if s == [] then 0 else Delta(s[0]) + Net(s[1..])
  }

  lemma {:induction false} NetAppend(a: seq<char>, b: seq<char>)
    ensures Net(a + b) == Net(a) + Net(b)
  {
    if a == [] {
      assert a + b == b;
    } else {
      assert (a + b)[1..] == a[1..] + b;
      NetAppend(a[1..], b);
    }
  }

  lemma NetSplit(s: seq<char>, x: nat, y: nat, z: nat)
    requires x <= y <= z <= |s|
    ensures Net(s[x..z]) == Net(s[x..y]) + Net(s[y..z])
  {
    assert s[x..z] == s[x..y] + s[y..z];
    NetAppend(s[x..y], s[y..z]);
  }

  lemma NetOne(s: seq<char>, x: nat)
    requires x < |s|
    ensures Net(s[x..x + 1]) == Delta(s[x])
  {
    assert s[x..x + 1][1..] == [];
  }

  /**
   * Depth of a forward scan that starts at `from` with depth `depth`, once it
   * has stepped onto index `k` (it has read code[from+1..k]).
   */
  function ForwardDepth(code: seq<char>, from: nat, depth: int, k: nat): int
    requires from <= k < |code|
  {
    depth + Net(code[from + 1..k + 1])
  }

  /**
   * Depth of a backward scan that starts at `from` with depth `depth`, once it
   * has stepped onto index `k` (it has read code[k..from-1], where `]` adds
   * one and `[` takes one away).
   */
  function BackwardDepth(code: seq<char>, from: nat, depth: int, k: nat): int
    requires k <= from < |code|
  {
    depth - Net(code[k..from])
  }

  lemma ForwardShift(code: seq<char>, j: nat, depth: int)
    requires j + 1 < |code|
    ensures forall k :: j + 1 <= k < |code| ==>
      ForwardDepth(code, j, depth, k) == ForwardDepth(code, j + 1, depth + Delta(code[j + 1]), k)
  {
    forall k | j + 1 <= k < |code|
      ensures ForwardDepth(code, j, depth, k) == ForwardDepth(code, j + 1, depth + Delta(code[j + 1]), k)
    {
      NetSplit(code, j + 1, j + 2, k + 1);
      NetOne(code, j + 1);
    }
  }

  lemma BackwardShift(code: seq<char>, j: nat, depth: int)
    requires 0 < j < |code|
    ensures forall k :: 0 <= k <= j - 1 ==>
      BackwardDepth(code, j, depth, k) == BackwardDepth(code, j - 1, depth - Delta(code[j - 1]), k)
  {
    forall k | 0 <= k <= j - 1
      ensures BackwardDepth(code, j, depth, k) == BackwardDepth(code, j - 1, depth - Delta(code[j - 1]), k)
    {
      NetSplit(code, k, j - 1, j);
      NetOne(code, j - 1);
    }
  }

  /**
   * The forward loop `for loop > 0 && i < len(code)-1 { i++; ... }` from
   * index `j` with depth `depth`: the first later index where the depth
   * reaches 0, or None when the last index is reached first.
   */
  function ScanForward(code: seq<char>, j: nat, depth: int): (r: Option<nat>)
    requires j < |code| && depth > 0
    ensures r.Some? ==> j < r.value < |code| && ForwardDepth(code, j, depth, r.value) == 0
    ensures r.Some? ==> forall k :: j <= k < r.value ==> ForwardDepth(code, j, depth, k) > 0
    ensures r.None? ==> forall k :: j <= k < |code| ==> ForwardDepth(code, j, depth, k) > 0
    decreases |code| - j
  {
    if j == |code| - 1 then
      None
    else
      var d := depth + Delta(code[j + 1]);
      ForwardShift(code, j, depth);
      if d == 0 then Some(j + 1) else ScanForward(code, j + 1, d)
  }

  /**
   * The backward loop `for loop > 0 && i > 0 { i--; ... }` from index `j`
   * with depth `depth`: the first earlier index where the depth reaches 0,
   * or None when index 0 is passed first.
   */
  function ScanBackward(code: seq<char>, j: nat, depth: int): (r: Option<nat>)
    requires j < |code| && depth > 0
    ensures r.Some? ==> r.value < j && BackwardDepth(code, j, depth, r.value) == 0
    ensures r.Some? ==> forall k :: r.value < k <= j ==> BackwardDepth(code, j, depth, k) > 0
    ensures r.None? ==> forall k :: 0 <= k <= j ==> BackwardDepth(code, j, depth, k) > 0
    decreases j
  {
    if j == 0 then
      None
    else
      var d := depth - Delta(code[j - 1]);
      BackwardShift(code, j, depth);
      if d == 0 then Some(j - 1) else ScanBackward(code, j - 1, d)
  }

  /** `j` is where the forward scan from the `[` at `i` stops: depth 0 there, positive before. */
  predicate ClosesAt(code: seq<char>, i: nat, j: nat) {
    i < j < |code| && ForwardDepth(code, i, 1, j) == 0 &&
    forall k :: i <= k < j ==> ForwardDepth(code, i, 1, k) > 0
  }

  /** `i` is where the backward scan from the `]` at `j` stops: depth 0 there, positive after. */
  predicate OpensAt(code: seq<char>, j: nat, i: nat) {
    i < j < |code| && BackwardDepth(code, j, 1, i) == 0 &&
    forall k :: i < k <= j ==> BackwardDepth(code, j, 1, k) > 0
  }

  /** Where `[` at `i` over a zero cell sends the scan; None is "missing ']'". */
  function MatchingClose(code: seq<char>, i: nat): (r: Option<nat>)
    requires i < |code|
    ensures forall j: nat :: r == Some(j) <==> ClosesAt(code, i, j)
    ensures r.None? <==> forall k :: i <= k < |code| ==> ForwardDepth(code, i, 1, k) > 0
    ensures r.Some? ==> i < r.value < |code| && code[r.value] == ']'
  {
    var r := ScanForward(code, i, 1);
    if r.Some? then
      NetSplit(code, i + 1, r.value, r.value + 1);
      NetOne(code, r.value);
      assert ForwardDepth(code, i, 1, r.value - 1) > 0;
      r
    else
      r
  }

  /** Where `]` at `j` over a nonzero cell sends the scan; None is "missing '['". */
  function MatchingOpen(code: seq<char>, j: nat): (r: Option<nat>)
    requires j < |code|
    ensures forall i: nat :: r == Some(i) <==> OpensAt(code, j, i)
    ensures r.None? <==> forall k :: 0 <= k <= j ==> BackwardDepth(code, j, 1, k) > 0
    ensures r.Some? ==> r.value < j && code[r.value] == '['
  {
    var r := ScanBackward(code, j, 1);
    if r.Some? then
      NetSplit(code, r.value, r.value + 1, j);
      NetOne(code, r.value);
      assert BackwardDepth(code, j, 1, r.value + 1) > 0;
      r
    else
      r
  }

  /**
   * Between a `[` at `i` and a `]` at `j`, the forward scan from `i` stops at
   * `j` exactly when the backward scan from `j` stops at `i`.
   */
  lemma ClosesIffOpens(code: seq<char>, i: nat, j: nat)
    requires i < j < |code| && code[i] == '[' && code[j] == ']'
    ensures ClosesAt(code, i, j) <==> OpensAt(code, j, i)
  {
    NetSplit(code, i + 1, j, j + 1);
    NetOne(code, j);
    NetSplit(code, i, i + 1, j);
    NetOne(code, i);
    var inner := Net(code[i + 1..j]);
    assert ForwardDepth(code, i, 1, j) == inner;
    assert BackwardDepth(code, j, 1, i) == -inner;
    forall k | i < k <= j
      ensures BackwardDepth(code, j, 1, k) == ForwardDepth(code, i, 1, k - 1) - inner
    {
      NetSplit(code, i + 1, k, j);
    }
    if ClosesAt(code, i, j) {
      forall k | i < k <= j ensures BackwardDepth(code, j, 1, k) > 0 {
        assert ForwardDepth(code, i, 1, k - 1) > 0;
      }
    }
    if OpensAt(code, j, i) {
      forall k | i <= k < j ensures ForwardDepth(code, i, 1, k) > 0 {
        assert BackwardDepth(code, j, 1, k + 1) > 0;
      }
    }
  }

  /** The two scans are inverse: a `[` jumps to the `]` that jumps back to it. */
  lemma ScansRoundTrip(code: seq<char>, i: nat, j: nat)
    requires i < |code| && j < |code| && code[i] == '['
    ensures MatchingClose(code, i) == Some(j) <==> (code[j] == ']' && MatchingOpen(code, j) == Some(i))
  {
    if MatchingClose(code, i) == Some(j) {
      ClosesIffOpens(code, i, j);
    }
    if code[j] == ']' && MatchingOpen(code, j) == Some(i) {
      ClosesIffOpens(code, i, j);
    }
  }

  /** The forward loop of `[`, as the dispatch loop runs it. */
  method SeekClose(code: seq<char>, i: nat) returns (r: Option<nat>)
    requires i < |code|
    ensures r == MatchingClose(code, i)
  {
    var j := i;
    var loop := 1;
    while loop > 0 && j < |code| - 1
      invariant i <= j < |code| && loop >= 0
      invariant loop > 0 ==> ScanForward(code, j, loop) == MatchingClose(code, i)
      invariant loop == 0 ==> Some(j) == MatchingClose(code, i)
      decreases |code| - j
    {
      j := j + 1;
      if code[j] == '[' {
        loop := loop + 1;
      } else if code[j] == ']' {
        loop := loop - 1;
      }
    }
    if loop != 0 {
      return None;
    }
    return Some(j);
  }

  /** The backward loop of `]`, as the dispatch loop runs it. */
  method SeekOpen(code: seq<char>, j: nat) returns (r: Option<nat>)
    requires j < |code|
    ensures r == MatchingOpen(code, j)
  {
    var i := j;
    var loop := 1;
    while loop > 0 && i > 0
      invariant 0 <= i <= j && loop >= 0
      invariant loop > 0 ==> ScanBackward(code, i, loop) == MatchingOpen(code, j)
      invariant loop == 0 ==> Some(i) == MatchingOpen(code, j)
      decreases i
    {
      i := i - 1;
      if code[i] == '[' {
        loop := loop - 1;
      } else if code[i] == ']' {
        loop := loop + 1;
      }
    }
    if loop != 0 {
      return None;
    }
    return Some(i);
  }
}
