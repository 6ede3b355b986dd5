/**
 * The `#` and `@` observers: read-only views of the tape. Terminal colours
 * and the printed text are not modelled; a report is the data it prints.
 */
module Diagnostics {
  import opened Bytes
  import opened GoInt

  /** What PrintDebugInfo shows. */
  datatype DebugInfo = DebugInfo(
    pointer: int,
    value: byte,
    printable: bool,
    nonZeroCells: nat,
    highestAddressUsed: int,
    memorySize: nat)

  /** One line of PrintMemorySnapshot: index, value, printable form, pointer marker. */
  datatype Row = Row(index: int, value: byte, printable: bool, highlighted: bool)

  /** Values shown with their character form too (printable ASCII). */
  predicate Printable(v: byte) {
    32 <= v <= 126
  }

  /** Number of nonzero cells in `s`, counted left to right as the source's loop does. */
  function CountNonZero(s: seq<byte>): (n: nat)
    ensures n <= |s|
    ensures n == 0 <==> forall k :: 0 <= k < |s| ==> s[k] == 0
  {
    if s == [] then 0
    else
      var init := s[..|s| - 1];
      assert forall k :: 0 <= k < |init| ==> init[k] == s[k];
      CountNonZero(init) + (if s[|s| - 1] != 0 then 1 else 0)
  }

  /** Zero cells after a prefix do not change the count. */
  lemma {:induction false} CountZeroTail(s: seq<byte>, n: nat)
    requires n <= |s|
    requires forall k :: n <= k < |s| ==> s[k] == 0
    ensures CountNonZero(s[..n]) == CountNonZero(s)
    decreases |s| - n
  {
    if n < |s| {
      CountZeroTail(s, n + 1);
      assert s[..n + 1][..n] == s[..n];
    } else {
      assert s[..n] == s;
    }
  }

  /** The report `#` prints, for a tape `memory` whose pointer is `pointer`. */
  function Report(memory: seq<byte>, pointer: int, maxPointerReached: int): DebugInfo
    requires 0 <= pointer < |memory| && 0 <= maxPointerReached < |memory|
  {
    var v := memory[pointer];
    DebugInfo(pointer, v, Printable(v), CountNonZero(memory[..maxPointerReached + 1]),
      maxPointerReached + 1, |memory|)
  }

  /**
   * First index shown by `@`: `pointer - startX` in Go's 64-bit `int`,
   * raised to 0 when negative.
   */
  function WindowStart(pointer: int, startX: int64): int {
    var start := Wrap(pointer - startX);
    if start < 0 then 0 else start
  }

  /**
   * Last index shown by `@`: `pointer + endX` in Go's 64-bit `int`,
   * lowered to the last cell when past it.
   */
  function WindowEnd(pointer: int, endX: int64, size: nat): int {
    var end := Wrap(pointer + endX);
    if end >= size then size - 1 else end
  }

  function RowAt(memory: seq<byte>, pointer: int, k: int): Row
    requires 0 <= k < |memory|
  {
    Row(k, memory[k], Printable(memory[k]), k == pointer)
  }

  /** The rows `@` prints, one per index of the window, in order. */
  function Window(memory: seq<byte>, pointer: int, startX: int64, endX: int64): seq<Row> {
    var lo := WindowStart(pointer, startX);
    var hi := WindowEnd(pointer, endX, |memory|);
    if hi < lo then [] else seq(hi - lo + 1, k requires 0 <= k < hi - lo + 1 => RowAt(memory, pointer, lo + k))
  }

  /**
   * For non-negative offsets whose sum with the pointer fits a Go `int`, the
   * window lies inside the tape and contains the pointer.
   */
  lemma WindowBounds(pointer: int, startX: int64, endX: int64, size: nat)
    requires 0 <= pointer < size && startX >= 0 && endX >= 0 && pointer + endX <= INT64_MAX
    ensures 0 <= WindowStart(pointer, startX) <= pointer <= WindowEnd(pointer, endX, size) < size
  {
  }

  /**
   * For non-negative offsets that do not overflow, `@` lists each cell of
   * the window once, in order, and highlights exactly the row of the pointer.
   */
  lemma WindowShape(memory: seq<byte>, pointer: int, startX: int64, endX: int64)
    requires 0 <= pointer < |memory| && startX >= 0 && endX >= 0 && pointer + endX <= INT64_MAX
    ensures |Window(memory, pointer, startX, endX)|
         == WindowEnd(pointer, endX, |memory|) - WindowStart(pointer, startX) + 1
    ensures forall k :: 0 <= k < |Window(memory, pointer, startX, endX)| ==>
              Window(memory, pointer, startX, endX)[k].index == WindowStart(pointer, startX) + k &&
              Window(memory, pointer, startX, endX)[k].value == memory[WindowStart(pointer, startX) + k] &&
              Window(memory, pointer, startX, endX)[k].printable == Printable(memory[WindowStart(pointer, startX) + k])
    ensures forall k :: 0 <= k < |Window(memory, pointer, startX, endX)| ==>
              (Window(memory, pointer, startX, endX)[k].highlighted <==> k == pointer - WindowStart(pointer, startX))
  {
    WindowBounds(pointer, startX, endX, |memory|);
    var lo := WindowStart(pointer, startX);
    var rows := Window(memory, pointer, startX, endX);
    forall k | 0 <= k < |rows| ensures rows[k] == RowAt(memory, pointer, lo + k) {
    }
  }

  /** Whatever the offsets, `@` reads only cells of the tape. */
  lemma WindowInBounds(memory: seq<byte>, pointer: int, startX: int64, endX: int64)
    ensures forall k :: 0 <= k < |Window(memory, pointer, startX, endX)| ==>
      0 <= Window(memory, pointer, startX, endX)[k].index < |memory|
  {
    var lo := WindowStart(pointer, startX);
    var rows := Window(memory, pointer, startX, endX);
    assert forall k :: 0 <= k < |rows| ==> rows[k] == RowAt(memory, pointer, lo + k);
  }

  /**
   * Where the 64-bit arithmetic overflows: a `pointer + endX` past the
   * largest `int` wraps to a negative end, so `@` lists no rows at all; a
   * `pointer - startX` past it wraps to a negative start, which is raised
   * to 0. Otherwise the offsets act as written.
   */
  lemma WindowOverflow(memory: seq<byte>, pointer: int, startX: int64, endX: int64)
    requires 0 <= pointer < |memory| && pointer <= INT64_MAX
    ensures pointer + endX > INT64_MAX ==> Window(memory, pointer, startX, endX) == []
    ensures pointer - startX > INT64_MAX ==> WindowStart(pointer, startX) == 0
    ensures pointer - startX <= INT64_MAX ==>
              WindowStart(pointer, startX) == if pointer - startX < 0 then 0 else pointer - startX
    ensures pointer + endX <= INT64_MAX ==>
              WindowEnd(pointer, endX, |memory|) == if pointer + endX >= |memory| then |memory| - 1 else pointer + endX
  {
    WrapSum(pointer, endX);
    WrapSum(pointer, startX);
  }

  /**
   * With every cell past `maxPointerReached` zero, the count over the
   * visited prefix is the count over the whole tape, and it never exceeds
   * the number of addresses used.
   */
  lemma ReportCountsWholeTape(memory: seq<byte>, pointer: int, maxPointerReached: int)
    requires 0 <= pointer <= maxPointerReached < |memory|
    requires forall k :: maxPointerReached < k < |memory| ==> memory[k] == 0
    ensures var r := Report(memory, pointer, maxPointerReached);
            r.nonZeroCells == CountNonZero(memory) &&
            r.nonZeroCells <= r.highestAddressUsed <= r.memorySize &&
            r.printable == (32 <= memory[pointer] <= 126)
  {
    CountZeroTail(memory, maxPointerReached + 1);
  }
}
