/**
 * The interpreter object: its tape is an array updated in place, and its
 * methods are proved to do what the engine's Step and Exec say.
 */
module Interpreter {
  import opened Wrappers
  import opened Bytes
  import opened Scanner
  import opened Render
  import opened Diagnostics
  import opened Engine
  import opened GoInt

  class BrainfuckInterpreter {
    const memory: array<byte>
    const imageWidth: int64
    const snapshotStartX: int64
    const snapshotEndX: int64
    var pointer: int
    var input: seq<byte>
    var output: seq<Event>
    var maxPointerReached: int

    /** The object's state as an engine value. */
    function State(): Machine
      reads this, memory
    {
      Machine(memory[..], pointer, maxPointerReached, input, output)
    }

    function Settings(): Config {
      Config(imageWidth, snapshotStartX, snapshotEndX)
    }

    ghost predicate Valid()
      reads this, memory
    {
      Engine.Valid(State())
    }

    /** NewInterpreter: a zeroed tape of `memSize` cells, pointer at 0. */
    constructor (memSize: nat, imgWidth: int64, snapStartX: int64, snapEndX: int64, source: seq<byte>)
      requires memSize > 0
      ensures Valid() && fresh(memory)
      ensures State() == Machine(seq(memSize, _ => 0), 0, 0, source, [])
      ensures Settings() == Config(imgWidth, snapStartX, snapEndX)
    {
      memory := new byte[memSize](_ => 0);
      imageWidth := imgWidth;
      snapshotStartX := snapStartX;
      snapshotEndX := snapEndX;
      pointer := 0;
      maxPointerReached := 0;
      input := source;
      output := [];
      new;
      assert memory[..] == seq(memSize, _ => 0);
    }

    /**
     * The number of nonzero cells among indices 0..maxPointerReached, and
     * maxPointerReached + 1. By the tape invariant the count is also the
     * count over the whole tape.
     */
    method CalculateMemoryUsage() returns (nonZeroCount: nat, highestAddressUsed: int)
      requires Valid()
      ensures nonZeroCount == CountNonZero(memory[..maxPointerReached + 1])
      ensures nonZeroCount == CountNonZero(memory[..])
      ensures highestAddressUsed == maxPointerReached + 1
      ensures nonZeroCount <= highestAddressUsed <= memory.Length
    {
      nonZeroCount := 0;
      var i := 0;
      while i <= maxPointerReached
        invariant 0 <= i <= maxPointerReached + 1
        invariant nonZeroCount == CountNonZero(memory[..i])
      {
        assert memory[..i + 1][..i] == memory[..i];
        if memory[i] != 0 {
          nonZeroCount := nonZeroCount + 1;
        }
        i := i + 1;
      }
      highestAddressUsed := maxPointerReached + 1;
      CountZeroTail(memory[..], maxPointerReached + 1);
      assert memory[..][..maxPointerReached + 1] == memory[..maxPointerReached + 1];
    }

    /** `#`: appends the debug report; the tape is only read. */
    method PrintDebugInfo()
      requires Valid()
      modifies this`output
      ensures output == old(output) + [DebugReport(Report(memory[..], pointer, maxPointerReached))]
    {
      var nonZeroCount, highestAddress := CalculateMemoryUsage();
      var value := memory[pointer];
      output := output + [DebugReport(DebugInfo(pointer, value, Printable(value), nonZeroCount,
        highestAddress, memory.Length))];
    }

    /** `@`: appends one row per index of the window; the tape is only read. */
    method PrintMemorySnapshot()
      requires Valid()
      modifies this`output
      ensures output == old(output) + [MemorySnapshot(Window(memory[..], pointer, snapshotStartX, snapshotEndX))]
    {
      var start: int := Wrap(pointer - snapshotStartX);
      if start < 0 {
        start := 0;
      }
      var end: int := Wrap(pointer + snapshotEndX);
      if end >= memory.Length {
        end := memory.Length - 1;
      }
      var rows: seq<Row> := [];
      var i := start;
      while i <= end
        invariant start <= i <= if start <= end then end + 1 else start
        invariant |rows| == i - start
        invariant forall k :: 0 <= k < |rows| ==> rows[k] == RowAt(memory[..], pointer, start + k)
      {
        var highlighted := i == pointer;
        rows := rows + [Row(i, memory[i], Printable(memory[i]), highlighted)];
        i := i + 1;
      }
      assert start == WindowStart(pointer, snapshotStartX) && end == WindowEnd(pointer, snapshotEndX, memory.Length);
      ghost var window := Window(memory[..], pointer, snapshotStartX, snapshotEndX);
      assert |rows| == |window|;
      assert forall k :: 0 <= k < |rows| ==> rows[k] == window[k];
      assert rows == window;
      output := output + [MemorySnapshot(rows)];
    }

    /** drawColoredSquare: one square in the colour of the value's bucket. */
    method DrawColoredSquare(value: byte)
      modifies this`output
      ensures output == old(output) + [Square(ColourOf(value))]
    {
      output := output + [Square(ColourOf(value))];
    }

    /** One pass of the loop body of Run / RunImage at index `i`. */
    method Dispatch(code: seq<char>, i: nat, squares: nat, mode: Mode) returns (control: Control)
      requires i < |code| && Valid()
      modifies this, memory
      ensures Transition(control, State()) == Step(code, i, old(State()), squares, Settings(), mode)
    {
      control := Continue(i + 1, squares);
      match code[i]
      case '>' =>
        if pointer >= memory.Length - 1 {
          return Halt(PointerOverflow);
        }
        pointer := pointer + 1;
        if pointer > maxPointerReached {
          maxPointerReached := pointer;
        }
      case '<' =>
        if pointer <= 0 {
          return Halt(PointerUnderflow);
        }
        pointer := pointer - 1;
      case '+' =>
        memory[pointer] := Inc(memory[pointer]);
      case '-' =>
        memory[pointer] := Dec(memory[pointer]);
      case '.' =>
        match mode {
          case Text =>
            output := output + [Char(memory[pointer])];
          case Image =>
            var colorValue := memory[pointer];
            DrawColoredSquare(colorValue);
            var count := squares + 1;
            if imageWidth == 0 {
              return Halt(DivideByZero);
            }
            if count % imageWidth == 0 {
              output := output + [RowBreak];
            }
            control := Continue(i + 1, count);
        }
      case ',' =>
        if |input| == 0 {
          return Halt(InputFailure);
        }
        memory[pointer] := input[0];
        input := input[1..];
      case '#' =>
        PrintDebugInfo();
      case '@' =>
        PrintMemorySnapshot();
      case '[' =>
        if memory[pointer] == 0 {
          var r := SeekClose(code, i);
          match r {
            case None =>
              return Halt(MissingClose);
            case Some(j) =>
              control := Continue(j + 1, squares);
          }
        }
      case ']' =>
        if memory[pointer] != 0 {
          var r := SeekOpen(code, i);
          match r {
            case None =>
              return Halt(MissingOpen);
            case Some(j) =>
              control := Continue(j + 1, squares);
          }
        }
      case _ =>
    }

    /**
     * Run (mode Text) and RunImage (mode Image) as one loop, bounded by
     * `fuel` passes. The final state and outcome are those of Exec.
     */
    method Run(code: seq<char>, mode: Mode, fuel: nat) returns (outcome: Outcome)
      requires Valid()
      modifies this, memory
      ensures Valid()
      ensures Final(outcome, State()) == Exec(code, 0, old(State()), 0, Settings(), mode, fuel)
    {
      var i: nat := 0;
      var squareCount: nat := 0;
      var left := fuel;
      while i < |code|
        invariant Valid()
        invariant Exec(code, i, State(), squareCount, Settings(), mode, left)
               == Exec(code, 0, old(State()), 0, Settings(), mode, fuel)
        decreases left
      {
        if left == 0 {
          return OutOfFuel;
        }
        var control := Dispatch(code, i, squareCount, mode);
        match control
        case Halt(e) =>
          return Failed(e);
        case Continue(next, count) =>
          i, squareCount := next, count;
        left := left - 1;
      }
      return Done;
    }
  }
}
