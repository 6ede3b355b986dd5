/**
 * The dispatch loop of Run and RunImage as one engine over a value: a
 * Machine is the interpreter's state (tape, pointer, highest pointer,
 * unread input, output so far), Step is one pass of the loop body and Exec
 * is the loop. The output mode only changes what `.` emits.
 */
module Engine {
  import opened Wrappers
  import opened Bytes
  import opened Scanner
  import opened Render
  import opened Diagnostics
  import opened GoInt

  datatype Mode = Text | Image

  /** The interpreter's fixed settings: image width and the snapshot offsets. */
  datatype Config = Config(imageWidth: int64, snapshotStartX: int64, snapshotEndX: int64)

  /** What the interpreter writes to its output. */
  datatype Event =
    | Char(value: byte)            // `.` in text mode
    | Square(colour: Colour)       // `.` in image mode
    | RowBreak                     // image mode, after every imageWidth-th square
    | DebugReport(info: DebugInfo) // `#`
    | MemorySnapshot(rows: seq<Row>) // `@`

  /**
   * How a run stops early. DivideByZero is not a returned error: it is the
   * Go runtime panic of `squareCount % imageWidth` with a zero width.
   */
  datatype Error =
    | PointerOverflow   // "pointer out of bounds (out of memory)"
    | PointerUnderflow  // "pointer out of bounds"
    | MissingClose      // "unmatched brackets (missing ']')"
    | MissingOpen       // "unmatched brackets: missing '['"
    | InputFailure      // "failed to read input"
    | DivideByZero

  datatype Machine = Machine(
    memory: seq<byte>,
    pointer: int,
    maxPointerReached: int,
    input: seq<byte>,
    output: seq<Event>)

  /** The loop's next move: go on at index `next`, or stop with an error. */
  datatype Control = Continue(next: nat, squares: nat) | Halt(error: Error)

  datatype Transition = Transition(control: Control, machine: Machine)

  /** OutOfFuel: the step bound ran out before the code did. */
  datatype Outcome = Done | Failed(error: Error) | OutOfFuel

  datatype Final = Final(outcome: Outcome, machine: Machine)

  /**
   * The tape invariant: the pointer lies in the tape, never above the
   * highest index reached, and every cell above that index is still 0.
   */
  predicate Valid(m: Machine) {
    0 <= m.pointer <= m.maxPointerReached < |m.memory| &&
    forall k :: m.maxPointerReached < k < |m.memory| ==> m.memory[k] == 0
  }

  /** The machine after the pointer moves to `p`, with the high mark raised to `p` when it is above it. */
  function MoveTo(m: Machine, p: int): Machine {
    m.(pointer := p, maxPointerReached := if p > m.maxPointerReached then p else m.maxPointerReached)
  }

  /** The characters the loop acts on; every other character is skipped. */
  predicate IsInstruction(c: char) {
    c in {'>', '<', '+', '-', '.', ',', '[', ']', '#', '@'}
  }

  /**
   * One pass of the loop body at index `i`. `squares` is RunImage's square
   * counter; the next index already includes the loop's `i++`.
   */
  function Step(code: seq<char>, i: nat, m: Machine, squares: nat, cfg: Config, mode: Mode): (t: Transition)
    requires i < |code| && Valid(m)
    ensures Valid(t.machine)
    ensures |t.machine.memory| == |m.memory|
    ensures m.maxPointerReached <= t.machine.maxPointerReached
    ensures forall k :: 0 <= k < |m.memory| && k != m.pointer ==> t.machine.memory[k] == m.memory[k]
    ensures m.output <= t.machine.output
    ensures t.control.Continue? ==> t.control.next <= |code|
  {
    var cell := m.memory[m.pointer];
    match code[i]
    case '>' =>
      if m.pointer >= |m.memory| - 1 then Transition(Halt(PointerOverflow), m)
      else Transition(Continue(i + 1, squares), MoveTo(m, m.pointer + 1))
    case '<' =>
      if m.pointer <= 0 then Transition(Halt(PointerUnderflow), m)
      else Transition(Continue(i + 1, squares), m.(pointer := m.pointer - 1))
    case '+' =>
      Transition(Continue(i + 1, squares), m.(memory := m.memory[m.pointer := Inc(cell)]))
    case '-' =>
      Transition(Continue(i + 1, squares), m.(memory := m.memory[m.pointer := Dec(cell)]))
    case '.' =>
      (match mode
       case Text =>
         Transition(Continue(i + 1, squares), m.(output := m.output + [Char(cell)]))
       case Image =>
         var drawn := m.output + [Square(ColourOf(cell))];
         var count := squares + 1;
         if cfg.imageWidth == 0 then Transition(Halt(DivideByZero), m.(output := drawn))
         else if count % cfg.imageWidth == 0 then
           Transition(Continue(i + 1, count), m.(output := drawn + [RowBreak]))
         else
           Transition(Continue(i + 1, count), m.(output := drawn)))
    case ',' =>
      if |m.input| == 0 then Transition(Halt(InputFailure), m)
      else Transition(Continue(i + 1, squares),
        m.(memory := m.memory[m.pointer := m.input[0]], input := m.input[1..]))
    case '#' =>
      Transition(Continue(i + 1, squares),
        m.(output := m.output + [DebugReport(Report(m.memory, m.pointer, m.maxPointerReached))]))
    case '@' =>
      Transition(Continue(i + 1, squares),
        m.(output := m.output + [MemorySnapshot(Window(m.memory, m.pointer, cfg.snapshotStartX, cfg.snapshotEndX))]))
    case '[' =>
      if cell == 0 then
        (match MatchingClose(code, i)
         case None => Transition(Halt(MissingClose), m)
         case Some(j) => Transition(Continue(j + 1, squares), m))
      else Transition(Continue(i + 1, squares), m)
    case ']' =>
      if cell != 0 then
        (match MatchingOpen(code, i)
         case None => Transition(Halt(MissingOpen), m)
         case Some(j) => Transition(Continue(j + 1, squares), m))
      else Transition(Continue(i + 1, squares), m)
    case _ =>
      Transition(Continue(i + 1, squares), m)
  }

  /**
   * The dispatch loop from index `i`, bounded by `fuel` passes. Errors stop
   * the loop with the state reached so far; output is never taken back.
   */
  function Exec(code: seq<char>, i: nat, m: Machine, squares: nat, cfg: Config, mode: Mode, fuel: nat): (f: Final)
    requires Valid(m)
    ensures Valid(f.machine)
    ensures |f.machine.memory| == |m.memory|
    ensures m.maxPointerReached <= f.machine.maxPointerReached
    ensures m.output <= f.machine.output
    decreases fuel
  {
    if i >= |code| then Final(Done, m)
    else if fuel == 0 then Final(OutOfFuel, m)
    else
      var t := Step(code, i, m, squares, cfg, mode);
      match t.control
      case Halt(e) => Final(Failed(e), t.machine)
      case Continue(next, count) => Exec(code, next, t.machine, count, cfg, mode, fuel - 1)
  }
}
