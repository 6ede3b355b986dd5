/** What one pass of the loop body and whole runs of the engine do. */
module Properties {
  import opened Wrappers
  import opened Scanner
  import opened Render
  import opened Diagnostics
  import opened Engine

  /** `>` fails at the last cell and changes nothing; otherwise moves one right and raises the high mark. */
  lemma MoveRightStep(code: seq<char>, i: nat, m: Machine, squares: nat, cfg: Config, mode: Mode)
    requires i < |code| && code[i] == '>' && Valid(m)
    ensures var t := Step(code, i, m, squares, cfg, mode);
      if m.pointer >= |m.memory| - 1 then t == Transition(Halt(PointerOverflow), m)
      else t == Transition(Continue(i + 1, squares), MoveTo(m, m.pointer + 1))
  {
  }

  /** `<` fails at cell 0 and changes nothing; otherwise moves one left. */
  lemma MoveLeftStep(code: seq<char>, i: nat, m: Machine, squares: nat, cfg: Config, mode: Mode)
    requires i < |code| && code[i] == '<' && Valid(m)
    ensures var t := Step(code, i, m, squares, cfg, mode);
      if m.pointer <= 0 then t == Transition(Halt(PointerUnderflow), m)
      else t == Transition(Continue(i + 1, squares), m.(pointer := m.pointer - 1))
  {
  }

  /** `+` and `-` change only the current cell, by one modulo 256. */
  lemma CellArithmeticStep(code: seq<char>, i: nat, m: Machine, squares: nat, cfg: Config, mode: Mode)
    requires i < |code| && (code[i] == '+' || code[i] == '-') && Valid(m)
    ensures var t := Step(code, i, m, squares, cfg, mode);
      var v := m.memory[m.pointer];
      t.control == Continue(i + 1, squares) &&
      t.machine == m.(memory := m.memory[m.pointer := if code[i] == '+' then (v as int + 1) % 256 else (v as int + 255) % 256])
  {
  }

  /** `,` stores the next input byte, or fails with nothing changed when the input is exhausted. */
  lemma ReadStep(code: seq<char>, i: nat, m: Machine, squares: nat, cfg: Config, mode: Mode)
    requires i < |code| && code[i] == ',' && Valid(m)
    ensures var t := Step(code, i, m, squares, cfg, mode);
      if m.input == [] then t == Transition(Halt(InputFailure), m)
      else t == Transition(Continue(i + 1, squares),
        m.(memory := m.memory[m.pointer := m.input[0]], input := m.input[1..]))
  {
  }

  /** Characters outside the instruction set are skipped. */
  lemma NoOpStep(code: seq<char>, i: nat, m: Machine, squares: nat, cfg: Config, mode: Mode)
    requires i < |code| && !IsInstruction(code[i]) && Valid(m)
    ensures Step(code, i, m, squares, cfg, mode) == Transition(Continue(i + 1, squares), m)
  {
  }

  /**
   * `[` over a zero cell jumps past the `]` where the nesting depth first
   * returns to 0, or fails with "missing ']'"; over a nonzero cell it is a
   * no-op, even when no `]` matches.
   */
  lemma OpenBracketStep(code: seq<char>, i: nat, m: Machine, squares: nat, cfg: Config, mode: Mode)
    requires i < |code| && code[i] == '[' && Valid(m)
    ensures var t := Step(code, i, m, squares, cfg, mode);
      t.machine == m &&
      (m.memory[m.pointer] != 0 ==> t.control == Continue(i + 1, squares)) &&
      (m.memory[m.pointer] == 0 ==>
        (t.control == Halt(MissingClose) <==> forall k :: i <= k < |code| ==> ForwardDepth(code, i, 1, k) > 0) &&
        (forall j: nat :: t.control == Continue(j + 1, squares) <==> ClosesAt(code, i, j)))
  {
    if m.memory[m.pointer] == 0 {
      var r := MatchingClose(code, i);
      forall j: nat ensures Step(code, i, m, squares, cfg, mode).control == Continue(j + 1, squares) <==> ClosesAt(code, i, j) {
        assert r == Some(j) <==> ClosesAt(code, i, j);
      }
    }
  }

  /**
   * `]` over a nonzero cell jumps to just after the `[` where the backward
   * depth first returns to 0, or fails with "missing '['"; over a zero cell
   * it is a no-op, even when no `[` matches.
   */
  lemma CloseBracketStep(code: seq<char>, i: nat, m: Machine, squares: nat, cfg: Config, mode: Mode)
    requires i < |code| && code[i] == ']' && Valid(m)
    ensures var t := Step(code, i, m, squares, cfg, mode);
      t.machine == m &&
      (m.memory[m.pointer] == 0 ==> t.control == Continue(i + 1, squares)) &&
      (m.memory[m.pointer] != 0 ==>
        (t.control == Halt(MissingOpen) <==> forall k :: 0 <= k <= i ==> BackwardDepth(code, i, 1, k) > 0) &&
        (forall j: nat :: t.control == Continue(j + 1, squares) <==> OpensAt(code, i, j)))
  {
    if m.memory[m.pointer] != 0 {
      var r := MatchingOpen(code, i);
      forall j: nat ensures Step(code, i, m, squares, cfg, mode).control == Continue(j + 1, squares) <==> OpensAt(code, i, j) {
        assert r == Some(j) <==> OpensAt(code, i, j);
      }
    }
  }

  /**
   * `.` in image mode draws one square in the cell's colour bucket, then a
   * row break exactly when the square count reaches a multiple of the width.
   */
  lemma ImageDotStep(code: seq<char>, i: nat, m: Machine, squares: nat, cfg: Config)
    requires i < |code| && code[i] == '.' && Valid(m) && cfg.imageWidth != 0
    ensures var t := Step(code, i, m, squares, cfg, Image);
      var v := m.memory[m.pointer];
      t.control == Continue(i + 1, squares + 1) &&
      Rank(ColourOf(v)) == v / 32 &&
      t.machine == m.(output := m.output + [Square(ColourOf(v))] +
        (if (squares + 1) % cfg.imageWidth == 0 then [RowBreak] else []))
  {
  }

  /** `.` in text mode writes the cell's byte. */
  lemma TextDotStep(code: seq<char>, i: nat, m: Machine, squares: nat, cfg: Config)
    requires i < |code| && code[i] == '.' && Valid(m)
    ensures Step(code, i, m, squares, cfg, Text)
      == Transition(Continue(i + 1, squares), m.(output := m.output + [Char(m.memory[m.pointer])]))
  {
  }

  /** `#` and `@` only append a report computed from the tape; nothing else changes. */
  lemma DiagnosticsReadOnly(code: seq<char>, i: nat, m: Machine, squares: nat, cfg: Config, mode: Mode)
    requires i < |code| && (code[i] == '#' || code[i] == '@') && Valid(m)
    ensures var t := Step(code, i, m, squares, cfg, mode);
      t.control == Continue(i + 1, squares) &&
      t.machine == m.(output := m.output + [
        if code[i] == '#' then DebugReport(Report(m.memory, m.pointer, m.maxPointerReached))
        else MemorySnapshot(Window(m.memory, m.pointer, cfg.snapshotStartX, cfg.snapshotEndX))])
  {
  }
}
