/** Small programs whose whole run is known. */
module Scenarios {
  import opened Wrappers
  import opened Bytes
  import opened Scanner
  import opened Diagnostics
  import opened Engine
  import opened Properties

  /** One pass that continues hands the rest of the run to the next index. */
  lemma Continues(code: seq<char>, i: nat, m: Machine, squares: nat, cfg: Config, mode: Mode, fuel: nat,
                  next: nat, count: nat, m': Machine)
    requires Valid(m) && i < |code| && fuel > 0
    requires Step(code, i, m, squares, cfg, mode) == Transition(Continue(next, count), m')
    ensures Exec(code, i, m, squares, cfg, mode, fuel) == Exec(code, next, m', count, cfg, mode, fuel - 1)
  {
  }

  /** `++++.` over a zero cell in text mode writes the single byte 4. */
  lemma PrintsFour(m: Machine, cfg: Config, fuel: nat)
    requires Valid(m) && m.memory[m.pointer] == 0 && fuel >= 5
    ensures Exec("++++.", 0, m, 0, cfg, Text, fuel)
         == Final(Done, m.(memory := m.memory[m.pointer := 4], output := m.output + [Char(4)]))
  {
    var code := "++++.";
    var p := m.pointer;
    var m1 := m.(memory := m.memory[p := 1]);
    var m2 := m.(memory := m.memory[p := 2]);
    var m3 := m.(memory := m.memory[p := 3]);
    var m4 := m.(memory := m.memory[p := 4]);
    Continues(code, 0, m, 0, cfg, Text, fuel, 1, 0, m1);
    Continues(code, 1, m1, 0, cfg, Text, fuel - 1, 2, 0, m2);
    Continues(code, 2, m2, 0, cfg, Text, fuel - 2, 3, 0, m3);
    Continues(code, 3, m3, 0, cfg, Text, fuel - 3, 4, 0, m4);
    Continues(code, 4, m4, 0, cfg, Text, fuel - 4, 5, 0, m4.(output := m.output + [Char(4)]));
  }

  /** `[` alone fails with "missing ']'" over a zero cell, and is never checked over a nonzero one. */
  lemma LoneOpen(m: Machine, squares: nat, cfg: Config, mode: Mode, fuel: nat)
    requires Valid(m) && fuel >= 1
    ensures Exec("[", 0, m, squares, cfg, mode, fuel).outcome
         == if m.memory[m.pointer] == 0 then Failed(MissingClose) else Done
  {
    assert MatchingClose("[", 0) == None;
  }

  /** A stray `]` is an error only over a nonzero cell. */
  lemma StrayClose(m: Machine, squares: nat, cfg: Config, mode: Mode, fuel: nat)
    requires Valid(m) && fuel >= 1
    ensures Exec("]", 0, m, squares, cfg, mode, fuel).outcome
         == if m.memory[m.pointer] == 0 then Done else Failed(MissingOpen)
  {
    assert MatchingOpen("]", 0) == None;
  }

  /** `code` is the program `+[-]`. */
  predicate IsClear(code: seq<char>) {
    |code| == 4 && code[0] == '+' && code[1] == '[' && code[2] == '-' && code[3] == ']'
  }

  /** The brackets of `+[-]` match each other. */
  lemma ClearBrackets(code: seq<char>)
    requires IsClear(code)
    ensures MatchingClose(code, 1) == Some(3) && MatchingOpen(code, 3) == Some(1)
  {
    assert ScanForward(code, 2, 1) == Some(3);
    assert ScanBackward(code, 2, 1) == Some(1);
  }

  /**
   * The body of `+[-]` from index 2 over a cell holding `v > 0`: each round
   * takes one off the cell and jumps back, until the cell is 0.
   */
  lemma {:induction false} ClearBody(code: seq<char>, m: Machine, squares: nat, cfg: Config, mode: Mode, fuel: nat)
    requires IsClear(code) && Valid(m) && m.memory[m.pointer] != 0
    requires fuel >= 2 * (m.memory[m.pointer] as int)
    ensures Exec(code, 2, m, squares, cfg, mode, fuel) == Final(Done, m.(memory := m.memory[m.pointer := 0]))
    decreases m.memory[m.pointer]
  {
    var v := m.memory[m.pointer];
    var m' := m.(memory := m.memory[m.pointer := Dec(v)]);
    CellArithmeticStep(code, 2, m, squares, cfg, mode);
    Continues(code, 2, m, squares, cfg, mode, fuel, 3, squares, m');
    ClearBrackets(code);
    CloseBracketStep(code, 3, m', squares, cfg, mode);
    if v == 1 {
      Continues(code, 3, m', squares, cfg, mode, fuel - 1, 4, squares, m');
    } else {
      Continues(code, 3, m', squares, cfg, mode, fuel - 1, 2, squares, m');
      ClearBody(code, m', squares, cfg, mode, fuel - 2);
      assert m'.memory[m.pointer := 0] == m.memory[m.pointer := 0];
    }
  }

  /**
   * `+[-]` halts normally with the current cell 0 and nothing else changed,
   * whatever the cell held: from 255 the `+` wraps it to 0 and the loop is
   * skipped; from any other value `v` the loop runs v + 1 rounds.
   */
  lemma ClearLoop(m: Machine, squares: nat, cfg: Config, mode: Mode, fuel: nat)
    requires Valid(m) && fuel >= 2 + 2 * (Inc(m.memory[m.pointer]) as int)
    ensures Exec("+[-]", 0, m, squares, cfg, mode, fuel) == Final(Done, m.(memory := m.memory[m.pointer := 0]))
  {
    ClearFrom("+[-]", m, squares, cfg, mode, fuel);
  }

  lemma ClearFrom(code: seq<char>, m: Machine, squares: nat, cfg: Config, mode: Mode, fuel: nat)
    requires IsClear(code) && Valid(m) && fuel >= 2 + 2 * (Inc(m.memory[m.pointer]) as int)
    ensures Exec(code, 0, m, squares, cfg, mode, fuel) == Final(Done, m.(memory := m.memory[m.pointer := 0]))
  {
    var v := m.memory[m.pointer];
    var m1 := m.(memory := m.memory[m.pointer := Inc(v)]);
    CellArithmeticStep(code, 0, m, squares, cfg, mode);
    Continues(code, 0, m, squares, cfg, mode, fuel, 1, squares, m1);
    ClearBrackets(code);
    OpenBracketStep(code, 1, m1, squares, cfg, mode);
    if Inc(v) == 0 {
      Continues(code, 1, m1, squares, cfg, mode, fuel - 1, 4, squares, m1);
    } else {
      Continues(code, 1, m1, squares, cfg, mode, fuel - 1, 2, squares, m1);
      ClearBody(code, m1, squares, cfg, mode, fuel - 2);
      assert m1.memory[m.pointer := 0] == m.memory[m.pointer := 0];
    }
  }

  /** Two `#` in a row write the same report twice: the first changed nothing it reports on. */
  lemma ReportTwice(m: Machine, squares: nat, cfg: Config, mode: Mode, fuel: nat)
    requires Valid(m) && fuel >= 2
    ensures var e := DebugReport(Report(m.memory, m.pointer, m.maxPointerReached));
      Exec("##", 0, m, squares, cfg, mode, fuel) == Final(Done, m.(output := m.output + [e, e]))
  {
    var e := DebugReport(Report(m.memory, m.pointer, m.maxPointerReached));
    var m1 := m.(output := m.output + [e]);
    Continues("##", 0, m, squares, cfg, mode, fuel, 1, squares, m1);
    Continues("##", 1, m1, squares, cfg, mode, fuel - 1, 2, squares, m1.(output := m1.output + [e]));
    assert m1.output + [e] == m.output + [e, e];
  }

  /** Two `@` in a row write the same snapshot twice. */
  lemma SnapshotTwice(m: Machine, squares: nat, cfg: Config, mode: Mode, fuel: nat)
    requires Valid(m) && fuel >= 2
    ensures var e := MemorySnapshot(Window(m.memory, m.pointer, cfg.snapshotStartX, cfg.snapshotEndX));
      Exec("@@", 0, m, squares, cfg, mode, fuel) == Final(Done, m.(output := m.output + [e, e]))
  {
    var e := MemorySnapshot(Window(m.memory, m.pointer, cfg.snapshotStartX, cfg.snapshotEndX));
    var m1 := m.(output := m.output + [e]);
    Continues("@@", 0, m, squares, cfg, mode, fuel, 1, squares, m1);
    Continues("@@", 1, m1, squares, cfg, mode, fuel - 1, 2, squares, m1.(output := m1.output + [e]));
    assert m1.output + [e] == m.output + [e, e];
  }

  /** `code` is the program `[>]`. */
  predicate IsSeek(code: seq<char>) {
    |code| == 3 && code[0] == '[' && code[1] == '>' && code[2] == ']'
  }

  /** The brackets of `[>]` match each other. */
  lemma SeekBrackets(code: seq<char>)
    requires IsSeek(code)
    ensures MatchingClose(code, 0) == Some(2) && MatchingOpen(code, 2) == Some(0)
  {
    assert ScanForward(code, 1, 1) == Some(2);
    assert ScanBackward(code, 1, 1) == Some(0);
  }

  /** Index 0 of `[>]`: skip the loop over a zero cell, enter it otherwise. */
  lemma SeekEnter(code: seq<char>, m: Machine, squares: nat, cfg: Config, mode: Mode)
    requires IsSeek(code) && Valid(m)
    ensures Step(code, 0, m, squares, cfg, mode)
         == Transition(Continue(if m.memory[m.pointer] == 0 then 3 else 1, squares), m)
  {
    SeekBrackets(code);
    OpenBracketStep(code, 0, m, squares, cfg, mode);
  }

  /** Index 2 of `[>]`: leave the loop over a zero cell, repeat the body otherwise. */
  lemma SeekTest(code: seq<char>, m: Machine, squares: nat, cfg: Config, mode: Mode)
    requires IsSeek(code) && Valid(m)
    ensures Step(code, 2, m, squares, cfg, mode)
         == Transition(Continue(if m.memory[m.pointer] == 0 then 3 else 1, squares), m)
  {
    SeekBrackets(code);
    CloseBracketStep(code, 2, m, squares, cfg, mode);
  }

  /** The body of `[>]` from index 1, with the pointer on a nonzero cell before the first zero cell `z`. */
  lemma {:induction false} SeekZeroBody(code: seq<char>, m: Machine, squares: nat, cfg: Config, mode: Mode,
                                         fuel: nat, z: nat)
    requires IsSeek(code) && Valid(m) && m.pointer < z < |m.memory| && m.memory[z] == 0
    requires forall k :: m.pointer <= k < z ==> m.memory[k] != 0
    requires fuel >= 2 * (z - m.pointer)
    ensures Exec(code, 1, m, squares, cfg, mode, fuel) == Final(Done, MoveTo(m, z))
    decreases z - m.pointer
  {
    var m' := MoveTo(m, m.pointer + 1);
    MoveRightStep(code, 1, m, squares, cfg, mode);
    Continues(code, 1, m, squares, cfg, mode, fuel, 2, squares, m');
    SeekTest(code, m', squares, cfg, mode);
    if m.pointer + 1 == z {
      Continues(code, 2, m', squares, cfg, mode, fuel - 1, 3, squares, m');
    } else {
      Continues(code, 2, m', squares, cfg, mode, fuel - 1, 1, squares, m');
      SeekZeroBody(code, m', squares, cfg, mode, fuel - 2, z);
      assert MoveTo(m', z) == MoveTo(m, z);
    }
  }

  /**
   * `[>]` moves the pointer to the first zero cell at or after it; the cells
   * themselves are unchanged and that zero cell ends the loop.
   */
  lemma SeekZero(m: Machine, squares: nat, cfg: Config, mode: Mode, fuel: nat, z: nat)
    requires Valid(m) && m.pointer <= z < |m.memory| && m.memory[z] == 0
    requires forall k :: m.pointer <= k < z ==> m.memory[k] != 0
    requires fuel >= 1 + 2 * (z - m.pointer)
    ensures var f := Exec("[>]", 0, m, squares, cfg, mode, fuel);
      f == Final(Done, MoveTo(m, z)) && f.machine.memory == m.memory && f.machine.memory[f.machine.pointer] == 0
  {
    SeekZeroFrom("[>]", m, squares, cfg, mode, fuel, z);
  }

  lemma SeekZeroFrom(code: seq<char>, m: Machine, squares: nat, cfg: Config, mode: Mode, fuel: nat, z: nat)
    requires IsSeek(code) && Valid(m) && m.pointer <= z < |m.memory| && m.memory[z] == 0
    requires forall k :: m.pointer <= k < z ==> m.memory[k] != 0
    requires fuel >= 1 + 2 * (z - m.pointer)
    ensures Exec(code, 0, m, squares, cfg, mode, fuel) == Final(Done, MoveTo(m, z))
  {
    SeekEnter(code, m, squares, cfg, mode);
    if z == m.pointer {
      Continues(code, 0, m, squares, cfg, mode, fuel, 3, squares, m);
      assert MoveTo(m, z) == m;
    } else {
      Continues(code, 0, m, squares, cfg, mode, fuel, 1, squares, m);
      SeekZeroBody(code, m, squares, cfg, mode, fuel - 1, z);
    }
  }
}
