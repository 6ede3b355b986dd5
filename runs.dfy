/** Properties of whole runs of the dispatch loop. */
module Runs {
  import opened Bytes
  import opened Render
  import opened Engine
  import opened Properties

  /**
   * The step bound only cuts runs short: a run that finishes (or fails)
   * within some fuel ends the same way with any larger fuel.
   */
  lemma {:induction false} FuelMonotone(code: seq<char>, i: nat, m: Machine, squares: nat, cfg: Config,
                                         mode: Mode, fuel: nat, more: nat)
    requires Valid(m) && fuel <= more
    requires Exec(code, i, m, squares, cfg, mode, fuel).outcome != OutOfFuel
    ensures Exec(code, i, m, squares, cfg, mode, more) == Exec(code, i, m, squares, cfg, mode, fuel)
    decreases fuel
  {
    if i < |code| && fuel > 0 {
      var t := Step(code, i, m, squares, cfg, mode);
      if t.control.Continue? {
        FuelMonotone(code, t.control.next, t.machine, t.control.squares, cfg, mode, fuel - 1, more - 1);
      }
    }
  }

  /** Two machines that agree on everything but what they have written. */
  predicate SameTape(a: Machine, b: Machine) {
    a.memory == b.memory && a.pointer == b.pointer &&
    a.maxPointerReached == b.maxPointerReached && a.input == b.input
  }

  lemma StepModesAgree(code: seq<char>, i: nat, a: Machine, b: Machine, sa: nat, sb: nat, cfg: Config)
    requires i < |code| && Valid(a) && Valid(b) && SameTape(a, b) && cfg.imageWidth != 0
    ensures var ta := Step(code, i, a, sa, cfg, Text);
            var tb := Step(code, i, b, sb, cfg, Image);
            SameTape(ta.machine, tb.machine) &&
            ta.control.Halt? == tb.control.Halt? &&
            (ta.control.Halt? ==> ta.control.error == tb.control.error) &&
            (ta.control.Continue? ==> ta.control.next == tb.control.next)
  {
  }

  /**
   * Text and image mode are one engine: with a nonzero image width they
   * end with the same outcome, tape, pointer, high mark and unread input.
   */
  lemma {:induction false} ModesAgree(code: seq<char>, i: nat, a: Machine, b: Machine, sa: nat, sb: nat,
                                       cfg: Config, fuel: nat)
    requires Valid(a) && Valid(b) && SameTape(a, b) && cfg.imageWidth != 0
    ensures var fa := Exec(code, i, a, sa, cfg, Text, fuel);
            var fb := Exec(code, i, b, sb, cfg, Image, fuel);
            fa.outcome == fb.outcome && SameTape(fa.machine, fb.machine)
    decreases fuel
  {
    if i < |code| && fuel > 0 {
      StepModesAgree(code, i, a, b, sa, sb, cfg);
      var ta := Step(code, i, a, sa, cfg, Text);
      var tb := Step(code, i, b, sb, cfg, Image);
      if ta.control.Continue? {
        ModesAgree(code, ta.control.next, ta.machine, tb.machine, ta.control.squares, tb.control.squares,
          cfg, fuel - 1);
      }
    }
  }

  /** `n` copies of `+` from index `i` add n - i to the current cell, modulo 256. */
  lemma {:induction false} PlusRun(n: nat, i: nat, m: Machine, squares: nat, cfg: Config, mode: Mode, fuel: nat)
    requires Valid(m) && i <= n && fuel >= n - i
    ensures Exec(seq(n, _ => '+'), i, m, squares, cfg, mode, fuel)
         == Final(Done, m.(memory := m.memory[m.pointer := IncTimes(m.memory[m.pointer], n - i)]))
    decreases n - i
  {
    var code := seq(n, _ => '+');
    if i < n {
      var m' := m.(memory := m.memory[m.pointer := Inc(m.memory[m.pointer])]);
      CellArithmeticStep(code, i, m, squares, cfg, mode);
      PlusRun(n, i + 1, m', squares, cfg, mode, fuel - 1);
      assert m'.memory[m.pointer := IncTimes(Inc(m.memory[m.pointer]), n - (i + 1))]
          == m.memory[m.pointer := IncTimes(m.memory[m.pointer], n - i)];
    } else {
      assert m.memory[m.pointer := m.memory[m.pointer]] == m.memory;
    }
  }

  /** `n` copies of `-` from index `i` subtract n - i from the current cell, modulo 256. */
  lemma {:induction false} MinusRun(n: nat, i: nat, m: Machine, squares: nat, cfg: Config, mode: Mode, fuel: nat)
    requires Valid(m) && i <= n && fuel >= n - i
    ensures Exec(seq(n, _ => '-'), i, m, squares, cfg, mode, fuel)
         == Final(Done, m.(memory := m.memory[m.pointer := DecTimes(m.memory[m.pointer], n - i)]))
    decreases n - i
  {
    var code := seq(n, _ => '-');
    if i < n {
      var m' := m.(memory := m.memory[m.pointer := Dec(m.memory[m.pointer])]);
      CellArithmeticStep(code, i, m, squares, cfg, mode);
      MinusRun(n, i + 1, m', squares, cfg, mode, fuel - 1);
      assert m'.memory[m.pointer := DecTimes(Dec(m.memory[m.pointer]), n - (i + 1))]
          == m.memory[m.pointer := DecTimes(m.memory[m.pointer], n - i)];
    } else {
      assert m.memory[m.pointer := m.memory[m.pointer]] == m.memory;
    }
  }

  /** A program of 256 `+` (or 256 `-`) ends with the machine exactly as it started. */
  lemma WrapAroundRestores(m: Machine, squares: nat, cfg: Config, mode: Mode, fuel: nat)
    requires Valid(m) && fuel >= 256
    ensures Exec(seq(256, _ => '+'), 0, m, squares, cfg, mode, fuel) == Final(Done, m)
    ensures Exec(seq(256, _ => '-'), 0, m, squares, cfg, mode, fuel) == Final(Done, m)
  {
    PlusRun(256, 0, m, squares, cfg, mode, fuel);
    MinusRun(256, 0, m, squares, cfg, mode, fuel);
    WrapRestores(m.memory[m.pointer], 256);
    assert m.memory[m.pointer := m.memory[m.pointer]] == m.memory;
  }

  /**
   * `n` copies of `>` from index `i`: the pointer moves right n - i times,
   * or, when that would leave the tape, stops on the last cell with
   * PointerOverflow.
   */
  lemma {:induction false} RightRun(n: nat, i: nat, m: Machine, squares: nat, cfg: Config, mode: Mode, fuel: nat)
    requires Valid(m) && i <= n && fuel >= n - i
    ensures var f := Exec(seq(n, _ => '>'), i, m, squares, cfg, mode, fuel);
      var last := |m.memory| - 1;
      if m.pointer + (n - i) <= last then
        f == Final(Done, MoveTo(m, m.pointer + (n - i)))
      else
        f == Final(Failed(PointerOverflow), m.(pointer := last, maxPointerReached := last))
    decreases n - i
  {
    var code := seq(n, _ => '>');
    if i < n {
      MoveRightStep(code, i, m, squares, cfg, mode);
      if m.pointer < |m.memory| - 1 {
        RightRun(n, i + 1, MoveTo(m, m.pointer + 1), squares, cfg, mode, fuel - 1);
      }
    }
  }

  /** From cell 0, memorySize copies of `>` fail with PointerOverflow on the last copy; one fewer succeed. */
  lemma OverflowOnLastMove(m: Machine, squares: nat, cfg: Config, mode: Mode, fuel: nat)
    requires Valid(m) && m.pointer == 0 && fuel >= |m.memory|
    ensures var last := |m.memory| - 1;
      Exec(seq(|m.memory|, _ => '>'), 0, m, squares, cfg, mode, fuel)
        == Final(Failed(PointerOverflow), m.(pointer := last, maxPointerReached := last)) &&
      Exec(seq(last, _ => '>'), 0, m, squares, cfg, mode, fuel)
        == Final(Done, m.(pointer := last, maxPointerReached := last))
  {
    RightRun(|m.memory|, 0, m, squares, cfg, mode, fuel);
    RightRun(|m.memory| - 1, 0, m, squares, cfg, mode, fuel);
  }

  /**
   * The image output of `n` further `.` over a cell of colour `c`, when
   * `count` squares have been drawn already.
   */
  function Squares(c: Colour, count: nat, n: nat, width: int): seq<Event>
    requires width != 0
    decreases n
  {
    if n == 0 then []
    else [Square(c)] + (if (count + 1) % width == 0 then [RowBreak] else []) + Squares(c, count + 1, n - 1, width)
  }

  /** `n` copies of `.` in image mode draw the squares of Squares and leave the tape alone. */
  lemma {:induction false} DotsRun(n: nat, i: nat, m: Machine, squares: nat, cfg: Config, fuel: nat)
    requires Valid(m) && i <= n && fuel >= n - i && cfg.imageWidth != 0
    ensures Exec(seq(n, _ => '.'), i, m, squares, cfg, Image, fuel)
         == Final(Done, m.(output := m.output + Squares(ColourOf(m.memory[m.pointer]), squares, n - i, cfg.imageWidth)))
    decreases n - i
  {
    var code := seq(n, _ => '.');
    var c := ColourOf(m.memory[m.pointer]);
    if i < n {
      var brk: seq<Event> := if (squares + 1) % cfg.imageWidth == 0 then [RowBreak] else [];
      var m' := m.(output := m.output + [Square(c)] + brk);
      ImageDotStep(code, i, m, squares, cfg);
      DotsRun(n, i + 1, m', squares + 1, cfg, fuel - 1);
      assert m'.output + Squares(c, squares + 1, n - (i + 1), cfg.imageWidth)
          == m.output + Squares(c, squares, n - i, cfg.imageWidth);
    } else {
      assert m.output + [] == m.output;
    }
  }

  lemma ModBelow(x: int, w: int)
    requires 0 <= x < w
    ensures x % w == x
  {
    assert x == 0 * w + x;
  }

  lemma ModOwn(w: int)
    requires w > 0
    ensures w % w == 0 && (w + 1) % w == (if w == 1 then 0 else 1)
  {
    assert w == 1 * w + 0;
    if w > 1 {
      assert w + 1 == 1 * w + 1;
    }
  }

  /** Before the row is full, squares come without breaks; the square that fills it is followed by one. */
  lemma {:induction false} RowOfSquares(c: Colour, count: nat, width: int)
    requires 0 <= count < width
    ensures Squares(c, count, width - count, width) == seq(width - count, _ => Square(c)) + [RowBreak]
    decreases width - count
  {
    var rest := Squares(c, count + 1, width - count - 1, width);
    if count + 1 < width {
      RowOfSquares(c, count + 1, width);
      ModBelow(count + 1, width);
      assert Squares(c, count, width - count, width) == [Square(c)] + rest;
      assert [Square(c)] + (seq(width - count - 1, _ => Square(c)) + [RowBreak])
          == seq(width - count, _ => Square(c)) + [RowBreak];
    } else {
      ModOwn(width);
      assert rest == [];
      assert Squares(c, count, width - count, width) == [Square(c)] + [RowBreak];
      assert seq(width - count, _ => Square(c)) == [Square(c)];
    }
  }

  lemma {:induction false} SquaresSplit(c: Colour, count: nat, n: nat, k: nat, width: int)
    requires width != 0 && k <= n
    ensures Squares(c, count, n, width) == Squares(c, count, k, width) + Squares(c, count + k, n - k, width)
    decreases k
  {
    if k > 0 {
      SquaresSplit(c, count + 1, n - 1, k - 1, width);
    }
  }

  /**
   * imageWidth + 1 copies of `.` on a fresh image: imageWidth squares, one
   * row break, one more square, and a second break only when the width is 1.
   */
  lemma FullRowThenOne(m: Machine, cfg: Config, fuel: nat)
    requires Valid(m) && cfg.imageWidth > 0 && fuel >= cfg.imageWidth + 1
    ensures var w: int := cfg.imageWidth;
      var c := ColourOf(m.memory[m.pointer]);
      Exec(seq(w + 1, _ => '.'), 0, m, 0, cfg, Image, fuel)
        == Final(Done, m.(output := m.output + seq(w, _ => Square(c)) + [RowBreak, Square(c)]
                                   + (if w == 1 then [RowBreak] else [])))
  {
    var w: int := cfg.imageWidth;
    var c := ColourOf(m.memory[m.pointer]);
    DotsRun(w + 1, 0, m, 0, cfg, fuel);
    SquaresSplit(c, 0, w + 1, w, w);
    RowOfSquares(c, 0, w);
    ModOwn(w);
    assert Squares(c, w, 1, w) == [Square(c)] + (if w == 1 then [RowBreak] else []);
  }
}
