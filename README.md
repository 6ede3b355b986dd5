# A verified model of a Brainfuck interpreter

This project models the `BrainfuckInterpreter` of the Go program in
`src/test/main.test.go`. The interpreter has a fixed-size byte tape with a
movable pointer and keeps the highest pointer value reached. Its dispatch
loop runs the eight Brainfuck commands plus two diagnostics: `#` prints a
debug report and `@` prints a memory snapshot. Brackets are matched lazily,
by counting nesting depth forward or backward at the moment a jump is
taken. Text mode writes each `.` as a character. Image mode draws each `.`
as a coloured square and breaks the row after every `imageWidth` squares.

The model has these layers:

- `Bytes`: the byte cell and its wrap-around `++` and `--`.
- `GoInt`: Go's 64-bit `int`. The image width and the snapshot offsets are
  of this type, and the snapshot window's `pointer - startX` and
  `pointer + endX` wrap around as Go's do.
- `Scanner`: the two bracket scans, first as recursive functions, then as
  the source's loops. They are characterised by nesting depth and proved
  inverse to each other.
- `Render`: the colour-bucket choice of `drawColoredSquare`.
- `Diagnostics`: the data that `#` and `@` print. This is the memory usage
  count, the snapshot window and its rows.
- `Engine`: the interpreter's state as a value (`Machine`). `Step` is one
  pass of the loop body. `Exec` is the loop, bounded by a step count
  (fuel). `Run` and `RunImage` are one engine with a `Mode` parameter.
- `Interpreter`: the struct as a class. The tape is an `array` that is
  updated in place. `Dispatch` and `Run` are proved to compute exactly
  `Step` and `Exec`.
- `Properties`, `Runs`, `Scenarios`: lemmas about single steps, whole
  runs and small programs.
- `Source`: the two predicates that decide whether the command-line
  argument is a file name or a literal program.

These facts hold throughout a run: `0 <= pointer <= maxPointerReached <
len(memory)`, and every cell above `maxPointerReached` is 0 (`Engine.Valid`).

Outcomes: a run ends `Done`, `Failed(e)` or `OutOfFuel`. The errors the
source returns are `PointerOverflow`, `PointerUnderflow`, `MissingClose`,
`MissingOpen` and `InputFailure`. `DivideByZero` is not a returned error. It
stands for the Go runtime panic that `squareCount % imageWidth` raises when
the width is 0. That panic comes after the square has been drawn, and the
model does the same.

Input is a byte sequence. `,` consumes the first byte. An empty sequence is
a read failure. Output is a sequence of events: `Char`, `Square`,
`RowBreak`, `DebugReport` and `MemorySnapshot`.

## Model

| member | source | states |
|---|---|---|
| Bytes.IncDecInverse | src/test/main.test.go:181-184 | `+` and `-` undo each other on every byte; 255 wraps to 0 and 0 to 255 |
| Bytes.IncTimesAdds | src/test/main.test.go:181-182 | n increments of a cell add n modulo 256 |
| Bytes.DecTimesSubtracts | src/test/main.test.go:183-184 | n decrements of a cell subtract n modulo 256 |
| Bytes.WrapRestores | src/test/main.test.go:181-184 | any multiple of 256 increments, or of 256 decrements, restores the cell |
| GoInt.Wrap | src/test/main.test.go:135-136 | the machine result of a 64-bit addition or subtraction: the exact value when it fits, one turn of 2^64 less when it overflows upward, one turn more when it overflows downward |
| GoInt.WrapSum | src/test/main.test.go:135-136 | a sum or difference of two 64-bit operands past the largest `int` wraps to a negative value |
| Scanner.ScanForward | src/test/main.test.go:200-208 | the forward loop from depth d stops at the first later index where the depth reaches 0, with the depth positive before it; it returns None only if the depth stays positive up to the last index |
| Scanner.ScanBackward | src/test/main.test.go:215-223 | the backward loop (`]` adds one, `[` takes one) stops at the first earlier index where the depth reaches 0; it returns None only if the depth stays positive down to index 0 |
| Scanner.MatchingClose | src/test/main.test.go:198-211 | the forward scan from `[` returns j exactly when j is where the depth first reaches 0 (so j is unique); that index holds `]`; "missing ']'" occurs exactly when the depth stays positive to the end |
| Scanner.MatchingOpen | src/test/main.test.go:213-226 | the backward scan from `]` returns i exactly when i is where the backward depth first reaches 0; that index holds `[`; "missing '['" occurs exactly when the depth stays positive down to index 0 |
| Scanner.ClosesIffOpens | src/test/main.test.go:198-227 | between a `[` at i and a `]` at j: forward matching from i ends at j if and only if backward matching from j ends at i |
| Scanner.ScansRoundTrip | src/test/main.test.go:198-227 | the `[` at i jumps forward to j if and only if j holds `]` and the backward scan from j jumps back to i |
| Scanner.SeekClose | src/test/main.test.go:199-211 | the source's forward depth-counting loop returns the match that MatchingClose characterises, or no match |
| Scanner.SeekOpen | src/test/main.test.go:214-226 | the source's backward depth-counting loop returns the match that MatchingOpen characterises, or no match |
| Render.ColourOf | src/test/main.test.go:310-327 | the threshold cascade puts a value in colour bucket value / 32 |
| Render.ColourMonotone | src/test/main.test.go:310-327 | a larger value never gets an earlier bucket |
| Render.SameColourSameBucket | src/test/main.test.go:310-327 | two values get the same colour if and only if they are in the same bucket of 32 |
| Render.EveryColourUsed | src/test/main.test.go:310-327 | each of the eight colours is the colour of its own bucket, so the eight are distinct and all used |
| Diagnostics.CountNonZero | src/test/main.test.go:69-74 | the count is at most the length, and it is 0 if and only if every cell is 0 |
| Diagnostics.CountZeroTail | src/test/main.test.go:68-78 | zero cells after a prefix leave the count unchanged |
| Diagnostics.ReportCountsWholeTape | src/test/main.test.go:82-124 | under the tape invariant the debug report's count over 0..maxPointerReached equals the count over the whole tape; count <= highest address used <= memory size; the printable flag is exactly 32..126 |
| Diagnostics.WindowBounds | src/test/main.test.go:135-139 | with non-negative offsets and no 64-bit overflow of pointer + endX, the window [max(pointer - startX, 0), min(pointer + endX, len - 1)] lies in the tape and contains the pointer |
| Diagnostics.WindowShape | src/test/main.test.go:141-161 | under the same conditions the snapshot lists every index of the window once, in order, with its value and printable flag; exactly the row at the pointer is highlighted |
| Diagnostics.WindowOverflow | src/test/main.test.go:135-141 | when pointer + endX overflows a Go `int` the end wraps negative and `@` lists no rows; when pointer - startX overflows, the start wraps negative and is raised to 0; without overflow both offsets act as written, with the clipping of lines 137-139 |
| Diagnostics.WindowInBounds | src/test/main.test.go:135-141 | with any offsets, including negative ones, the snapshot reads only indices inside the tape |
| Engine.Step | src/test/main.test.go:166-228 | one pass of the loop body keeps the tape invariant; it writes no cell except the current one; it never lowers maxPointerReached; it only appends output; it continues at an index no greater than len(code) |
| Engine.Exec | src/test/main.test.go:165-231 | a whole run keeps the tape invariant and the tape size, never lowers maxPointerReached, and never takes output back, including on failure |
| Interpreter.BrainfuckInterpreter.constructor | src/test/main.test.go:56-66 | NewInterpreter starts with a zeroed tape of memSize cells, pointer and high mark 0 and no output; the tape invariant holds |
| Interpreter.BrainfuckInterpreter.CalculateMemoryUsage | src/test/main.test.go:68-78 | returns the nonzero count over 0..maxPointerReached, which also equals the count over the whole tape, and maxPointerReached + 1; it changes nothing |
| Interpreter.BrainfuckInterpreter.PrintDebugInfo | src/test/main.test.go:81-126 | appends the report (pointer, value, printable flag, nonzero count, highest address, tape size); it may change only the output |
| Interpreter.BrainfuckInterpreter.PrintMemorySnapshot | src/test/main.test.go:128-163 | appends the rows of the window, in order; it may change only the output |
| Interpreter.BrainfuckInterpreter.DrawColoredSquare | src/test/main.test.go:307-332 | appends one square in the colour of the value's bucket |
| Interpreter.BrainfuckInterpreter.Dispatch | src/test/main.test.go:236-302 | the in-place switch on the object computes the state and the next move that Step gives for the old state |
| Interpreter.BrainfuckInterpreter.Run | src/test/main.test.go:165-231 | Run (text mode) and RunImage (image mode) as one loop: the outcome and final object state are those of Exec from the old state, and the tape invariant is kept |
| Properties.MoveRightStep | src/test/main.test.go:168-175 | `>` fails with PointerOverflow exactly when pointer >= len - 1, and then changes nothing; otherwise the pointer moves right by one and the high mark becomes max(old, pointer) |
| Properties.MoveLeftStep | src/test/main.test.go:176-180 | `<` fails with PointerUnderflow exactly when pointer <= 0, and then changes nothing; otherwise the pointer moves left by one |
| Properties.CellArithmeticStep | src/test/main.test.go:181-184 | `+` and `-` change only the current cell, by +1 or -1 modulo 256 |
| Properties.ReadStep | src/test/main.test.go:187-193 | `,` stores the next input byte and consumes it; with no input it fails with InputFailure and changes nothing |
| Properties.NoOpStep | src/test/main.test.go:166-228 | a character outside `><+-.,[]#@` changes nothing and moves on to the next index |
| Properties.OpenBracketStep | src/test/main.test.go:198-212 | `[` over a nonzero cell is a no-op; over a zero cell it jumps past j exactly when the depth first reaches 0 at j, and fails with "missing ']'" exactly when the depth stays positive; the tape is untouched |
| Properties.CloseBracketStep | src/test/main.test.go:213-227 | `]` over a zero cell is a no-op even with no `[` to match; over a nonzero cell it goes on just after i exactly when the backward depth first reaches 0 at i, and fails with "missing '['" exactly when it stays positive |
| Properties.ImageDotStep | src/test/main.test.go:254-260 | image-mode `.` draws one square in bucket value / 32 and the count goes up by one; a row break follows exactly when the new count is a multiple of the width |
| Properties.TextDotStep | src/test/main.test.go:185-186 | text-mode `.` writes the current byte and changes nothing else |
| Properties.DiagnosticsReadOnly | src/test/main.test.go:194-197 | `#` and `@` only append a report computed from the tape; tape, pointer, high mark and input are unchanged |
| Runs.FuelMonotone | src/test/main.test.go:165-231 | the step bound only cuts runs short: a run that ends within some bound ends the same way with any larger bound |
| Runs.StepModesAgree | src/test/main.test.go:233-305 | one step in text mode and in image mode (width not 0) gives the same tape, pointer, high mark, input and control, whatever each has written |
| Runs.ModesAgree | src/test/main.test.go:233-305 | with a nonzero width, Run and RunImage end with the same outcome and the same tape, pointer, high mark and unread input |
| Runs.PlusRun | src/test/main.test.go:181-182 | a program of n `+` ends normally, having added n modulo 256 to the current cell and changed nothing else |
| Runs.MinusRun | src/test/main.test.go:183-184 | a program of n `-` ends normally, having subtracted n modulo 256 from the current cell and changed nothing else |
| Runs.WrapAroundRestores | src/test/main.test.go:181-184 | 256 `+`, or 256 `-`, end with the machine exactly as it started |
| Runs.RightRun | src/test/main.test.go:168-175 | n `>` move the pointer right n times; if that would leave the tape, the run stops on the last cell with PointerOverflow |
| Runs.OverflowOnLastMove | src/test/main.test.go:168-171 | from cell 0, memorySize `>` fail with PointerOverflow on the last one; memorySize - 1 of them succeed |
| Runs.DotsRun | src/test/main.test.go:254-260 | n image-mode `.` draw n squares of the cell's colour, with a break after each square whose count is a multiple of the width; the tape is untouched |
| Runs.RowOfSquares | src/test/main.test.go:257-259 | the squares up to the width-th have no break between them, and one break follows the width-th |
| Runs.FullRowThenOne | src/test/main.test.go:254-260 | imageWidth + 1 `.` from the start of a RunImage give imageWidth squares, a break, then one square; a second break follows only when the width is 1 |
| Scenarios.PrintsFour | src/test/main.test.go:181-186 | `++++.` over a zero cell writes the single byte 4 and leaves 4 in the cell |
| Scenarios.LoneOpen | src/test/main.test.go:198-211 | `[` alone fails with "missing ']'" over a zero cell; over a nonzero cell the run ends without error |
| Scenarios.StrayClose | src/test/main.test.go:213-227 | `]` alone ends without error over a zero cell and fails with "missing '['" otherwise |
| Scenarios.ClearBody | src/test/main.test.go:181-227 | the loop body `-]` over a nonzero cell v takes one off per round and jumps back to the `-` until the cell is 0, then ends normally with only that cell changed |
| Scenarios.ClearLoop | src/test/main.test.go:181-227 | `+[-]` ends normally with the current cell 0 and nothing else changed, whatever the cell held: from 255 the `+` wraps it to 0 and the `[` skips the loop; otherwise the loop runs until the cell is 0 |
| Scenarios.ReportTwice | src/test/main.test.go:194-195 | `##` writes the same debug report twice |
| Scenarios.SnapshotTwice | src/test/main.test.go:196-197 | `@@` writes the same snapshot twice |
| Scenarios.SeekZero | src/test/main.test.go:198-227 | `[>]` moves the pointer to the first zero cell at or after it, with the cells unchanged |
| Source.CommandStartsWithInstruction | src/test/main.test.go:334-345 | an argument counts as a literal program if and only if it starts with one of the engine's instructions other than `@` |
| Source.SnapshotFirstRejected | src/test/main.test.go:339-343 | a program starting with `@` is not taken as a literal program, although the engine runs `@` |
| Source.FileNameShape | src/test/main.test.go:347-349 | a name counts as a program file if and only if it is a non-empty stem followed by `.bf` |
| Source.BareSuffixRejected | src/test/main.test.go:347-349 | `.bf` alone and `a.b` are rejected; `a.bf` is accepted |

## Left out

- `main` is not modelled (src/test/main.test.go:351-458). It does flag parsing, prints the help text, runs the `-proc` development branch, reads the file, prints the error and calls `os.Exit`. All of this is command-line and I/O work.
- Terminal colours (`color.Set`/`color.Unset`) and the exact printed text of `#` and `@` are not modelled. This includes the zero padding of indices below 10. A report is modelled as the data it prints.
- The memory-usage percentage of `#` is not modelled, because it is floating point. The report keeps both of its inputs: the highest address used and the memory size.
- The `nonZeroCells` map is not modelled. It is allocated but never read or written.
- The `io.Reader` quirks of `,` are not modelled, such as a read of 0 bytes with no error, or data returned together with an error. Input is "next byte or failure".
- Text-mode `.` is recorded as the byte value. Go's `%c` writes the code point with that value, so values 128..255 come out as two UTF-8 bytes.
- Program text is a sequence of characters, not of bytes. Decisions, bracket depths and error conditions are the same for both. Only the index count differs for non-ASCII text.
- Interpreter.BrainfuckInterpreter.constructor: requires a positive memory size. The Go code panics for a negative size. With size 0, every cell access panics with index out of range. Neither panic is modelled.
- Interpreter.BrainfuckInterpreter.Run: takes a step bound (fuel) and ends `OutOfFuel` when the bound runs out. A program that never halts, such as `+[]`, is described only up to that bound. Runs.FuelMonotone shows the bound changes nothing else.
- The pointer, the high mark and the square counter are unbounded integers. In Go they are `int`s, but none of them can pass the largest `int`: the pointer is below `len(memory)`, and the counter would need 2^63 squares.
- A negative `imageWidth` is handled as Go does. Go's truncating `%` and Dafny's Euclidean `%` give zero for the same counts.
