/**
 * How the command line tells a program file from a literal program: the
 * two predicates main uses before it reads or runs anything.
 */
module Source {
  import Engine

  /** A literal program: its first character is one of the nine listed commands (`@` is not one). */
  predicate IsBrainfuckCommand(input: string) {
    if |input| == 0 then false
    else input[0] in {'+', '-', '[', ']', '.', ',', '>', '<', '#'}
  }

  /** Go's strings.HasSuffix. */
  predicate HasSuffix(s: string, suffix: string) {
    |s| >= |suffix| && s[|s| - |suffix|..] == suffix
  }

  /** A program file: longer than 3 characters and ending in `.bf`. */
  predicate IsBrainfuckFile(filename: string) {
    |filename| > 3 && HasSuffix(filename, ".bf")
  }

  /**
   * A literal program starts with an instruction the engine acts on, and
   * with any of them except `@`.
   */
  lemma CommandStartsWithInstruction(input: string)
    ensures IsBrainfuckCommand(input) <==> |input| > 0 && Engine.IsInstruction(input[0]) && input[0] != '@'
  {
  }

  /** A program starting with `@` is an instruction for the engine but is not accepted as a literal program. */
  lemma SnapshotFirstRejected(input: string)
    requires |input| > 0 && input[0] == '@'
    ensures Engine.IsInstruction(input[0]) && !IsBrainfuckCommand(input)
  {
  }

  /** The file names accepted are exactly a non-empty stem followed by `.bf`. */
  lemma FileNameShape(filename: string)
    ensures IsBrainfuckFile(filename) <==> exists stem: string :: |stem| > 0 && filename == stem + ".bf"
  {
    if IsBrainfuckFile(filename) {
      var stem := filename[..|filename| - 3];
      assert filename == stem + ".bf";
    }
    if exists stem: string :: |stem| > 0 && filename == stem + ".bf" {
      var stem: string :| |stem| > 0 && filename == stem + ".bf";
      assert filename[|filename| - 3..] == ".bf";
    }
  }

  /** `.bf` itself names no file: the stem must be non-empty. */
  lemma BareSuffixRejected()
    ensures !IsBrainfuckFile(".bf") && IsBrainfuckFile("a.bf") && !IsBrainfuckFile("a.b")
  {
  }
}
