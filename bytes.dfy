/**
 * Tape cells are Go `byte`s: unsigned 8-bit values whose `++` and `--`
 * wrap around instead of failing.
 */
module Bytes {
  type byte = x: int | 0 <= x < 256

  /** `memory[p]++` on a byte: 255 wraps to 0. */
  function Inc(v: byte): byte { (v + 1) % 256 }

  /** `memory[p]--` on a byte: 0 wraps to 255. */
  function Dec(v: byte): byte { (v - 1) % 256 }

  /** `+` applied `n` times to a cell holding `v`. */
  function IncTimes(v: byte, n: nat): byte
    decreases n
  {
    if n == 0 then v else IncTimes(Inc(v), n - 1)
  }

  /** `-` applied `n` times to a cell holding `v`. */
  function DecTimes(v: byte, n: nat): byte
    decreases n
  {
    if n == 0 then v else DecTimes(Dec(v), n - 1)
  }

  /** Increment and decrement undo each other, across the wrap point too. */
  lemma IncDecInverse(v: byte)
    ensures Dec(Inc(v)) == v && Inc(Dec(v)) == v
    ensures Inc(255) == 0 && Dec(0) == 255
  {
  }

  /** `n` increments add `n` modulo 256. */
  lemma {:induction false} IncTimesAdds(v: byte, n: nat)
    ensures IncTimes(v, n) == (v + n) % 256
    decreases n
  {
    if n > 0 {
      IncTimesAdds(Inc(v), n - 1);
      if v == 255 {
        assert (v + n) % 256 == (n - 1) % 256;
      }
    }
  }

  /** `n` decrements subtract `n` modulo 256. */
  lemma {:induction false} DecTimesSubtracts(v: byte, n: nat)
    ensures DecTimes(v, n) == (v - n) % 256
    decreases n
  {
    if n > 0 {
      DecTimesSubtracts(Dec(v), n - 1);
      if v == 0 {
        assert (v - n) % 256 == (255 - (n - 1)) % 256;
      }
    }
  }

  /** Shifting by whole turns of 256 leaves the residue of a byte alone. */
  lemma {:induction false} WholeTurns(v: byte, q: nat)
    ensures (v + 256 * q) % 256 == v && (v - 256 * q) % 256 == v
    decreases q
  {
    if q > 0 {
      WholeTurns(v, q - 1);
      assert v + 256 * q == (v + 256 * (q - 1)) + 256;
      assert v - 256 * q == (v - 256 * (q - 1)) - 256;
    }
  }

  /** Any multiple of 256 increments, or of 256 decrements, restores the cell. */
  lemma WrapRestores(v: byte, n: nat)
    requires n % 256 == 0
    ensures IncTimes(v, n) == v && DecTimes(v, n) == v
  {
    IncTimesAdds(v, n);
    DecTimesSubtracts(v, n);
    WholeTurns(v, n / 256);
  }
}
