/**
 * Image-mode rendering of `.`: the cell value picks one of eight background
 * colours (drawColoredSquare), in buckets of 32 consecutive values.
 */
module Render {
  import opened Bytes

  datatype Colour = HiBlack | Red | Green | Yellow | Blue | Magenta | Cyan | HiWhite

  /** Position of a colour in the bucket order. */
  function Rank(c: Colour): nat {
    match c
    case HiBlack => 0
    case Red => 1
    case Green => 2
    case Yellow => 3
    case Blue => 4
    case Magenta => 5
    case Cyan => 6
    case HiWhite => 7
  }

  /** The threshold cascade of drawColoredSquare. */
  function ColourOf(value: byte): (c: Colour)
    ensures Rank(c) == value / 32
  {
    if value < 32 then HiBlack
    else if value < 64 then Red
    else if value < 96 then Green
    else if value < 128 then Yellow
    else if value < 160 then Blue
    else if value < 192 then Magenta
    else if value < 224 then Cyan
    else HiWhite
  }

  /** Brighter cells never get an earlier colour. */
  lemma ColourMonotone(v: byte, w: byte)
    requires v <= w
    ensures Rank(ColourOf(v)) <= Rank(ColourOf(w))
  {
  }

  /** Two values share a colour exactly when they share a bucket of 32. */
  lemma SameColourSameBucket(v: byte, w: byte)
    ensures ColourOf(v) == ColourOf(w) <==> v / 32 == w / 32
  {
    if v / 32 == w / 32 {
      RankInjective(ColourOf(v), ColourOf(w));
    }
  }

  lemma RankInjective(c: Colour, d: Colour)
    requires Rank(c) == Rank(d)
    ensures c == d
  {
  }

  /** All eight colours are used: the bucket starting at 32 * Rank(c) gets c. */
  lemma EveryColourUsed(c: Colour)
    ensures Rank(c) < 8 && ColourOf(32 * Rank(c)) == c
  {
    RankInjective(ColourOf(32 * Rank(c)), c);
  }
}
