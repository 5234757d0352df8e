/**
 * The puzzle model of src/nonogram.py: a grid shape, a colour palette and one
 * clue (a sequence of blocks) per row and per column.
 */
module Puzzle {
  import opened Wrappers

  /** One clue entry: a run of `len` cells painted with colour `color`. */
  datatype Block = Block(len: int, color: string)

  type Clue = seq<Block>

  /**
   * The fields of a parsed `Nonogram`. `height` and `width` are whatever
   * Python's int() produced (possibly negative); `colors[0]` is the
   * background and `colors[1..]` are the paintable colours.
   */
  datatype Nonogram = Nonogram(
    gridType: Option<string>,
    height: int,
    width: int,
    colors: seq<string>,
    rowClues: seq<Clue>,
    colClues: seq<Clue>)

  /** The number of values Python's range(n) yields. */
  function Dim(n: int): nat
  {
    if n < 0 then 0 else n
  }

  /** The number of paintable colours, len(colors[1:]). */
  function Paintable(colors: seq<string>): nat
  {
    if |colors| == 0 then 0 else |colors| - 1
  }
}
