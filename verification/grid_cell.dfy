/**
 The cell record of the flag-victory engine (cell.py): a mine bit, a reveal
 bit, a boolean flag and the stored neighbour count, with its two state
 changes. Drawing and image handles belong to the presentation and are not
 part of the record.
 */
module GridCell {

  datatype Cell = Cell(mined: bool, revealed: bool, flagged: bool, minesAround: int)

  /** A freshly constructed cell. */
  const Fresh := Cell(false, false, false, 0)

  /** `toggle_flags`: flips the flag of a hidden cell; a revealed cell keeps its flag. */
  function ToggleFlags(c: Cell): (r: Cell)
    ensures r.mined == c.mined && r.revealed == c.revealed && r.minesAround == c.minesAround
    ensures r.flagged != c.flagged <==> !c.revealed
  {
    if c.revealed then c else c.(flagged := !c.flagged)
  }

  /** What `reveal` leaves behind: the updated cell and whether it reported a mine. */
  datatype Revealed = Revealed(cell: Cell, hit: bool)

  /** `reveal`: a flagged cell refuses and reports no mine; any other cell is uncovered and reports its mine bit. */
  function Reveal(c: Cell): (r: Revealed)
    ensures r.cell.mined == c.mined && r.cell.flagged == c.flagged && r.cell.minesAround == c.minesAround
    ensures c.flagged ==> r.cell == c && !r.hit
    ensures !c.flagged ==> r.cell.revealed && r.hit == c.mined
  {
    if !c.flagged then Revealed(c.(revealed := true), c.mined) else Revealed(c, false)
  }

  /** Flipping twice restores the cell. */
  lemma ToggleFlagsTwice(c: Cell)
    ensures ToggleFlags(ToggleFlags(c)) == c
  {
  }

  /** Revealing again changes nothing and repeats the report. */
  lemma RevealIdempotent(c: Cell)
    ensures Reveal(Reveal(c).cell) == Reveal(c)
  {
  }
}
