/**
 The player-facing operations of the flag-victory engine (grid.py):
 `reveal_cell` with its lazy mine laying, the chord `reveal_adjacent` it
 starts when the flags around a numbered cell match its count, the
 neighbour list of `get_adjacent_cells` and the `check_victory` scan.

 `recursive_reveal` is the guarded flood fill `Grid.FloodFill`; the
 unguarded one as written diverges (see `Grid.RecursiveRevealDiverges`).
 */
module GridPlay {
  import opened Neighbourhood
  import opened GridCell
  import opened Grid

  // ---------------------------------------------------------------- reveal_cell and reveal_adjacent

  /**
   The rest of `reveal_cell` once `cells[x][y].reveal()` has run on `g` and
   reported `hit`: a hit ends the call, a zero count floods, and a count
   the flags around match chords.
   */
  function Follow(g: Grid, p: Pos, hit: bool): (r: (Grid, bool))
    requires Valid(g) && g.minesPlaced && p in g.cells
    ensures Valid(r.0) && Uncovers(g, r.0) && FlagsUntouched(g, r.0) && r.1 == hit
    decreases |Hidden(g.cells)|, 3
  {
    if hit then (g, true)
    else if g.cells[p].minesAround == 0 then (FloodFill(g, p), false)
    else if g.cells[p].minesAround == CountFlagsAround(g, p.x, p.y) then (Chord(g, p), false)
    else (g, false)
  }

  /**
   `reveal_adjacent`: each hidden, unflagged cell of the window is flooded
   (when its count is zero) and then revealed through `reveal_cell`, which
   may chord on from it; a mine among them does not stop the loop.
   */
  function Chord(g: Grid, p: Pos): (r: Grid)
    requires Valid(g) && g.minesPlaced
    ensures Valid(r) && Uncovers(g, r) && FlagsUntouched(g, r)
    decreases |Hidden(g.cells)|, 2
  {
    ChordFrom(g, Window(g.rows, g.columns, p.x, p.y), 0)
  }

  /** The loop of `reveal_adjacent` from the `i`-th cell of the window on. */
  function ChordFrom(g: Grid, ps: seq<Pos>, i: nat): (r: Grid)
    requires Valid(g) && g.minesPlaced && i <= |ps| && forall n :: n in ps ==> n in g.cells
    ensures Valid(r) && Uncovers(g, r) && FlagsUntouched(g, r)
    decreases |Hidden(g.cells)|, 1, |ps| - i
  {
    if i == |ps| then g
    else
      var n := ps[i];
      if !g.cells[n].revealed && !g.cells[n].flagged then
        var g2 := ChordStep(g, n);
        var r := ChordFrom(g2, ps, i + 1);
        UncoversTrans(g, g2, r);
        FlagsUntouchedTrans(g, g2, r);
        r
      else ChordFrom(g, ps, i + 1)
  }

  /**
   One iteration of the chord on the hidden, unflagged `n`: flood from it
   when its count is zero, then `reveal_cell` on it, whose answer becomes
   `recursive_game_over`. The cell ends revealed, so the step always
   makes progress.
   */
  function ChordStep(g: Grid, n: Pos): (r: Grid)
    requires Valid(g) && g.minesPlaced && n in g.cells && !g.cells[n].revealed && !g.cells[n].flagged
    ensures Valid(r) && Uncovers(g, r) && FlagsUntouched(g, r) && r.cells[n].revealed
    ensures |Hidden(r.cells)| < |Hidden(g.cells)|
    ensures r.recursiveGameOver == g.cells[n].mined
    decreases |Hidden(g.cells)|, 0
  {
    var g0 := if g.cells[n].minesAround == 0 then FloodFill(g, n) else g;
    ChordReveals(g, g0, n);
    var g1 := RevealAt(g0, n);
    var f := Follow(g1, n, Reveal(g0.cells[n]).hit);
    UncoversValid(g1, f.0);
    var r := f.0.(recursiveGameOver := f.1);
    UncoversTrans(g, g1, r);
    FlagsUntouchedTrans(g, g1, r);
    r
  }

  /**
   Revealing the hidden, unflagged `n` after an optional flood `g0` only
   uncovers cells, keeps the flags, and leaves strictly fewer hidden cells.
   */
  lemma ChordReveals(g: Grid, g0: Grid, n: Pos)
    requires Valid(g) && n in g.cells && !g.cells[n].revealed && !g.cells[n].flagged
    requires Valid(g0) && Uncovers(g, g0) && FlagsUntouched(g, g0)
    ensures var g1 := RevealAt(g0, n);
      && Uncovers(g, g1) && FlagsUntouched(g, g1) && g1.cells[n].revealed
      && |Hidden(g1.cells)| < |Hidden(g.cells)|
  {
    var g1 := RevealAt(g0, n);
    RevealAtSpec(g0, n);
    UncoversTrans(g, g0, g1);
    FlagsUntouchedTrans(g, g0, g1);
    UncoversFewer(g, g1, n);
  }

  /**
   A chord reveals every unflagged cell of the window (the centre
   included), mines among them, and carries on past a mine: nothing in the
   loop stops once a mine is hit.
   */
  lemma ChordSweeps(g: Grid, p: Pos)
    requires Valid(g) && g.minesPlaced
    ensures forall n :: n in Window(g.rows, g.columns, p.x, p.y) && !g.cells[n].flagged ==> Chord(g, p).cells[n].revealed
  {
    var ps := Window(g.rows, g.columns, p.x, p.y);
    assert ps[0..] == ps;
    ChordFromSweeps(g, ps, 0);
  }

  lemma {:induction false} ChordFromSweeps(g: Grid, ps: seq<Pos>, i: nat)
    requires Valid(g) && g.minesPlaced && i <= |ps| && forall n :: n in ps ==> n in g.cells
    ensures forall n :: n in ps[i..] && !g.cells[n].flagged ==> ChordFrom(g, ps, i).cells[n].revealed
    decreases |ps| - i
  {
    if i < |ps| {
      var n := ps[i];
      var c := g.cells[n];
      assert ps[i..] == [n] + ps[i + 1..];
      if !c.revealed && !c.flagged {
        ChordFromSweeps(ChordStep(g, n), ps, i + 1);
      } else {
        ChordFromSweeps(g, ps, i + 1);
      }
    }
  }

  /**
   `reveal_cell(x, y)`, answering whether it hit a mine: the first call
   lays the mines away from `(x, y)`; then the cell is revealed and the
   flood or the chord runs from it.
   */
  function RevealCell(g: Grid, p: Pos, mines: set<Pos>): (r: (Grid, bool))
    requires Valid(g) && p in g.cells
    requires !g.minesPlaced ==> IsPlacement(g, p.x, p.y, mines)
    ensures Valid(r.0) && r.0.minesPlaced && r.0.cells.Keys == g.cells.Keys
  {
    var a := Armed(g, p, mines);
    Follow(RevealAt(a, p), p, Reveal(a.cells[p]).hit)
  }

  /** The cell `reveal_cell` works on after the mines are down; its bits are those of the result too. */
  lemma RevealCellSteps(g: Grid, p: Pos, mines: set<Pos>)
    requires Valid(g) && p in g.cells
    requires !g.minesPlaced ==> IsPlacement(g, p.x, p.y, mines)
    ensures var a := Armed(g, p, mines); var r := RevealCell(g, p, mines);
      && Uncovers(a, r.0) && FlagsUntouched(a, r.0)
      && r.1 == (!a.cells[p].flagged && a.cells[p].mined)
      && (!a.cells[p].flagged ==> r.0.cells[p].revealed)
  {
    var a := Armed(g, p, mines);
    RevealAtSpec(a, p);
    var g1 := RevealAt(a, p);
    var f := Follow(g1, p, Reveal(a.cells[p]).hit);
    UncoversTrans(a, g1, f.0);
    FlagsUntouchedTrans(a, g1, f.0);
  }

  /** `reveal_cell` reports a mine exactly when the cell is an unflagged mine. */
  lemma RevealCellHit(g: Grid, p: Pos, mines: set<Pos>)
    requires Valid(g) && p in g.cells
    requires !g.minesPlaced ==> IsPlacement(g, p.x, p.y, mines)
    ensures var r := RevealCell(g, p, mines); r.1 <==> !g.cells[p].flagged && r.0.cells[p].mined
  {
    RevealCellSteps(g, p, mines);
    ArmedKeeps(g, p, mines);
  }

  /** The first `reveal_cell` never reports a mine: none lies within distance one of the click. */
  lemma RevealCellFirstSafe(g: Grid, p: Pos, mines: set<Pos>)
    requires Valid(g) && p in g.cells && !g.minesPlaced && IsPlacement(g, p.x, p.y, mines)
    ensures !RevealCell(g, p, mines).1
  {
    RevealCellSteps(g, p, mines);
    ArmedLays(g, p, mines);
    ArmedSafeZone(g, p, mines);
  }

  /** The first call lays the chosen mines; every later call keeps the layout. */
  lemma RevealCellLayout(g: Grid, p: Pos, mines: set<Pos>)
    requires Valid(g) && p in g.cells
    requires !g.minesPlaced ==> IsPlacement(g, p.x, p.y, mines)
    ensures Mines(RevealCell(g, p, mines).0.cells) == if g.minesPlaced then Mines(g.cells) else mines
  {
    RevealCellSteps(g, p, mines);
    UncoversValid(Armed(g, p, mines), RevealCell(g, p, mines).0);
    if g.minesPlaced {
      ArmedKeepsLayout(g, p, mines);
    } else {
      ArmedLays(g, p, mines);
    }
  }

  /**
   `reveal_cell` only uncovers: revealed cells stay revealed, the flags
   stay where they are, a flagged cell stays as hidden or revealed as it
   was, and an unflagged clicked cell ends revealed.
   */
  lemma RevealCellUncovers(g: Grid, p: Pos, mines: set<Pos>)
    requires Valid(g) && p in g.cells
    requires !g.minesPlaced ==> IsPlacement(g, p.x, p.y, mines)
    ensures var r := RevealCell(g, p, mines);
      && Flags(r.0.cells) == Flags(g.cells)
      && (forall q :: q in g.cells && g.cells[q].revealed ==> r.0.cells[q].revealed)
      && (forall q :: q in g.cells && g.cells[q].flagged ==> r.0.cells[q].revealed == g.cells[q].revealed)
      && (!g.cells[p].flagged ==> r.0.cells[p].revealed)
  {
    RevealCellSteps(g, p, mines);
    ArmedKeeps(g, p, mines);
    UncoversValid(Armed(g, p, mines), RevealCell(g, p, mines).0);
  }

  /** A hit stops at once: the clicked cell is the only one uncovered. */
  lemma RevealCellStopsOnHit(g: Grid, p: Pos, mines: set<Pos>)
    requires Valid(g) && p in g.cells
    requires !g.minesPlaced ==> IsPlacement(g, p.x, p.y, mines)
    ensures var r := RevealCell(g, p, mines); r.1 ==> Hidden(r.0.cells) == Hidden(g.cells) - {p}
  {
    var a := Armed(g, p, mines);
    ArmedKeeps(g, p, mines);
    RevealAtSpec(a, p);
  }

  /**
   Without a hit, a zero count floods the window of the clicked cell
   closed, and a nonzero count that the flags around match chords: every
   unflagged cell of the window ends revealed.
   */
  lemma RevealCellSpreads(g: Grid, p: Pos, mines: set<Pos>)
    requires Valid(g) && p in g.cells
    requires !g.minesPlaced ==> IsPlacement(g, p.x, p.y, mines)
    ensures var r := RevealCell(g, p, mines); var k := r.0.cells[p].minesAround;
      && (!r.1 && k == 0 ==> Settled(r.0, p))
      && (!r.1 && k != 0 && k == CountFlagsAround(g, p.x, p.y) ==>
            forall n :: n in Window(g.rows, g.columns, p.x, p.y) && !g.cells[n].flagged ==> r.0.cells[n].revealed)
  {
    var a := Armed(g, p, mines);
    ArmedKeeps(g, p, mines);
    RevealCellSteps(g, p, mines);
    var g1 := RevealAt(a, p);
    RevealAtSpec(a, p);
    UncoversValid(a, g1);
    if !Reveal(a.cells[p]).hit && a.cells[p].minesAround != 0 && a.cells[p].minesAround == CountFlagsAround(g1, p.x, p.y) {
      ChordSweeps(g1, p);
    }
  }

  // ---------------------------------------------------------------- get_adjacent_cells

  /**
   `get_adjacent_cells`: the cells of the clipped 3x3 window, the cell
   itself included, named by their coordinates.
   */
  function AdjacentCells(g: Grid, x: int, y: int): (r: seq<Pos>)
    ensures forall q :: q in r <==> InBounds(g.rows, g.columns, q) && Near(q, Pos(x, y))
    ensures |r| == Span(x, g.rows) * Span(y, g.columns)
  {
    WindowLength(g.rows, g.columns, x, y);
    Window(g.rows, g.columns, x, y)
  }

  /**
   Nine cells in the interior, six on an edge, four in a corner, for a
   board at least three cells wide each way; the cell itself is always one
   of them.
   */
  lemma AdjacentCellsCount(g: Grid, x: int, y: int)
    requires g.rows >= 3 && g.columns >= 3 && InBounds(g.rows, g.columns, Pos(x, y))
    ensures Pos(x, y) in AdjacentCells(g, x, y)
    ensures var onX, onY := x == 0 || x == g.rows - 1, y == 0 || y == g.columns - 1;
      |AdjacentCells(g, x, y)| == if !onX && !onY then 9 else if onX && onY then 4 else 6
  {
  }

  // ---------------------------------------------------------------- check_victory

  /** `check_victory`: the scan fails at the first cell whose flag disagrees with its mine bit. */
  method CheckVictory(g: Grid) returns (won: bool)
    requires Valid(g)
    ensures won <==> Flags(g.cells) == Mines(g.cells)
  {
    var x := 0;
    while x < g.rows
      invariant 0 <= x && (x <= g.rows || x == 0)
      invariant forall q :: q in g.cells && q.x < x ==> g.cells[q].flagged == g.cells[q].mined
    {
      var y := 0;
      while y < g.columns
        invariant 0 <= y && (y <= g.columns || y == 0)
        invariant forall q :: q in g.cells && (q.x < x || (q.x == x && q.y < y)) ==> g.cells[q].flagged == g.cells[q].mined
      {
        var c := g.cells[Pos(x, y)];
        if c.mined && !c.flagged {
          assert Pos(x, y) in Mines(g.cells) - Flags(g.cells);
          return false;
        }
        if !c.mined && c.flagged {
          assert Pos(x, y) in Flags(g.cells) - Mines(g.cells);
          return false;
        }
        y := y + 1;
      }
      x := x + 1;
    }
    assert Flags(g.cells) == Mines(g.cells);
    return true;
  }
}
