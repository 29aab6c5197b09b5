/**
 The flag-victory engine (grid.py over the cells of cell.py): mines are laid
 on the first reveal away from a 3x3 safe zone, a zero-count cell floods its
 window, a numbered cell whose flagged neighbours match its count chords,
 and the game is won when the flags are exactly the mines.

 The timer start and the game-over callback into the window are effects on
 collaborators outside the engine and are not modelled; drawing is left out.
 */
module Grid {
  import opened Neighbourhood
  import opened Wrappers
  import opened GridCell

  /**
   The board. `rows` is the extent of the first coordinate (the outer list,
   `row_cell_num`), `columns` that of the second (`column_cell_num`).
   */
  datatype Grid = Grid(
    rows: int,
    columns: int,
    minesCount: int,
    cells: map<Pos, Cell>,
    minesPlaced: bool,
    recursiveGameOver: bool)

  function Mines(cells: map<Pos, Cell>): set<Pos> {
    set p | p in cells && cells[p].mined
  }

  function Flags(cells: map<Pos, Cell>): set<Pos> {
    set p | p in cells && cells[p].flagged
  }

  function Hidden(cells: map<Pos, Cell>): set<Pos> {
    set p | p in cells && !cells[p].revealed
  }

  /**
   A cell exists for every in-bounds coordinate and nowhere else, and no
   mine exists before the first reveal has laid them.
   */
  predicate Valid(g: Grid) {
    && g.cells.Keys == AllPositions(g.rows, g.columns)
    && (!g.minesPlaced ==> Mines(g.cells) == {})
  }

  /** `Grid(...)`: every cell fresh, no mines yet. */
  function NewGrid(rows: int, columns: int, minesCount: int): (g: Grid)
    ensures Valid(g) && !g.minesPlaced && !g.recursiveGameOver
    ensures g.rows == rows && g.columns == columns && g.minesCount == minesCount
    ensures forall p :: InBounds(rows, columns, p) <==> p in g.cells
    ensures forall p :: p in g.cells ==> g.cells[p] == Fresh
  {
    var g := Grid(rows, columns, minesCount, map p | p in AllPositions(rows, columns) :: Fresh, false, false);
    assert Mines(g.cells) == {};
    g
  }

  /** `count_mines_around`: mined cells in the clipped 3x3 window, the centre included. */
  function CountMinesAround(g: Grid, x: int, y: int): nat {
    Count(Window(g.rows, g.columns, x, y), Mines(g.cells))
  }

  /** `count_flags_around`: flagged cells in the clipped 3x3 window, the centre included. */
  function CountFlagsAround(g: Grid, x: int, y: int): nat {
    Count(Window(g.rows, g.columns, x, y), Flags(g.cells))
  }

  /**
   The mine count is the number of mines within distance one of `(x, y)`,
   the cell itself included, so at most 9; for a cell that is not a mine it
   is the number of its mined 8-neighbours, at most 8.
   */
  lemma CountMinesAroundSpec(g: Grid, x: int, y: int)
    requires Valid(g)
    ensures CountMinesAround(g, x, y) == |Around(Mines(g.cells), Pos(x, y))| <= 9
    ensures Pos(x, y) in g.cells && !g.cells[Pos(x, y)].mined ==>
      CountMinesAround(g, x, y) == |Adjacent(Mines(g.cells), Pos(x, y))| <= 8
  {
    var c, ms, w := Pos(x, y), Mines(g.cells), Window(g.rows, g.columns, x, y);
    CountWindow(g.rows, g.columns, x, y, ms);
    WindowLength(g.rows, g.columns, x, y);
    SpanBound(Span(x, g.rows), Span(y, g.columns));
    if c in g.cells && !g.cells[c].mined {
      CountMissing(w, ms, c);
      AroundAdjacent(ms, c);
    }
  }

  lemma SpanBound(a: nat, b: nat)
    requires a <= 3 && b <= 3
    ensures a * b <= 9
  {
  }

  /** The flag count is the number of flags within distance one of `(x, y)`, the cell itself included. */
  lemma CountFlagsAroundSpec(g: Grid, x: int, y: int)
    requires Valid(g)
    ensures CountFlagsAround(g, x, y) == |Around(Flags(g.cells), Pos(x, y))|
  {
    CountWindow(g.rows, g.columns, x, y, Flags(g.cells));
  }

  // ---------------------------------------------------------------- placement

  /** The cells the random draw may still accept: unmined and outside the safe zone. */
  function Candidates(g: Grid, safeX: int, safeY: int): set<Pos> {
    set p | p in g.cells && !g.cells[p].mined && !Near(p, Pos(safeX, safeY))
  }

  /**
   A set of cells the rejection loop of `place_mines` can end up marking:
   as many as it is asked for, each accepted by the draw.
   */
  predicate IsPlacement(g: Grid, safeX: int, safeY: int, mines: set<Pos>) {
    && |mines| == Needed(g.minesCount)
    && forall p :: p in mines ==> p in Candidates(g, safeX, safeY)
  }

  /** The loop can finish exactly when enough cells lie outside the safe zone. */
  lemma PlacementExists(g: Grid, safeX: int, safeY: int)
    ensures (exists mines :: IsPlacement(g, safeX, safeY, mines)) <==> Needed(g.minesCount) <= |Candidates(g, safeX, safeY)|
  {
    var free := Candidates(g, safeX, safeY);
    if Needed(g.minesCount) <= |free| {
      SubsetOfSize(free, Needed(g.minesCount));
      var t :| t <= free && |t| == Needed(g.minesCount);
      assert IsPlacement(g, safeX, safeY, t);
    }
    if exists mines :: IsPlacement(g, safeX, safeY, mines) {
      var t :| IsPlacement(g, safeX, safeY, t);
      SubsetCard(t, free);
    }
  }

  function LayMines(cells: map<Pos, Cell>, mines: set<Pos>): (r: map<Pos, Cell>)
    requires mines <= cells.Keys
    ensures r.Keys == cells.Keys
    ensures forall p :: p in r ==> r[p] == cells[p].(mined := cells[p].mined || p in mines)
    ensures Mines(r) == Mines(cells) + mines
    ensures Hidden(r) == Hidden(cells) && Flags(r) == Flags(cells)
  {
    var r := map p | p in cells :: if p in mines then cells[p].(mined := true) else cells[p];
    assert Mines(r) == Mines(cells) + mines;
    assert Hidden(r) == Hidden(cells);
    assert Flags(r) == Flags(cells);
    r
  }

  /** Every cell's mine count over `g`'s current layout. */
  function Counts(g: Grid): (r: map<Pos, nat>)
    ensures r.Keys == g.cells.Keys
    ensures forall p {:trigger CountMinesAround(g, p.x, p.y)} :: p in r ==> r[p] == CountMinesAround(g, p.x, p.y)
  {
    map p | p in g.cells :: CountMinesAround(g, p.x, p.y)
  }

  function SetCounts(cells: map<Pos, Cell>, counts: map<Pos, nat>): (r: map<Pos, Cell>)
    requires counts.Keys == cells.Keys
    ensures r.Keys == cells.Keys
    ensures forall p :: p in r ==> r[p] == cells[p].(minesAround := counts[p])
    ensures Mines(r) == Mines(cells) && Hidden(r) == Hidden(cells) && Flags(r) == Flags(cells)
  {
    var r := map p | p in cells :: cells[p].(minesAround := counts[p]);
    assert Mines(r) == Mines(cells);
    assert Hidden(r) == Hidden(cells);
    assert Flags(r) == Flags(cells);
    r
  }

  /** The second pass of `place_mines`: store each cell's count of the laid mines. */
  function StoreCounts(g: Grid): (r: Grid)
    ensures r == g.(cells := r.cells) && r.cells.Keys == g.cells.Keys
    ensures forall p {:trigger CountMinesAround(g, p.x, p.y)} :: p in r.cells ==> r.cells[p] == g.cells[p].(minesAround := CountMinesAround(g, p.x, p.y))
    ensures Mines(r.cells) == Mines(g.cells) && Hidden(r.cells) == Hidden(g.cells) && Flags(r.cells) == Flags(g.cells)
  {
    g.(cells := SetCounts(g.cells, Counts(g)))
  }

  /**
   `place_mines`, with the random draw replaced by the cells it accepts.
   The new mines are exactly the chosen cells, none of them in the safe
   zone, and every stored count is the count of the final layout.
   */
  function PlaceMines(g: Grid, safeX: int, safeY: int, mines: set<Pos>): (r: Grid)
    requires Valid(g) && IsPlacement(g, safeX, safeY, mines)
    ensures r.cells.Keys == g.cells.Keys
    ensures r == g.(cells := r.cells)
    ensures Mines(r.cells) == Mines(g.cells) + mines
    ensures |Mines(r.cells)| == |Mines(g.cells)| + Needed(g.minesCount)
    ensures forall p :: p in Mines(r.cells) - Mines(g.cells) ==> !Near(p, Pos(safeX, safeY))
    ensures forall p {:trigger CountMinesAround(r, p.x, p.y)} :: p in r.cells ==> r.cells[p].minesAround == CountMinesAround(r, p.x, p.y)
    ensures forall p :: p in r.cells ==> r.cells[p].revealed == g.cells[p].revealed && r.cells[p].flagged == g.cells[p].flagged
    ensures Hidden(r.cells) == Hidden(g.cells) && Flags(r.cells) == Flags(g.cells)
  {
    var laid := g.(cells := LayMines(g.cells, mines));
    assert Mines(g.cells) * mines == {};
    var r := StoreCounts(laid);
    SameLayoutSameCounts(laid, r);
    DisjointCard(Mines(g.cells), mines);
    r
  }

  /** Counts depend only on the board size and where the mines are. */
  lemma SameLayoutSameCounts(g: Grid, g': Grid)
    requires g'.rows == g.rows && g'.columns == g.columns && Mines(g'.cells) == Mines(g.cells)
    ensures forall x, y :: CountMinesAround(g', x, y) == CountMinesAround(g, x, y)
  {
  }

  lemma DisjointCard(a: set<Pos>, b: set<Pos>)
    requires a * b == {}
    ensures |a + b| == |a| + |b|
  {
  }

  /** The grid that `reveal_cell` works on: the mines laid first if they were not yet. */
  function Armed(g: Grid, p: Pos, mines: set<Pos>): (r: Grid)
    requires Valid(g)
    requires !g.minesPlaced ==> IsPlacement(g, p.x, p.y, mines)
    ensures Valid(r) && r.minesPlaced && r.rows == g.rows && r.columns == g.columns && r.cells.Keys == g.cells.Keys
    ensures g.minesPlaced ==> r == g
  {
    if g.minesPlaced then g else PlaceMines(g, p.x, p.y, mines).(minesPlaced := true)
  }

  /**
   The first reveal opens onto a zero: after arming, no cell within
   distance one of the click holds a mine, so the clicked cell is safe and
   its stored count is 0.
   */
  lemma ArmedSafeZone(g: Grid, p: Pos, mines: set<Pos>)
    requires Valid(g) && p in g.cells && !g.minesPlaced && IsPlacement(g, p.x, p.y, mines)
    ensures forall q :: q in Armed(g, p, mines).cells && Near(q, p) ==> !Armed(g, p, mines).cells[q].mined
    ensures Armed(g, p, mines).cells[p].minesAround == 0
  {
    var r := Armed(g, p, mines);
    ArmedClearAround(g, p, mines);
    CountMinesAroundSpec(r, p.x, p.y);
    assert r.cells[p].minesAround == CountMinesAround(r, p.x, p.y);
  }

  /** The mines the first reveal lays keep clear of the click's window. */
  lemma ArmedClearAround(g: Grid, p: Pos, mines: set<Pos>)
    requires Valid(g) && !g.minesPlaced && IsPlacement(g, p.x, p.y, mines)
    ensures Around(Mines(Armed(g, p, mines).cells), p) == {}
    ensures forall q :: q in Armed(g, p, mines).cells && Near(q, p) ==> !Armed(g, p, mines).cells[q].mined
  {
    ArmedLays(g, p, mines);
  }

  /** Once the mines are down, later reveals keep the layout. */
  lemma ArmedKeepsLayout(g: Grid, p: Pos, mines: set<Pos>)
    requires Valid(g) && g.minesPlaced
    ensures Armed(g, p, mines) == g
  {
  }

  /** The first reveal lays exactly the chosen mines, as many as `mines_count` asks for. */
  lemma ArmedLays(g: Grid, p: Pos, mines: set<Pos>)
    requires Valid(g) && !g.minesPlaced && IsPlacement(g, p.x, p.y, mines)
    ensures Mines(Armed(g, p, mines).cells) == mines && |mines| == Needed(g.minesCount)
  {
    assert Armed(g, p, mines).cells == PlaceMines(g, p.x, p.y, mines).cells;
  }

  /** Laying the mines touches neither the reveal bits nor the flags. */
  lemma ArmedKeeps(g: Grid, p: Pos, mines: set<Pos>)
    requires Valid(g)
    requires !g.minesPlaced ==> IsPlacement(g, p.x, p.y, mines)
    ensures var r := Armed(g, p, mines);
      && r.recursiveGameOver == g.recursiveGameOver
      && Hidden(r.cells) == Hidden(g.cells) && Flags(r.cells) == Flags(g.cells)
      && forall q :: q in r.cells ==> r.cells[q].revealed == g.cells[q].revealed && r.cells[q].flagged == g.cells[q].flagged
  {
  }

  // ---------------------------------------------------------------- reveal steps

  /** Only the reveal bit may change, and only from hidden to revealed. */
  predicate Grows(c: Cell, c': Cell) {
    && c'.mined == c.mined && c'.flagged == c.flagged && c'.minesAround == c.minesAround
    && (c.revealed ==> c'.revealed)
  }

  /** `g'` is `g` with some more cells revealed and nothing else changed. */
  ghost predicate Uncovers(g: Grid, g': Grid) {
    && g'.rows == g.rows && g'.columns == g.columns && g'.minesCount == g.minesCount
    && g'.minesPlaced == g.minesPlaced
    && g'.cells.Keys == g.cells.Keys
    && forall p :: p in g.cells ==> Grows(g.cells[p], g'.cells[p])
  }

  /** Flagged cells are left exactly as they were. */
  ghost predicate FlagsUntouched(g: Grid, g': Grid) {
    forall p :: p in g.cells && g.cells[p].flagged ==> p in g'.cells && g'.cells[p] == g.cells[p]
  }

  /** No mine was uncovered on the way from `g` to `g'`. */
  ghost predicate NoMineUncovered(g: Grid, g': Grid) {
    forall p :: p in g.cells && p in g'.cells && !g.cells[p].revealed && g'.cells[p].revealed ==> !g.cells[p].mined
  }

  /** Every unflagged, unmined cell of `q`'s window is revealed: a flood that reached `q` is closed there. */
  ghost predicate Settled(g: Grid, q: Pos) {
    forall n :: n in Window(g.rows, g.columns, q.x, q.y) && n in g.cells && !g.cells[n].flagged && !g.cells[n].mined ==> g.cells[n].revealed
  }

  lemma UncoversTrans(a: Grid, b: Grid, c: Grid)
    requires Uncovers(a, b) && Uncovers(b, c)
    ensures Uncovers(a, c)
  {
  }

  lemma UncoversValid(g: Grid, g': Grid)
    requires Valid(g) && Uncovers(g, g')
    ensures Valid(g') && Mines(g'.cells) == Mines(g.cells) && Flags(g'.cells) == Flags(g.cells)
    ensures Hidden(g'.cells) <= Hidden(g.cells) && |Hidden(g'.cells)| <= |Hidden(g.cells)|
  {
    assert Mines(g'.cells) == Mines(g.cells);
    assert Flags(g'.cells) == Flags(g.cells);
    SubsetCard(Hidden(g'.cells), Hidden(g.cells));
  }

  /** Uncovering a cell that was hidden leaves fewer hidden cells. */
  lemma UncoversFewer(g: Grid, g': Grid, n: Pos)
    requires Valid(g) && Uncovers(g, g')
    requires n in g.cells && !g.cells[n].revealed && g'.cells[n].revealed
    ensures |Hidden(g'.cells)| < |Hidden(g.cells)|
  {
    UncoversValid(g, g');
    assert Hidden(g'.cells) <= Hidden(g.cells) - {n};
    SubsetCard(Hidden(g'.cells), Hidden(g.cells) - {n});
  }

  lemma FlagsUntouchedTrans(a: Grid, b: Grid, c: Grid)
    requires FlagsUntouched(a, b) && FlagsUntouched(b, c)
    ensures FlagsUntouched(a, c)
  {
  }

  lemma NoMineUncoveredTrans(a: Grid, b: Grid, c: Grid)
    requires Uncovers(a, b) && NoMineUncovered(a, b) && NoMineUncovered(b, c)
    ensures NoMineUncovered(a, c)
  {
  }

  lemma SettledCarry(a: Grid, b: Grid)
    requires Uncovers(a, b)
    ensures forall q :: Settled(a, q) ==> Settled(b, q)
  {
  }

  /** `cell.reveal()` on one cell of the grid: a flagged cell refuses, any other becomes revealed. */
  function RevealAt(g: Grid, n: Pos): (r: Grid)
    requires Valid(g) && n in g.cells
    ensures Valid(r) && r.rows == g.rows && r.columns == g.columns && r.cells.Keys == g.cells.Keys
  {
    var r := g.(cells := g.cells[n := Reveal(g.cells[n]).cell]);
    UncoversValid(g, r);
    r
  }

  /** What revealing one cell does to the grid; kept apart from `RevealAt` so that unfolding it stays cheap. */
  lemma RevealAtSpec(g: Grid, n: Pos)
    requires Valid(g) && n in g.cells
    ensures var r := RevealAt(g, n);
      && Uncovers(g, r) && r.recursiveGameOver == g.recursiveGameOver && FlagsUntouched(g, r)
      && (g.cells[n].flagged ==> r == g)
      && (!g.cells[n].flagged ==> r.cells[n].revealed && Hidden(r.cells) == Hidden(g.cells) - {n})
      && forall p :: p in g.cells && p != n ==> r.cells[p] == g.cells[p]
  {
    var r := RevealAt(g, n);
    if g.cells[n].flagged {
      assert r.cells == g.cells;
    } else {
      assert Hidden(r.cells) == Hidden(g.cells) - {n};
    }
  }

  // ---------------------------------------------------------------- flood fill

  /** Every zero-count cell uncovered between `g` and `r` has a settled window. */
  ghost predicate Closed(g: Grid, r: Grid) {
    forall q :: q in g.cells && !g.cells[q].revealed && q in r.cells && r.cells[q].revealed && g.cells[q].minesAround == 0 ==> Settled(r, q)
  }

  /** What a flood from `g` to `r` guarantees, whichever loop position it started at. */
  ghost predicate Flooded(g: Grid, r: Grid) {
    && Valid(r) && Uncovers(g, r) && r.recursiveGameOver == g.recursiveGameOver
    && FlagsUntouched(g, r) && NoMineUncovered(g, r) && Closed(g, r)
  }

  /** The cells `ps[i..]` that are neither flagged nor mines are all revealed in `r`. */
  ghost predicate Swept(g: Grid, ps: seq<Pos>, i: nat, r: Grid)
    requires i <= |ps|
  {
    forall n :: n in ps[i..] && n in g.cells && !g.cells[n].flagged && !g.cells[n].mined ==> n in r.cells && r.cells[n].revealed
  }

  /**
   The flood fill of `recursive_reveal` with the flag guard it evidently
   intends: every hidden, unmined, unflagged cell of the window is
   revealed and floods on when its count is zero. It terminates on every
   board, reveals no mine, leaves flags alone, and the region it reveals is
   closed: every cell of `p`'s window, and of the window of every
   zero-count cell it reveals, is revealed unless it is flagged or a mine.
   */
  function FloodFill(g: Grid, p: Pos): (r: Grid)
    requires Valid(g)
    ensures Flooded(g, r) && Settled(r, p)
    decreases |Hidden(g.cells)|, 1
  {
    var ps := Window(g.rows, g.columns, p.x, p.y);
    assert ps[0..] == ps;
    FloodFrom(g, ps, 0)
  }

  /** The `dx`/`dy` loop of the flood fill, from the `i`-th cell of the window on. */
  function FloodFrom(g: Grid, ps: seq<Pos>, i: nat): (r: Grid)
    requires Valid(g) && i <= |ps|
    requires forall n :: n in ps ==> n in g.cells
    ensures Flooded(g, r) && Swept(g, ps, i, r)
    decreases |Hidden(g.cells)|, 0, |ps| - i
  {
    if i == |ps| then
      FloodedRefl(g);
      g
    else
      var n := ps[i];
      var c := g.cells[n];
      if !c.revealed && !c.mined && !c.flagged then
        var g1 := RevealAt(g, n);
        RevealAtSpec(g, n);
        if c.minesAround == 0 then
          var g2 := FloodFill(g1, n);
          UncoversValid(g1, g2);
          var r := FloodFrom(g2, ps, i + 1);
          FloodStep(g, ps, i, g1, g2, r);
          r
        else
          FloodedRefl(g1);
          var r := FloodFrom(g1, ps, i + 1);
          FloodStep(g, ps, i, g1, g1, r);
          r
      else
        var r := FloodFrom(g, ps, i + 1);
        FloodSkip(g, ps, i, r);
        r
  }

  lemma FloodedRefl(g: Grid)
    requires Valid(g)
    ensures Flooded(g, g)
  {
  }

  lemma FloodedTrans(a: Grid, b: Grid, c: Grid)
    requires Flooded(a, b) && Flooded(b, c)
    ensures Flooded(a, c)
  {
    UncoversTrans(a, b, c);
    FlagsUntouchedTrans(a, b, c);
    NoMineUncoveredTrans(a, b, c);
    SettledCarry(b, c);
  }

  /** One revealing iteration of the flood loop: reveal `ps[i]`, flood from it (or not), continue. */
  lemma FloodStep(g: Grid, ps: seq<Pos>, i: nat, g1: Grid, g2: Grid, r: Grid)
    requires Valid(g) && i < |ps| && ps[i] in g.cells
    requires var c := g.cells[ps[i]]; !c.revealed && !c.mined && !c.flagged
    requires Valid(g1) && Uncovers(g, g1) && FlagsUntouched(g, g1) && g1.recursiveGameOver == g.recursiveGameOver
    requires g1.cells[ps[i]].revealed && forall p :: p in g.cells && p != ps[i] ==> g1.cells[p] == g.cells[p]
    requires g.cells[ps[i]].minesAround == 0 ==> Settled(g2, ps[i])
    requires Flooded(g1, g2) && Flooded(g2, r) && Swept(g2, ps, i + 1, r)
    ensures Flooded(g, r) && Swept(g, ps, i, r)
  {
    var n := ps[i];
    FloodedReveal(g, g1, g2, n);
    FloodedTrans(g, g2, r);
    SweptStep(g, ps, i, g2, r);
  }

  /** Revealing `n` and then flooding from it (when its count is zero) is itself a flood. */
  lemma FloodedReveal(g: Grid, g1: Grid, g2: Grid, n: Pos)
    requires Valid(g) && n in g.cells && !g.cells[n].mined && !g.cells[n].flagged
    requires Valid(g1) && Uncovers(g, g1) && FlagsUntouched(g, g1) && g1.recursiveGameOver == g.recursiveGameOver
    requires forall p :: p in g.cells && p != n ==> g1.cells[p] == g.cells[p]
    requires g.cells[n].minesAround == 0 ==> Settled(g2, n)
    requires Flooded(g1, g2)
    ensures Flooded(g, g2)
  {
    assert NoMineUncovered(g, g1);
    UncoversTrans(g, g1, g2);
    FlagsUntouchedTrans(g, g1, g2);
    NoMineUncoveredTrans(g, g1, g2);
    SettledCarry(g1, g2);
    assert Closed(g, g2);
  }

  lemma SweptStep(g: Grid, ps: seq<Pos>, i: nat, g2: Grid, r: Grid)
    requires i < |ps| && ps[i] in g.cells
    requires Uncovers(g, g2) && Uncovers(g2, r)
    requires !g.cells[ps[i]].flagged && !g.cells[ps[i]].mined ==> g2.cells[ps[i]].revealed
    requires Swept(g2, ps, i + 1, r)
    ensures Swept(g, ps, i, r)
  {
    assert ps[i..] == [ps[i]] + ps[i + 1..];
  }

  /** A skipping iteration of the flood loop. */
  lemma FloodSkip(g: Grid, ps: seq<Pos>, i: nat, r: Grid)
    requires Valid(g) && i < |ps| && ps[i] in g.cells
    requires var c := g.cells[ps[i]]; c.revealed || c.mined || c.flagged
    requires Flooded(g, r) && Swept(g, ps, i + 1, r)
    ensures Swept(g, ps, i, r)
  {
    assert ps[i..] == [ps[i]] + ps[i + 1..];
  }

  /** The flood could spread from `q`: it is hidden, unflagged, safe and counted zero. */
  ghost predicate Spreading(g: Grid, q: Pos) {
    q in g.cells && !g.cells[q].revealed && !g.cells[q].flagged && !g.cells[q].mined && g.cells[q].minesAround == 0
  }

  /** With each cell the flood could spread from, `s` holds its whole window. */
  ghost predicate ZeroClosed(g: Grid, s: set<Pos>) {
    forall q, n :: q in s && Spreading(g, q) && n in g.cells && Near(n, q) ==> n in s
  }

  /** Every cell uncovered between `g` and `g'` lies in `s`. */
  ghost predicate Within(g: Grid, g': Grid, s: set<Pos>) {
    forall q :: q in g.cells && q in g'.cells && !g.cells[q].revealed && g'.cells[q].revealed ==> q in s
  }

  /** Uncovering cells only removes cells the flood could spread from. */
  lemma ZeroClosedCarry(g: Grid, g': Grid, s: set<Pos>)
    requires Uncovers(g, g') && ZeroClosed(g, s)
    ensures ZeroClosed(g', s)
  {
    forall q, n | q in s && Spreading(g', q) && n in g'.cells && Near(n, q)
      ensures n in s
    {
      assert Grows(g.cells[q], g'.cells[q]);
      assert Spreading(g, q);
    }
  }

  lemma WithinTrans(a: Grid, b: Grid, c: Grid, s: set<Pos>)
    requires Uncovers(a, b) && Uncovers(b, c) && Within(a, b, s) && Within(b, c, s)
    ensures Within(a, c, s)
  {
    forall q | q in a.cells && q in c.cells && !a.cells[q].revealed && c.cells[q].revealed
      ensures q in s
    {
      assert Grows(a.cells[q], b.cells[q]);
    }
  }

  /**
   The flood fill is confined: it uncovers only cells of `s`, for every set
   `s` that holds the window of `p` and, with each cell the flood could
   spread from, its whole window. The least such set is the window of `p`
   together with the cells reachable from it through hidden, unflagged,
   safe cells counted zero, and their windows; so the flood reaches nothing
   cut off from `p` and does not pass a flag.
   */
  lemma {:induction false} FloodFillWithin(g: Grid, p: Pos, s: set<Pos>)
    requires Valid(g) && ZeroClosed(g, s)
    requires forall n :: n in g.cells && Near(n, p) ==> n in s
    ensures Within(g, FloodFill(g, p), s)
    decreases |Hidden(g.cells)|, 1
  {
    FloodFromWithin(g, Window(g.rows, g.columns, p.x, p.y), 0, s);
  }

  /** When no cell of `p`'s window can spread the flood, it uncovers nothing outside that window. */
  lemma FloodFillLocal(g: Grid, p: Pos)
    requires Valid(g) && forall q :: q in g.cells && Near(q, p) ==> !Spreading(g, q)
    ensures Within(g, FloodFill(g, p), set q | q in g.cells && Near(q, p))
  {
    FloodFillWithin(g, p, set q | q in g.cells && Near(q, p));
  }

  lemma {:induction false} FloodFromWithin(g: Grid, ps: seq<Pos>, i: nat, s: set<Pos>)
    requires Valid(g) && i <= |ps| && ZeroClosed(g, s)
    requires forall n :: n in ps ==> n in g.cells && n in s
    ensures Within(g, FloodFrom(g, ps, i), s)
    decreases |Hidden(g.cells)|, 0, |ps| - i, 1
  {
    if i < |ps| {
      var c := g.cells[ps[i]];
      if !c.revealed && !c.mined && !c.flagged {
        FloodFromWithinOpen(g, ps, i, s);
      } else {
        FloodFromWithin(g, ps, i + 1, s);
      }
    }
  }

  /** An iteration of the flood loop that reveals `ps[i]`. */
  lemma {:induction false} FloodFromWithinOpen(g: Grid, ps: seq<Pos>, i: nat, s: set<Pos>)
    requires Valid(g) && i < |ps| && ZeroClosed(g, s)
    requires forall n :: n in ps ==> n in g.cells && n in s
    requires var c := g.cells[ps[i]]; !c.revealed && !c.mined && !c.flagged
    ensures Within(g, FloodFrom(g, ps, i), s)
    decreases |Hidden(g.cells)|, 0, |ps| - i, 0
  {
    var n := ps[i];
    var g1 := RevealAt(g, n);
    RevealAtSpec(g, n);
    UncoversFewer(g, g1, n);
    ZeroClosedCarry(g, g1, s);
    var g2 := if g.cells[n].minesAround == 0 then FloodFill(g1, n) else g1;
    if g.cells[n].minesAround == 0 {
      assert Spreading(g, n);
      FloodFillWithin(g1, n, s);
    }
    UncoversValid(g1, g2);
    ZeroClosedCarry(g1, g2, s);
    FloodFromWithin(g2, ps, i + 1, s);
    WithinTrans(g, g1, g2, s);
    WithinTrans(g, g2, FloodFrom(g2, ps, i + 1), s);
  }

  // ---------------------------------------------------------------- recursive_reveal as written

  /**
   `recursive_reveal` as written: the loop guard tests only `is_revealed`
   and `is_mined`, calls `reveal` (which refuses a flagged cell) and then
   recurses on any zero-count cell. `fuel` bounds the recursion depth;
   `None` means the recursion never returns within it. The second
   recursion branch of the source tests `is_mined` inside a branch where it
   is false, so it can never be taken and is not modelled.
   */
  function RecursiveReveal(g: Grid, p: Pos, fuel: nat): (r: Option<Grid>)
    requires Valid(g)
    ensures r.Some? ==> Revealing(g, r.value)
    decreases fuel, 1
  {
    RecursiveRevealFrom(g, Window(g.rows, g.columns, p.x, p.y), 0, fuel)
  }

  function RecursiveRevealFrom(g: Grid, ps: seq<Pos>, i: nat, fuel: nat): (r: Option<Grid>)
    requires Valid(g) && i <= |ps|
    requires forall n :: n in ps ==> n in g.cells
    ensures r.Some? ==> Revealing(g, r.value)
    decreases fuel, 0, |ps| - i
  {
    if i == |ps| then
      RevealingRefl(g);
      Some(g)
    else
      var n := ps[i];
      var c := g.cells[n];
      if !c.revealed && !c.mined then
        var g1 := RevealAt(g, n);
        RevealAtRevealing(g, n);
        if c.minesAround == 0 then
          if fuel == 0 then None
          else
            var o := RecursiveReveal(g1, n, fuel - 1);
            if o.None? then None
            else
              UncoversValid(g1, o.value);
              var r := RecursiveRevealFrom(o.value, ps, i + 1, fuel);
              if r.Some? then
                RevealingTrans(g, g1, o.value);
                RevealingTrans(g, o.value, r.value);
                r
              else r
        else
          var r := RecursiveRevealFrom(g1, ps, i + 1, fuel);
          if r.Some? then
            RevealingTrans(g, g1, r.value);
            r
          else r
      else RecursiveRevealFrom(g, ps, i + 1, fuel)
  }

  /** `r` is `g` with more cells revealed, none of them a mine, and every flagged cell untouched. */
  ghost predicate Revealing(g: Grid, r: Grid) {
    && Valid(r) && Uncovers(g, r) && FlagsUntouched(g, r) && NoMineUncovered(g, r)
    && r.recursiveGameOver == g.recursiveGameOver
  }

  lemma RevealingRefl(g: Grid)
    requires Valid(g)
    ensures Revealing(g, g)
  {
  }

  lemma RevealAtRevealing(g: Grid, n: Pos)
    requires Valid(g) && n in g.cells && !g.cells[n].mined
    ensures Revealing(g, RevealAt(g, n))
  {
    RevealAtSpec(g, n);
  }

  lemma RevealingTrans(a: Grid, b: Grid, c: Grid)
    requires Revealing(a, b) && Revealing(b, c)
    ensures Revealing(a, c)
  {
    UncoversTrans(a, b, c);
    FlagsUntouchedTrans(a, b, c);
    NoMineUncoveredTrans(a, b, c);
  }

  /** A hidden, unmined, flagged cell with a zero count: `reveal` refuses it, the recursion does not. */
  predicate Stuck(c: Cell) {
    !c.revealed && !c.mined && c.flagged && c.minesAround == 0
  }

  /** Starting on a stuck cell, `recursive_reveal` revisits it forever: no recursion budget suffices. */
  lemma {:induction false} RecursiveRevealDiverges(g: Grid, p: Pos, fuel: nat)
    requires Valid(g) && p in g.cells && Stuck(g.cells[p])
    ensures RecursiveReveal(g, p, fuel) == None
    decreases fuel, 1
  {
    var ps := Window(g.rows, g.columns, p.x, p.y);
    assert ps[0..] == ps;
    RecursiveRevealFromDiverges(g, p, ps, 0, fuel);
  }

  lemma {:induction false} RecursiveRevealFromDiverges(g: Grid, q: Pos, ps: seq<Pos>, i: nat, fuel: nat)
    requires Valid(g) && i <= |ps| && forall n :: n in ps ==> n in g.cells
    requires q in ps[i..] && q in g.cells && Stuck(g.cells[q])
    ensures RecursiveRevealFrom(g, ps, i, fuel) == None
    decreases fuel, 0, |ps| - i, 1
  {
    var n := ps[i];
    var c := g.cells[n];
    assert ps[i..] == [n] + ps[i + 1..];
    if n == q {
      if fuel > 0 {
        RevealAtSpec(g, n);
        RecursiveRevealDiverges(RevealAt(g, n), n, fuel - 1);
      }
    } else if !c.revealed && !c.mined {
      RevealAtSpec(g, n);
      if c.minesAround == 0 {
        RecursiveRevealFromDivergesZero(g, q, ps, i, fuel);
      } else {
        RecursiveRevealFromDiverges(RevealAt(g, n), q, ps, i + 1, fuel);
      }
    } else {
      RecursiveRevealFromDiverges(g, q, ps, i + 1, fuel);
    }
  }

  /** The stuck cell survives the nested call of a zero-count cell before it, so the loop still reaches it. */
  lemma {:induction false} RecursiveRevealFromDivergesZero(g: Grid, q: Pos, ps: seq<Pos>, i: nat, fuel: nat)
    requires Valid(g) && i < |ps| && forall n :: n in ps ==> n in g.cells
    requires q in ps[i + 1..] && q in g.cells && Stuck(g.cells[q]) && q != ps[i]
    requires var c := g.cells[ps[i]]; !c.revealed && !c.mined && c.minesAround == 0
    ensures RecursiveRevealFrom(g, ps, i, fuel) == None
    decreases fuel, 0, |ps| - i, 0
  {
    var g1 := RevealAt(g, ps[i]);
    RevealAtSpec(g, ps[i]);
    if fuel > 0 && RecursiveReveal(g1, ps[i], fuel - 1).Some? {
      RecursiveRevealFromDiverges(RecursiveReveal(g1, ps[i], fuel - 1).value, q, ps, i + 1, fuel);
    }
  }

  /** No cell of `q`'s window is stuck. */
  ghost predicate Unstuck(g: Grid, q: Pos) {
    forall n :: n in g.cells && Near(n, q) ==> !Stuck(g.cells[n])
  }

  /** No zero-count cell uncovered between `g` and `r` has a stuck cell in its window. */
  ghost predicate ClearOfStuck(g: Grid, r: Grid) {
    forall z :: z in g.cells && z in r.cells && !g.cells[z].revealed && r.cells[z].revealed && g.cells[z].minesAround == 0 ==> Unstuck(g, z)
  }

  /** Stuck cells are flagged, so they stay stuck: a window clear of them later was clear before. */
  lemma UnstuckBack(a: Grid, b: Grid, z: Pos)
    requires Revealing(a, b) && Unstuck(b, z)
    ensures Unstuck(a, z)
  {
  }

  lemma ClearOfStuckTrans(a: Grid, b: Grid, c: Grid)
    requires Revealing(a, b) && Revealing(b, c) && ClearOfStuck(a, b) && ClearOfStuck(b, c)
    ensures ClearOfStuck(a, c)
  {
    forall z | z in a.cells && z in c.cells && !a.cells[z].revealed && c.cells[z].revealed && a.cells[z].minesAround == 0
      ensures Unstuck(a, z)
    {
      if !b.cells[z].revealed {
        UnstuckBack(a, b, z);
      }
    }
  }

  /**
   Whenever `recursive_reveal` as written returns, neither the window of the
   clicked cell nor the window of any zero-count cell it uncovered holds a
   stuck cell: a stuck cell met anywhere in the flood makes it run forever.
   */
  lemma {:induction false} RecursiveRevealReturnsClear(g: Grid, p: Pos, fuel: nat)
    requires Valid(g)
    ensures RecursiveReveal(g, p, fuel).Some? ==> Unstuck(g, p) && ClearOfStuck(g, RecursiveReveal(g, p, fuel).value)
    decreases fuel, 1
  {
    var ps := Window(g.rows, g.columns, p.x, p.y);
    assert ps[0..] == ps;
    if n :| n in g.cells && Near(n, p) && Stuck(g.cells[n]) {
      RecursiveRevealFromDiverges(g, n, ps, 0, fuel);
    } else {
      RecursiveRevealFromClear(g, ps, 0, fuel);
    }
  }

  lemma {:induction false} RecursiveRevealFromClear(g: Grid, ps: seq<Pos>, i: nat, fuel: nat)
    requires Valid(g) && i <= |ps| && forall n :: n in ps ==> n in g.cells
    ensures RecursiveRevealFrom(g, ps, i, fuel).Some? ==> ClearOfStuck(g, RecursiveRevealFrom(g, ps, i, fuel).value)
    decreases fuel, 0, |ps| - i, 2
  {
    if i < |ps| {
      var n := ps[i];
      var c := g.cells[n];
      if !c.revealed && !c.mined && !c.flagged && c.minesAround == 0 {
        RecursiveRevealFromClearZero(g, ps, i, fuel);
      } else if Stuck(c) {
        assert ps[i..] == [n] + ps[i + 1..];
        RecursiveRevealFromDiverges(g, n, ps, i, fuel);
      } else if !c.revealed && !c.mined {
        RecursiveRevealFromClearCount(g, ps, i, fuel);
      } else {
        RecursiveRevealFromClearSkip(g, ps, i, fuel);
      }
    }
  }

  /** A hidden, safe cell with a positive count: revealing it, then the rest of the loop, stays clear. */
  lemma {:induction false} RecursiveRevealFromClearCount(g: Grid, ps: seq<Pos>, i: nat, fuel: nat)
    requires Valid(g) && i < |ps| && forall n :: n in ps ==> n in g.cells
    requires var c := g.cells[ps[i]]; !c.revealed && !c.mined && c.minesAround != 0
    ensures RecursiveRevealFrom(g, ps, i, fuel).Some? ==> ClearOfStuck(g, RecursiveRevealFrom(g, ps, i, fuel).value)
    decreases fuel, 0, |ps| - i - 1, 3
  {
    var n := ps[i];
    var g1 := RevealAt(g, n);
    RevealAtSpec(g, n);
    RevealAtRevealing(g, n);
    UnfoldCount(g, ps, i, fuel);
    RecursiveRevealFromClear(g1, ps, i + 1, fuel);
    assert ClearOfStuck(g, g1);
    var r := RecursiveRevealFrom(g1, ps, i + 1, fuel);
    if r.Some? {
      ClearOfStuckTrans(g, g1, r.value);
    }
  }

  /** A cell the loop passes over leaves the rest of the loop clear. */
  lemma {:induction false} RecursiveRevealFromClearSkip(g: Grid, ps: seq<Pos>, i: nat, fuel: nat)
    requires Valid(g) && i < |ps| && forall n :: n in ps ==> n in g.cells
    requires var c := g.cells[ps[i]]; c.revealed || c.mined
    ensures RecursiveRevealFrom(g, ps, i, fuel).Some? ==> ClearOfStuck(g, RecursiveRevealFrom(g, ps, i, fuel).value)
    decreases fuel, 0, |ps| - i - 1, 3
  {
    UnfoldSkip(g, ps, i, fuel);
    RecursiveRevealFromClear(g, ps, i + 1, fuel);
  }

  /** A zero-count cell in the loop: the nested call and the rest of the loop are both clear. */
  lemma {:induction false} RecursiveRevealFromClearZero(g: Grid, ps: seq<Pos>, i: nat, fuel: nat)
    requires Valid(g) && i < |ps| && forall n :: n in ps ==> n in g.cells
    requires var c := g.cells[ps[i]]; !c.revealed && !c.mined && !c.flagged && c.minesAround == 0
    ensures RecursiveRevealFrom(g, ps, i, fuel).Some? ==> ClearOfStuck(g, RecursiveRevealFrom(g, ps, i, fuel).value)
    decreases fuel, 0, |ps| - i, 1
  {
    if fuel == 0 || RecursiveReveal(RevealAt(g, ps[i]), ps[i], fuel - 1).None? {
      UnfoldZeroNone(g, ps, i, fuel);
    } else {
      RecursiveRevealFromClearInner(g, ps, i, fuel);
    }
  }

  /** The nested call of a zero-count cell returned: both it and the rest of the loop are clear. */
  lemma {:induction false} RecursiveRevealFromClearInner(g: Grid, ps: seq<Pos>, i: nat, fuel: nat)
    requires Valid(g) && i < |ps| && forall n :: n in ps ==> n in g.cells
    requires var c := g.cells[ps[i]]; !c.revealed && !c.mined && !c.flagged && c.minesAround == 0
    requires fuel > 0 && RecursiveReveal(RevealAt(g, ps[i]), ps[i], fuel - 1).Some?
    ensures RecursiveRevealFrom(g, ps, i, fuel).Some? ==> ClearOfStuck(g, RecursiveRevealFrom(g, ps, i, fuel).value)
    decreases fuel, 0, |ps| - i, 0
  {
    var g1 := RevealAt(g, ps[i]);
    var g2 := InnerReturns(g1, ps[i], fuel - 1);
    UnfoldZeroWith(g, ps, i, fuel, g1);
    ClearStep(g, ps, i, fuel, g1, g2);
  }

  /** The board a returning nested call leaves. */
  lemma InnerReturns(g1: Grid, n: Pos, fuel: nat) returns (g2: Grid)
    requires Valid(g1) && RecursiveReveal(g1, n, fuel).Some?
    ensures RecursiveReveal(g1, n, fuel) == Some(g2)
    ensures Valid(g2) && g2.rows == g1.rows && g2.columns == g1.columns && g2.cells.Keys == g1.cells.Keys
  {
    g2 := RecursiveReveal(g1, n, fuel).value;
  }

  /** Revealing a hidden, safe, unflagged cell and a returning nested call from it stays clear. */
  lemma ClearNested(g: Grid, n: Pos, g1: Grid, g2: Grid, fuel: nat)
    requires Valid(g) && n in g.cells && !g.cells[n].revealed && !g.cells[n].mined && !g.cells[n].flagged
    requires g1 == RevealAt(g, n) && RecursiveReveal(g1, n, fuel) == Some(g2)
    ensures Revealing(g, g2) && ClearOfStuck(g, g2)
    decreases fuel, 3
  {
    RevealAtSpec(g, n);
    RevealAtRevealing(g, n);
    assert Revealing(g1, g2);
    RecursiveRevealReturnsClear(g1, n, fuel);
    UnstuckBack(g, g1, n);
    assert ClearOfStuck(g, g1);
    ClearOfStuckTrans(g, g1, g2);
    RevealingTrans(g, g1, g2);
  }

  /** Revealing `ps[i]`, a returning nested call, then the rest of the loop, stays clear. */
  lemma {:induction false} ClearStep(g: Grid, ps: seq<Pos>, i: nat, fuel: nat, g1: Grid, g2: Grid)
    requires Valid(g) && i < |ps| && forall n :: n in ps ==> n in g.cells
    requires var c := g.cells[ps[i]]; !c.revealed && !c.mined && !c.flagged
    requires g1 == RevealAt(g, ps[i]) && fuel > 0 && RecursiveReveal(g1, ps[i], fuel - 1) == Some(g2)
    requires Valid(g2) && g2.cells.Keys == g1.cells.Keys
    ensures RecursiveRevealFrom(g2, ps, i + 1, fuel).Some? ==> ClearOfStuck(g, RecursiveRevealFrom(g2, ps, i + 1, fuel).value)
    decreases fuel, 0, |ps| - i - 1, 3
  {
    ClearNested(g, ps[i], g1, g2, fuel - 1);
    RecursiveRevealFromClear(g2, ps, i + 1, fuel);
    var r := RecursiveRevealFrom(g2, ps, i + 1, fuel);
    if r.Some? {
      ClearOfStuckTrans(g, g2, r.value);
    }
  }

  lemma UnfoldCount(g: Grid, ps: seq<Pos>, i: nat, fuel: nat)
    requires Valid(g) && i < |ps| && forall n :: n in ps ==> n in g.cells
    requires var c := g.cells[ps[i]]; !c.revealed && !c.mined && c.minesAround != 0
    ensures RecursiveRevealFrom(g, ps, i, fuel) == RecursiveRevealFrom(RevealAt(g, ps[i]), ps, i + 1, fuel)
  {
  }

  lemma UnfoldSkip(g: Grid, ps: seq<Pos>, i: nat, fuel: nat)
    requires Valid(g) && i < |ps| && forall n :: n in ps ==> n in g.cells
    requires var c := g.cells[ps[i]]; c.revealed || c.mined
    ensures RecursiveRevealFrom(g, ps, i, fuel) == RecursiveRevealFrom(g, ps, i + 1, fuel)
  {
  }

  /** Whenever the as-written recursion returns, it leaves exactly the board the guarded flood fill leaves. */
  lemma {:induction false} RecursiveRevealAgrees(g: Grid, p: Pos, fuel: nat)
    requires Valid(g)
    ensures RecursiveReveal(g, p, fuel).Some? ==> RecursiveReveal(g, p, fuel).value == FloodFill(g, p)
    decreases fuel, 1
  {
    var ps := Window(g.rows, g.columns, p.x, p.y);
    RecursiveRevealFromAgrees(g, ps, 0, fuel);
  }

  lemma {:induction false} RecursiveRevealFromAgrees(g: Grid, ps: seq<Pos>, i: nat, fuel: nat)
    requires Valid(g) && i <= |ps| && forall n :: n in ps ==> n in g.cells
    ensures RecursiveRevealFrom(g, ps, i, fuel).Some? ==> RecursiveRevealFrom(g, ps, i, fuel).value == FloodFrom(g, ps, i)
    decreases fuel, 0, |ps| - i, 1
  {
    if i < |ps| {
      var n := ps[i];
      var c := g.cells[n];
      if !c.revealed && !c.mined && !c.flagged {
        if c.minesAround == 0 {
          RecursiveRevealFromAgreesZero(g, ps, i, fuel);
        } else {
          UnfoldCount(g, ps, i, fuel);
          FloodUnfoldCount(g, ps, i);
          RecursiveRevealFromAgrees(RevealAt(g, n), ps, i + 1, fuel);
        }
      } else if !c.revealed && !c.mined && c.minesAround == 0 {
        assert ps[i..] == [n] + ps[i + 1..];
        RecursiveRevealFromDiverges(g, n, ps, i, fuel);
      } else {
        if !c.revealed && !c.mined {
          RevealAtSpec(g, n);
          UnfoldCount(g, ps, i, fuel);
        } else {
          UnfoldSkip(g, ps, i, fuel);
        }
        FloodUnfoldSkip(g, ps, i);
        RecursiveRevealFromAgrees(g, ps, i + 1, fuel);
      }
    }
  }

  lemma {:induction false} RecursiveRevealFromAgreesZero(g: Grid, ps: seq<Pos>, i: nat, fuel: nat)
    requires Valid(g) && i < |ps| && forall n :: n in ps ==> n in g.cells
    requires var c := g.cells[ps[i]]; !c.revealed && !c.mined && !c.flagged && c.minesAround == 0
    ensures RecursiveRevealFrom(g, ps, i, fuel).Some? ==> RecursiveRevealFrom(g, ps, i, fuel).value == FloodFrom(g, ps, i)
    decreases fuel, 0, |ps| - i, 0
  {
    var n := ps[i];
    var g1 := RevealAt(g, n);
    if fuel == 0 || RecursiveReveal(g1, n, fuel - 1).None? {
      UnfoldZeroNone(g, ps, i, fuel);
    } else {
      var g2 := AgreeInner(g1, n, fuel - 1);
      UnfoldZeroWith(g, ps, i, fuel, g1);
      FloodUnfoldZero(g, ps, i);
      RecursiveRevealFromAgrees(g2, ps, i + 1, fuel);
    }
  }

  /** A returning nested call leaves the board the nested flood fill leaves. */
  lemma {:induction false} AgreeInner(g1: Grid, n: Pos, fuel: nat) returns (g2: Grid)
    requires Valid(g1) && RecursiveReveal(g1, n, fuel).Some?
    ensures RecursiveReveal(g1, n, fuel) == Some(g2) && g2 == FloodFill(g1, n)
    ensures Valid(g2) && g2.rows == g1.rows && g2.columns == g1.columns && g2.cells.Keys == g1.cells.Keys
    decreases fuel, 2
  {
    RecursiveRevealAgrees(g1, n, fuel);
    g2 := RecursiveReveal(g1, n, fuel).value;
  }

  lemma UnfoldZeroWith(g: Grid, ps: seq<Pos>, i: nat, fuel: nat, g1: Grid)
    requires Valid(g) && i < |ps| && forall n :: n in ps ==> n in g.cells
    requires var c := g.cells[ps[i]]; !c.revealed && !c.mined && !c.flagged && c.minesAround == 0
    requires g1 == RevealAt(g, ps[i]) && Valid(g1)
    requires fuel > 0 && RecursiveReveal(g1, ps[i], fuel - 1).Some?
    requires var g2 := RecursiveReveal(g1, ps[i], fuel - 1).value; Valid(g2) && forall n :: n in ps ==> n in g2.cells
    ensures RecursiveRevealFrom(g, ps, i, fuel) == RecursiveRevealFrom(RecursiveReveal(g1, ps[i], fuel - 1).value, ps, i + 1, fuel)
  {
  }

  lemma UnfoldZeroNone(g: Grid, ps: seq<Pos>, i: nat, fuel: nat)
    requires Valid(g) && i < |ps| && forall n :: n in ps ==> n in g.cells
    requires var c := g.cells[ps[i]]; !c.revealed && !c.mined && c.minesAround == 0
    requires fuel == 0 || RecursiveReveal(RevealAt(g, ps[i]), ps[i], fuel - 1).None?
    ensures RecursiveRevealFrom(g, ps, i, fuel).None?
  {
  }

  lemma FloodUnfoldSkip(g: Grid, ps: seq<Pos>, i: nat)
    requires Valid(g) && i < |ps| && forall n :: n in ps ==> n in g.cells
    requires var c := g.cells[ps[i]]; c.revealed || c.mined || c.flagged
    ensures FloodFrom(g, ps, i) == FloodFrom(g, ps, i + 1)
  {
  }

  lemma FloodUnfoldCount(g: Grid, ps: seq<Pos>, i: nat)
    requires Valid(g) && i < |ps| && forall n :: n in ps ==> n in g.cells
    requires var c := g.cells[ps[i]]; !c.revealed && !c.mined && !c.flagged && c.minesAround != 0
    ensures FloodFrom(g, ps, i) == FloodFrom(RevealAt(g, ps[i]), ps, i + 1)
  {
  }

  lemma FloodUnfoldZero(g: Grid, ps: seq<Pos>, i: nat)
    requires Valid(g) && i < |ps| && forall n :: n in ps ==> n in g.cells
    requires var c := g.cells[ps[i]]; !c.revealed && !c.mined && !c.flagged && c.minesAround == 0
    ensures FloodFrom(g, ps, i) == FloodFrom(FloodFill(RevealAt(g, ps[i]), ps[i]), ps, i + 1)
  {
  }
}
