/**
 The console engine (Backend-by-joel.py): a cell cycles through unknown,
 flag and question mark; revealing a hidden, unmarked cell floods through
 its eight neighbours when none of them is a mine; mines are laid on the
 first reveal anywhere but the clicked cell; the game is won when a counter
 of successful reveals reaches the number of cells that are not mines.

 Random mine placement becomes a caller-supplied set of mine cells that
 satisfies `IsPlacement`.
 */
module Backend {
  import opened Neighbourhood
  import opened Wrappers

  /** `Cell`: `flag` is 0 (unknown), 1 (flag) or 2 (question mark); its coordinates are its key in the board. */
  datatype Cell = Cell(mine: bool, revealed: bool, flag: int, adjacentMines: int)

  const Fresh := Cell(false, false, 0, 0)

  /** The two answers of `Cell.reveal`. */
  const Continue := "Continue"
  const GameOver := "Game Over"

  /** The four answers of `GameBoard.reveal_cell`. */
  const AlreadyOver := "Game is already over."
  const HitMine := "You hit a mine! Game Over."
  const Won := "Congratulations! You won!"

  const InvalidDifficulty := "Invalid difficulty level. Choose: beginner, intermediate, advanced"

  // ---------------------------------------------------------------- the cell's mark

  /**
   `Cell.toggle_flag`: a hidden cell moves on to the next mark, a revealed
   one keeps its own. Python's `%` by a positive divisor agrees with
   Dafny's on every integer, so no mark ever leaves 0, 1, 2 once in it.
   */
  function ToggleMark(c: Cell): (r: Cell)
    ensures r.(flag := c.flag) == c
    ensures c.revealed ==> r == c
    ensures !c.revealed ==> 0 <= r.flag < 3
  {
    if c.revealed then c else c.(flag := (c.flag + 1) % 3)
  }

  /** Unknown goes to flag, flag to question mark, question mark back to unknown. */
  lemma ToggleMarkCycle(c: Cell)
    requires !c.revealed
    ensures c.flag == 0 ==> ToggleMark(c).flag == 1
    ensures c.flag == 1 ==> ToggleMark(c).flag == 2
    ensures c.flag == 2 ==> ToggleMark(c).flag == 0
  {
  }

  /** Three toggles give back the cell. */
  lemma ToggleMarkThrice(c: Cell)
    requires 0 <= c.flag < 3
    ensures ToggleMark(ToggleMark(ToggleMark(c))) == c
  {
  }

  // ---------------------------------------------------------------- the board

  /**
   The board: `width` is the extent of the first coordinate (the outer
   list of `grid`), `height` that of the second.
   */
  datatype GameBoard = GameBoard(
    width: int,
    height: int,
    mines: int,
    grid: map<Pos, Cell>,
    minesPlaced: bool,
    gameOver: bool,
    cellsRevealed: int)

  function Mines(grid: map<Pos, Cell>): set<Pos> {
    set p | p in grid && grid[p].mine
  }

  function Hidden(grid: map<Pos, Cell>): set<Pos> {
    set p | p in grid && !grid[p].revealed
  }

  /** The revealed cells that are not mines: what `cells_revealed` is meant to count. */
  function Cleared(grid: map<Pos, Cell>): set<Pos> {
    set p | p in grid && grid[p].revealed && !grid[p].mine
  }

  /** A cell for every in-bounds coordinate, and no mine before the first reveal. */
  ghost predicate Valid(b: GameBoard) {
    && (forall p :: p in b.grid <==> InBounds(b.width, b.height, p))
    && (!b.minesPlaced ==> Mines(b.grid) == {})
  }

  /** Every mark is unknown, flag or question mark. */
  ghost predicate Marked(b: GameBoard) {
    forall p :: p in b.grid ==> 0 <= b.grid[p].flag < 3
  }

  /** Every cell that is not a mine holds the number of its mined neighbours. */
  ghost predicate Counted(b: GameBoard) {
    forall p :: p in b.grid && !b.grid[p].mine ==>
      b.grid[p].adjacentMines == Count(Ring(b.width, b.height, p.x, p.y), Mines(b.grid))
  }

  /** What every board built by `NewBoard` and changed only by the board's operations satisfies. */
  ghost predicate Inv(b: GameBoard) {
    && Valid(b) && Marked(b) && Counted(b)
    && 0 < b.width && 0 < b.height && 0 <= b.mines
    && (b.minesPlaced ==> |Mines(b.grid)| == b.mines)
  }

  /** The dimensions and mine count of a difficulty level. */
  datatype Level = Level(width: int, height: int, mines: int)

  /**
   `set_difficulty`: the three named levels, and the `ValueError` for any
   other name. Each level leaves room for its mines outside the first cell.
   */
  function SetDifficulty(difficulty: string): (r: Result<Level>)
    ensures difficulty == "beginner" ==> r == Ok(Level(9, 9, 5))
    ensures difficulty == "intermediate" ==> r == Ok(Level(16, 16, 40))
    ensures difficulty == "advanced" ==> r == Ok(Level(30, 16, 99))
    ensures r.Err? <==> difficulty !in {"beginner", "intermediate", "advanced"}
    ensures r.Err? ==> r.error == InvalidDifficulty
    ensures r.Ok? ==> 0 < r.value.width && 0 < r.value.height && 0 < r.value.mines < r.value.width * r.value.height
  {
    if difficulty == "beginner" then Ok(Level(9, 9, 5))
    else if difficulty == "intermediate" then Ok(Level(16, 16, 40))
    else if difficulty == "advanced" then Ok(Level(30, 16, 99))
    else Err(InvalidDifficulty)
  }

  /** `GameBoard(difficulty)`: a fresh board of the level, or the error of `set_difficulty`. */
  function NewBoard(difficulty: string): (r: Result<GameBoard>)
    ensures r.Err? <==> SetDifficulty(difficulty).Err?
    ensures r.Err? ==> r.error == InvalidDifficulty
    ensures r.Ok? ==> var l := SetDifficulty(difficulty).value;
      && r.value.width == l.width && r.value.height == l.height && r.value.mines == l.mines
      && Valid(r.value) && !r.value.minesPlaced && !r.value.gameOver && r.value.cellsRevealed == 0
      && forall p :: p in r.value.grid ==> r.value.grid[p] == Fresh
  {
    match SetDifficulty(difficulty)
    case Err(e) => Err(e)
    case Ok(l) =>
      var b := GameBoard(l.width, l.height, l.mines, map p | p in AllPositions(l.width, l.height) :: Fresh, false, false, 0);
      assert Mines(b.grid) == {};
      Ok(b)
  }

  /** A fresh board satisfies the invariant. */
  lemma NewBoardInv(difficulty: string)
    requires NewBoard(difficulty).Ok?
    ensures Inv(NewBoard(difficulty).value)
  {
    var b := NewBoard(difficulty).value;
    assert Mines(b.grid) == {};
    forall p | p in b.grid
      ensures Count(Ring(b.width, b.height, p.x, p.y), Mines(b.grid)) == 0
    {
      CountEmpty(Ring(b.width, b.height, p.x, p.y));
    }
  }

  // ---------------------------------------------------------------- mines

  /**
   The mines the `place_mines` loop may lay: as many cells as it counts
   down, none already a mine, none the clicked cell.
   */
  predicate IsPlacement(b: GameBoard, firstX: int, firstY: int, mines: set<Pos>) {
    && mines <= b.grid.Keys - Mines(b.grid) - {Pos(firstX, firstY)}
    && |mines| == Needed(b.mines)
  }

  /** On a board of any level, a placement exists whichever cell is clicked first, so the loop can finish. */
  lemma PlacementExists(difficulty: string, firstX: int, firstY: int)
    requires NewBoard(difficulty).Ok?
    ensures exists mines :: IsPlacement(NewBoard(difficulty).value, firstX, firstY, mines)
  {
    var b := NewBoard(difficulty).value;
    var free := b.grid.Keys - Mines(b.grid) - {Pos(firstX, firstY)};
    assert Mines(b.grid) == {};
    AllPositionsCard(b.width, b.height);
    assert b.grid.Keys == AllPositions(b.width, b.height);
    assert |b.grid.Keys - {Pos(firstX, firstY)}| >= |b.grid.Keys| - 1;
    assert free == b.grid.Keys - {Pos(firstX, firstY)};
    SubsetOfSize(free, Needed(b.mines));
    var t :| t <= free && |t| == Needed(b.mines);
    assert IsPlacement(b, firstX, firstY, t);
  }

  function Lay(grid: map<Pos, Cell>, mines: set<Pos>): (r: map<Pos, Cell>)
    requires mines <= grid.Keys
    ensures r.Keys == grid.Keys && Mines(r) == Mines(grid) + mines
    ensures forall p :: p in grid ==> r[p].(mine := grid[p].mine) == grid[p]
  {
    var r := map p | p in grid :: if p in mines then grid[p].(mine := true) else grid[p];
    assert Mines(r) == Mines(grid) + mines;
    r
  }

  /**
   `calculate_adjacent_mines`: every cell that is not a mine gets the
   number of mined cells among its in-bounds eight neighbours; a mine keeps
   the count it had.
   */
  function CalculateAdjacentMines(b: GameBoard): (r: GameBoard)
    ensures r.(grid := b.grid) == b && r.grid.Keys == b.grid.Keys
    ensures Mines(r.grid) == Mines(b.grid)
    ensures forall p :: p in b.grid ==> r.grid[p].(adjacentMines := b.grid[p].adjacentMines) == b.grid[p]
  {
    b.(grid := RingCounts(b.grid, b.width, b.height))
  }

  /** Each safe cell of `grid` set to its count of mined neighbours on a `width` by `height` board. */
  function RingCounts(grid: map<Pos, Cell>, width: int, height: int): (r: map<Pos, Cell>)
    ensures r.Keys == grid.Keys && Mines(r) == Mines(grid)
    ensures forall p :: p in grid ==> r[p].(adjacentMines := grid[p].adjacentMines) == grid[p]
  {
    var ms := Mines(grid);
    var r := map p | p in grid ::
      if grid[p].mine then grid[p] else grid[p].(adjacentMines := Count(Ring(width, height, p.x, p.y), ms));
    assert Mines(r) == ms;
    r
  }

  /** After the computation every count is right. */
  lemma CalculateAdjacentMinesCounted(b: GameBoard)
    ensures Counted(CalculateAdjacentMines(b))
  {
    var r := CalculateAdjacentMines(b);
    assert Mines(r.grid) == Mines(b.grid);
  }

  /**
   A mine keeps the count it had; any other cell gets the size of the set
   of its mined neighbours, hence at most 8.
   */
  lemma CalculateAdjacentMinesSpec(b: GameBoard, p: Pos)
    requires Valid(b) && p in b.grid
    ensures b.grid[p].mine ==> CalculateAdjacentMines(b).grid[p] == b.grid[p]
    ensures !b.grid[p].mine ==> var n := CalculateAdjacentMines(b).grid[p].adjacentMines;
      n == |Adjacent(Mines(b.grid), p)| && 0 <= n <= 8
  {
    CountRing(b.width, b.height, p.x, p.y, Mines(b.grid));
    RingLength(b.width, b.height, p.x, p.y);
  }

  /**
   `place_mines`: nothing happens once mines are placed; otherwise the
   placement is laid, the board is armed and every count is computed.
   */
  function PlaceMines(b: GameBoard, firstX: int, firstY: int, mines: set<Pos>): (r: GameBoard)
    requires Valid(b)
    requires !b.minesPlaced ==> IsPlacement(b, firstX, firstY, mines)
    ensures Valid(r) && r.minesPlaced && r.width == b.width && r.height == b.height && r.mines == b.mines
    ensures r.gameOver == b.gameOver && r.cellsRevealed == b.cellsRevealed
    ensures b.minesPlaced ==> r == b
  {
    if b.minesPlaced then b
    else CalculateAdjacentMines(b.(grid := Lay(b.grid, mines), minesPlaced := true))
  }

  /**
   Placing on an unarmed board lays exactly the placement, keeps the
   clicked cell safe, leaves every mark and reveal bit alone and makes
   every count right.
   */
  lemma PlaceMinesLays(b: GameBoard, firstX: int, firstY: int, mines: set<Pos>)
    requires Valid(b) && !b.minesPlaced && IsPlacement(b, firstX, firstY, mines)
    ensures var r := PlaceMines(b, firstX, firstY, mines);
      && Mines(r.grid) == mines && |Mines(r.grid)| == Needed(b.mines) && Pos(firstX, firstY) !in Mines(r.grid)
      && Counted(r)
      && forall p :: p in b.grid ==> r.grid[p].revealed == b.grid[p].revealed && r.grid[p].flag == b.grid[p].flag
  {
    CalculateAdjacentMinesCounted(b.(grid := Lay(b.grid, mines), minesPlaced := true));
  }

  /** On a fresh board, whose counts are all 0, every mine still holds 0 after placement. */
  lemma PlaceMinesZero(b: GameBoard, firstX: int, firstY: int, mines: set<Pos>)
    requires Valid(b) && !b.minesPlaced && IsPlacement(b, firstX, firstY, mines)
    requires forall p :: p in b.grid ==> b.grid[p].adjacentMines == 0
    ensures var r := PlaceMines(b, firstX, firstY, mines);
      forall p :: p in r.grid && r.grid[p].mine ==> r.grid[p].adjacentMines == 0
  {
  }

  // ---------------------------------------------------------------- reveal

  /** A cell either stays as it is or, unmarked, becomes revealed. */
  predicate Grows(c: Cell, c': Cell) {
    && c'.mine == c.mine && c'.flag == c.flag && c'.adjacentMines == c.adjacentMines
    && (c.revealed ==> c'.revealed)
    && (c'.revealed && !c.revealed ==> c.flag == 0)
  }

  /** `b'` is `b` with some more unmarked cells revealed and nothing else changed. */
  ghost predicate Uncovers(b: GameBoard, b': GameBoard) {
    && b'.width == b.width && b'.height == b.height && b'.mines == b.mines
    && b'.minesPlaced == b.minesPlaced && b'.gameOver == b.gameOver && b'.cellsRevealed == b.cellsRevealed
    && b'.grid.Keys == b.grid.Keys
    && forall p :: p in b.grid ==> Grows(b.grid[p], b'.grid[p])
  }

  lemma UncoversTrans(a: GameBoard, b: GameBoard, c: GameBoard)
    requires Uncovers(a, b) && Uncovers(b, c)
    ensures Uncovers(a, c)
  {
  }

  lemma UncoversValid(b: GameBoard, b': GameBoard)
    requires Valid(b) && Uncovers(b, b')
    ensures Valid(b') && Mines(b'.grid) == Mines(b.grid)
    ensures Hidden(b'.grid) <= Hidden(b.grid) && |Hidden(b'.grid)| <= |Hidden(b.grid)|
  {
    assert Mines(b'.grid) == Mines(b.grid);
    SubsetCard(Hidden(b'.grid), Hidden(b.grid));
  }

  /** Marks and counts survive any uncovering, so does the invariant. */
  lemma UncoversInv(b: GameBoard, b': GameBoard)
    requires Inv(b) && Uncovers(b, b')
    ensures Inv(b')
  {
    UncoversValid(b, b');
  }

  /** Uncovering keeps every count right, since neither mines nor counts change. */
  lemma UncoversCounted(b: GameBoard, b': GameBoard)
    requires Valid(b) && Counted(b) && Uncovers(b, b')
    ensures Counted(b')
  {
    UncoversValid(b, b');
    forall p | p in b'.grid && !b'.grid[p].mine
      ensures b'.grid[p].adjacentMines == Count(Ring(b'.width, b'.height, p.x, p.y), Mines(b'.grid))
    {
      assert Grows(b.grid[p], b'.grid[p]);
    }
  }

  /** Setting the reveal bit of one hidden, unmarked cell. */
  function Open(b: GameBoard, p: Pos): (r: GameBoard)
    requires Valid(b) && p in b.grid && !b.grid[p].revealed && b.grid[p].flag == 0
    ensures Valid(r) && Uncovers(b, r) && r.grid[p].revealed
    ensures |Hidden(r.grid)| < |Hidden(b.grid)|
  {
    var r := b.(grid := b.grid[p := b.grid[p].(revealed := true)]);
    assert Hidden(r.grid) == Hidden(b.grid) - {p};
    UncoversValid(b, r);
    r
  }

  /**
   `Cell.reveal`: a revealed or marked cell answers "Continue" untouched;
   any other is revealed, answers "Game Over" when it is a mine, and
   otherwise floods its neighbours when its count is zero.
   */
  function Reveal(b: GameBoard, p: Pos): (r: (GameBoard, string))
    requires Valid(b) && p in b.grid
    ensures Valid(r.0) && Uncovers(b, r.0)
    decreases |Hidden(b.grid)|, 0
  {
    var c := b.grid[p];
    if c.revealed || c.flag != 0 then (b, Continue)
    else
      var b1 := Open(b, p);
      if c.mine then (b1, GameOver)
      else if c.adjacentMines == 0 then
        var b2 := RevealAdjacent(b1, p);
        UncoversTrans(b, b1, b2);
        (b2, Continue)
      else (b1, Continue)
  }

  /** `Cell.reveal_adjacent`: `reveal` on each in-bounds neighbour in loop order, answers ignored. */
  function RevealAdjacent(b: GameBoard, p: Pos): (r: GameBoard)
    requires Valid(b)
    ensures Valid(r) && Uncovers(b, r)
    decreases |Hidden(b.grid)|, 2
  {
    RevealAdjacentFrom(b, Ring(b.width, b.height, p.x, p.y), 0)
  }

  /** The neighbour loop from its `i`-th neighbour on. */
  function RevealAdjacentFrom(b: GameBoard, ps: seq<Pos>, i: nat): (r: GameBoard)
    requires Valid(b) && i <= |ps|
    requires forall n :: n in ps ==> n in b.grid
    ensures Valid(r) && Uncovers(b, r)
    decreases |Hidden(b.grid)|, 1, |ps| - i
  {
    if i == |ps| then b
    else
      var b1 := Reveal(b, ps[i]).0;
      UncoversValid(b, b1);
      var r := RevealAdjacentFrom(b1, ps, i + 1);
      UncoversTrans(b, b1, r);
      r
  }

  /** A revealed or marked cell answers "Continue" and the board is untouched. */
  lemma RevealRefuses(b: GameBoard, p: Pos)
    requires Valid(b) && p in b.grid && (b.grid[p].revealed || b.grid[p].flag != 0)
    ensures Reveal(b, p) == (b, Continue)
  {
  }

  /**
   Any other cell ends revealed, and the answer is "Game Over" exactly when
   it is a mine, in which case nothing else is uncovered.
   */
  lemma RevealOpens(b: GameBoard, p: Pos)
    requires Valid(b) && p in b.grid && !b.grid[p].revealed && b.grid[p].flag == 0
    ensures Reveal(b, p).0.grid[p].revealed
    ensures Reveal(b, p).1 == (if b.grid[p].mine then GameOver else Continue)
  {
  }

  lemma RevealMineStops(b: GameBoard, p: Pos)
    requires Valid(b) && p in b.grid && !b.grid[p].revealed && b.grid[p].flag == 0 && b.grid[p].mine
    ensures Hidden(Reveal(b, p).0.grid) == Hidden(b.grid) - {p}
  {
    assert Hidden(Open(b, p).grid) == Hidden(b.grid) - {p};
  }

  /** No mine is uncovered between `b` and `b'`, except perhaps `p`. */
  ghost predicate SafeBut(b: GameBoard, b': GameBoard, p: Pos) {
    forall q :: q in b.grid && q in b'.grid && q != p && !b.grid[q].revealed && b'.grid[q].revealed ==> !b.grid[q].mine
  }

  /** No mine at all is uncovered between `b` and `b'`. */
  ghost predicate Safe(b: GameBoard, b': GameBoard) {
    forall q :: q in b.grid && q in b'.grid && !b.grid[q].revealed && b'.grid[q].revealed ==> !b.grid[q].mine
  }

  /** A board with the right counts, and cells of it none of which is a mine. */
  ghost predicate SafeCells(b: GameBoard, ps: seq<Pos>) {
    && Valid(b) && Counted(b)
    && forall n :: n in ps ==> n in b.grid && !b.grid[n].mine
  }

  /** The neighbours of a cell counted zero are not mines. */
  lemma ZeroRingSafe(b: GameBoard, p: Pos)
    requires Valid(b) && Counted(b) && p in b.grid && !b.grid[p].mine && b.grid[p].adjacentMines == 0
    ensures SafeCells(b, Ring(b.width, b.height, p.x, p.y))
  {
    var ps := Ring(b.width, b.height, p.x, p.y);
    CountZero(ps, Mines(b.grid));
    forall n | n in ps
      ensures !b.grid[n].mine
    {
      var k :| 0 <= k < |ps| && ps[k] == n;
    }
  }

  /** A hidden, unmarked, safe cell counted zero is revealed and floods its neighbours. */
  lemma RevealFloods(b: GameBoard, p: Pos)
    requires Valid(b) && p in b.grid
    requires var c := b.grid[p]; !c.revealed && c.flag == 0 && !c.mine && c.adjacentMines == 0
    ensures Reveal(b, p).0 == RevealAdjacent(Open(b, p), p)
  {
  }

  lemma RevealAdjacentFromStep(b: GameBoard, ps: seq<Pos>, i: nat)
    requires Valid(b) && i < |ps| && forall n :: n in ps ==> n in b.grid
    ensures RevealAdjacentFrom(b, ps, i) == RevealAdjacentFrom(Reveal(b, ps[i]).0, ps, i + 1)
  {
  }

  /**
   The flood never uncovers a mine: on a board whose counts are right,
   every cell `reveal` uncovers apart from the one clicked is safe.
   */
  lemma {:induction false} RevealSafe(b: GameBoard, p: Pos)
    requires Valid(b) && Counted(b) && p in b.grid
    ensures SafeBut(b, Reveal(b, p).0, p)
    decreases |Hidden(b.grid)|, 0
  {
    var c := b.grid[p];
    if !c.revealed && c.flag == 0 && !c.mine && c.adjacentMines == 0 {
      var b1 := Open(b, p);
      UncoversCounted(b, b1);
      ZeroRingSafe(b1, p);
      RevealAdjacentFromSafe(b1, Ring(b.width, b.height, p.x, p.y), 0);
      RevealFloods(b, p);
    } else if !c.revealed && c.flag == 0 {
      assert Reveal(b, p).0 == Open(b, p);
    }
  }

  lemma {:induction false} RevealAdjacentFromSafe(b: GameBoard, ps: seq<Pos>, i: nat)
    requires i <= |ps| && SafeCells(b, ps)
    ensures Safe(b, RevealAdjacentFrom(b, ps, i))
    decreases |Hidden(b.grid)|, 1, |ps| - i
  {
    if i < |ps| {
      var b1 := Reveal(b, ps[i]).0;
      RevealSafe(b, ps[i]);
      UncoversValid(b, b1);
      UncoversCounted(b, b1);
      RevealAdjacentFromSafe(b1, ps, i + 1);
      RevealAdjacentFromStep(b, ps, i);
    }
  }

  /** After the flood from a zero cell, each of its neighbours is revealed unless it is marked. */
  lemma RevealSweeps(b: GameBoard, p: Pos)
    requires Valid(b) && p in b.grid
    requires var c := b.grid[p]; !c.revealed && c.flag == 0 && !c.mine && c.adjacentMines == 0
    ensures forall n :: n in Ring(b.width, b.height, p.x, p.y) && b.grid[n].flag == 0 ==> Reveal(b, p).0.grid[n].revealed
  {
    var b1 := Open(b, p);
    UncoversValid(b, b1);
    var ps := Ring(b.width, b.height, p.x, p.y);
    RevealAdjacentFromSweeps(b1, ps, 0);
  }

  lemma {:induction false} RevealAdjacentFromSweeps(b: GameBoard, ps: seq<Pos>, i: nat)
    requires Valid(b) && i <= |ps|
    requires forall n :: n in ps ==> n in b.grid
    ensures forall k :: i <= k < |ps| && b.grid[ps[k]].flag == 0 ==> RevealAdjacentFrom(b, ps, i).grid[ps[k]].revealed
    decreases |ps| - i
  {
    if i < |ps| {
      var b1 := Reveal(b, ps[i]).0;
      if !b.grid[ps[i]].revealed && b.grid[ps[i]].flag == 0 {
        RevealOpens(b, ps[i]);
      }
      UncoversValid(b, b1);
      RevealAdjacentFromSweeps(b1, ps, i + 1);
    }
  }

  /** Every unmarked neighbour of `q` is revealed: a flood that reached `q` is closed there. */
  ghost predicate Settled(b: GameBoard, q: Pos) {
    forall n :: n in b.grid && Near(n, q) && n != q && b.grid[n].flag == 0 ==> b.grid[n].revealed
  }

  /** `q` went from hidden to revealed between `b` and `b'`, and is a safe cell counted zero: the flood spreads from it. */
  ghost predicate Spreads(b: GameBoard, b': GameBoard, q: Pos) {
    && q in b.grid && q in b'.grid && !b.grid[q].revealed && b'.grid[q].revealed
    && !b.grid[q].mine && b.grid[q].adjacentMines == 0
  }

  /** Every cell the flood spread from has all its unmarked neighbours revealed. */
  ghost predicate Closed(b: GameBoard, b': GameBoard) {
    forall q :: Spreads(b, b', q) ==> Settled(b', q)
  }

  /** The flood could spread from `q`: it is hidden, unmarked, safe and counted zero. */
  ghost predicate Spreading(b: GameBoard, q: Pos) {
    q in b.grid && !b.grid[q].revealed && b.grid[q].flag == 0 && !b.grid[q].mine && b.grid[q].adjacentMines == 0
  }

  /** With each cell the flood could spread from, `s` holds all its neighbours. */
  ghost predicate ZeroClosed(b: GameBoard, s: set<Pos>) {
    forall q, n :: q in s && Spreading(b, q) && n in b.grid && Near(n, q) ==> n in s
  }

  /** Every cell uncovered between `b` and `b'` lies in `s`. */
  ghost predicate Within(b: GameBoard, b': GameBoard, s: set<Pos>) {
    forall q :: q in b.grid && q in b'.grid && !b.grid[q].revealed && b'.grid[q].revealed ==> q in s
  }

  lemma SettledCarry(b: GameBoard, b': GameBoard, q: Pos)
    requires Uncovers(b, b') && Settled(b, q)
    ensures Settled(b', q)
  {
    forall n | n in b'.grid && Near(n, q) && n != q && b'.grid[n].flag == 0
      ensures b'.grid[n].revealed
    {
      assert Grows(b.grid[n], b'.grid[n]);
    }
  }

  lemma ClosedTrans(a: GameBoard, b: GameBoard, c: GameBoard)
    requires Uncovers(a, b) && Uncovers(b, c) && Closed(a, b) && Closed(b, c)
    ensures Closed(a, c)
  {
    forall q | Spreads(a, c, q)
      ensures Settled(c, q)
    {
      assert Grows(a.grid[q], b.grid[q]);
      if b.grid[q].revealed {
        assert Spreads(a, b, q);
        SettledCarry(b, c, q);
      } else {
        assert Spreads(b, c, q);
      }
    }
  }

  /** Uncovering cells only removes cells the flood could spread from. */
  lemma ZeroClosedCarry(b: GameBoard, b': GameBoard, s: set<Pos>)
    requires Uncovers(b, b') && ZeroClosed(b, s)
    ensures ZeroClosed(b', s)
  {
    forall q, n | q in s && Spreading(b', q) && n in b'.grid && Near(n, q)
      ensures n in s
    {
      assert Grows(b.grid[q], b'.grid[q]);
      assert Spreading(b, q);
    }
  }

  lemma WithinTrans(a: GameBoard, b: GameBoard, c: GameBoard, s: set<Pos>)
    requires Uncovers(a, b) && Uncovers(b, c) && Within(a, b, s) && Within(b, c, s)
    ensures Within(a, c, s)
  {
    forall q | q in a.grid && q in c.grid && !a.grid[q].revealed && c.grid[q].revealed
      ensures q in s
    {
      assert Grows(a.grid[q], b.grid[q]);
    }
  }

  /**
   The flood is closed: every safe cell counted zero that a reveal uncovers
   has all its unmarked neighbours revealed, however far the flood went.
   */
  lemma {:induction false} RevealClosed(b: GameBoard, p: Pos)
    requires Valid(b) && p in b.grid
    ensures Closed(b, Reveal(b, p).0)
    decreases |Hidden(b.grid)|, 0
  {
    var c := b.grid[p];
    if !c.revealed && c.flag == 0 && !c.mine && c.adjacentMines == 0 {
      var b1 := Open(b, p);
      var ps := Ring(b.width, b.height, p.x, p.y);
      var r := RevealAdjacentFrom(b1, ps, 0);
      RevealAdjacentFromClosed(b1, ps, 0);
      RevealFloods(b, p);
      RevealSweeps(b, p);
      forall q | Spreads(b, r, q)
        ensures Settled(r, q)
      {
        if q == p {
          forall n | n in r.grid && Near(n, p) && n != p && r.grid[n].flag == 0
            ensures r.grid[n].revealed
          {
            assert n in ps;
            assert Grows(b.grid[n], r.grid[n]);
          }
        } else {
          assert Spreads(b1, r, q);
        }
      }
    } else if !c.revealed && c.flag == 0 {
      assert Reveal(b, p).0 == Open(b, p);
    }
  }

  lemma {:induction false} RevealAdjacentFromClosed(b: GameBoard, ps: seq<Pos>, i: nat)
    requires Valid(b) && i <= |ps| && forall n :: n in ps ==> n in b.grid
    ensures Closed(b, RevealAdjacentFrom(b, ps, i))
    decreases |Hidden(b.grid)|, 1, |ps| - i
  {
    if i < |ps| {
      var b1 := Reveal(b, ps[i]).0;
      RevealClosed(b, ps[i]);
      UncoversValid(b, b1);
      RevealAdjacentFromClosed(b1, ps, i + 1);
      RevealAdjacentFromStep(b, ps, i);
      ClosedTrans(b, b1, RevealAdjacentFrom(b1, ps, i + 1));
    }
  }

  /**
   The flood is confined: a reveal uncovers only cells of `s`, for every
   set `s` that holds the clicked cell and, with each cell the flood could
   spread from, all its neighbours. The least such set is the clicked cell
   together with the cells reachable from it through hidden, unmarked, safe
   cells counted zero, and their neighbours; so the flood reaches nothing
   cut off from the click and does not pass a marked cell.
   */
  lemma {:induction false} RevealWithin(b: GameBoard, p: Pos, s: set<Pos>)
    requires Valid(b) && p in b.grid && p in s && ZeroClosed(b, s)
    ensures Within(b, Reveal(b, p).0, s)
    decreases |Hidden(b.grid)|, 0
  {
    var c := b.grid[p];
    if !c.revealed && c.flag == 0 && !c.mine && c.adjacentMines == 0 {
      var b1 := Open(b, p);
      var ps := Ring(b.width, b.height, p.x, p.y);
      assert Spreading(b, p);
      ZeroClosedCarry(b, b1, s);
      RevealAdjacentFromWithin(b1, ps, 0, s);
      RevealFloods(b, p);
      var r := RevealAdjacentFrom(b1, ps, 0);
      forall q | q in b.grid && q in r.grid && !b.grid[q].revealed && r.grid[q].revealed
        ensures q in s
      {
        if q != p {
          assert b1.grid[q] == b.grid[q];
        }
      }
    } else if !c.revealed && c.flag == 0 {
      assert Reveal(b, p).0 == Open(b, p);
    }
  }

  lemma {:induction false} RevealAdjacentFromWithin(b: GameBoard, ps: seq<Pos>, i: nat, s: set<Pos>)
    requires Valid(b) && i <= |ps| && forall n :: n in ps ==> n in b.grid && n in s
    requires ZeroClosed(b, s)
    ensures Within(b, RevealAdjacentFrom(b, ps, i), s)
    decreases |Hidden(b.grid)|, 1, |ps| - i
  {
    if i < |ps| {
      var b1 := Reveal(b, ps[i]).0;
      RevealWithin(b, ps[i], s);
      UncoversValid(b, b1);
      ZeroClosedCarry(b, b1, s);
      RevealAdjacentFromWithin(b1, ps, i + 1, s);
      RevealAdjacentFromStep(b, ps, i);
      WithinTrans(b, b1, RevealAdjacentFrom(b1, ps, i + 1), s);
    }
  }

  // ---------------------------------------------------------------- the board's operations

  /** `check_victory`: the counter has reached the number of cells that are not mines. */
  predicate CheckVictory(b: GameBoard) {
    b.cellsRevealed >= b.width * b.height - b.mines
  }

  /** The same cells on a board of the same shape; only the game flag and the counter may differ. */
  predicate SameGrid(b: GameBoard, b': GameBoard) {
    && b'.grid == b.grid && b'.width == b.width && b'.height == b.height
    && b'.mines == b.mines && b'.minesPlaced == b.minesPlaced
  }

  lemma SameGridInv(b: GameBoard, b': GameBoard)
    requires Inv(b) && SameGrid(b, b')
    ensures Inv(b')
  {
  }

  /**
   The bookkeeping of `reveal_cell` once `cell.reveal` has answered
   `result` on board `b`, as written: a mine ends the game; anything else
   adds one to the counter, whatever the reveal uncovered, and wins once
   the counter reaches the number of safe cells.
   */
  function Conclude(b: GameBoard, result: string): (r: (GameBoard, string))
    ensures SameGrid(b, r.0)
  {
    if result == GameOver then (b.(gameOver := true), HitMine)
    else
      var b3 := b.(cellsRevealed := b.cellsRevealed + 1);
      if CheckVictory(b3) then (b3.(gameOver := true), Won) else (b3, Continue)
  }

  /**
   `reveal_cell`: refuses once the game is over, lays the mines on the
   first call, reveals the cell and concludes.
   */
  function RevealCell(b: GameBoard, p: Pos, mines: set<Pos>): (r: (GameBoard, string))
    requires Valid(b) && p in b.grid
    requires !b.gameOver && !b.minesPlaced ==> IsPlacement(b, p.x, p.y, mines)
    ensures Valid(r.0) && r.0.grid.Keys == b.grid.Keys
  {
    if b.gameOver then (b, AlreadyOver)
    else
      var a := PlaceMines(b, p.x, p.y, mines);
      var rv := Reveal(a, p);
      UncoversValid(a, rv.0);
      Conclude(rv.0, rv.1)
  }

  /** Once the game is over, `reveal_cell` answers so and changes nothing. */
  lemma RevealCellOver(b: GameBoard, p: Pos, mines: set<Pos>)
    requires Valid(b) && p in b.grid && b.gameOver
    ensures RevealCell(b, p, mines) == (b, AlreadyOver)
  {
  }

  lemma Answers()
    ensures Continue != GameOver && HitMine != Continue && Won != Continue && Won != HitMine
    ensures AlreadyOver != Continue && AlreadyOver != HitMine && AlreadyOver != Won
  {
    assert Continue[0] != GameOver[1];
    assert HitMine[0] != Continue[0] && Won[0] != Continue[1] && Won[0] != HitMine[0];
    assert AlreadyOver[0] != Continue[0] && AlreadyOver[0] != HitMine[0] && AlreadyOver[0] != Won[0];
  }

  /**
   The answers of the bookkeeping: a mine answer ends the game unchanged in
   count; every other answer adds one to the counter; the game is over
   afterwards exactly when the answer is not "Continue", and the answer is
   a win exactly when the raised counter reaches the number of safe cells.
   */
  lemma ConcludeSpec(b: GameBoard, result: string)
    requires !b.gameOver
    ensures var r := Conclude(b, result);
      && (r.1 == HitMine <==> result == GameOver)
      && (r.1 == HitMine || r.1 == Won || r.1 == Continue)
      && r.0.cellsRevealed == (if r.1 == HitMine then b.cellsRevealed else b.cellsRevealed + 1)
      && (r.0.gameOver <==> r.1 != Continue)
      && (r.1 == Won <==> result != GameOver && b.cellsRevealed + 1 >= b.width * b.height - b.mines)
  {
    Answers();
  }

  /**
   A mine is hit exactly when the clicked cell was hidden, unmarked and
   (after placement) mined, which never happens on the first click.
   */
  lemma RevealCellOutcome(b: GameBoard, p: Pos, mines: set<Pos>)
    requires Valid(b) && p in b.grid && !b.gameOver
    requires !b.minesPlaced ==> IsPlacement(b, p.x, p.y, mines)
    ensures var a, r := PlaceMines(b, p.x, p.y, mines), RevealCell(b, p, mines);
      && (r.1 == HitMine <==> !b.grid[p].revealed && b.grid[p].flag == 0 && a.grid[p].mine)
      && (!b.minesPlaced ==> r.1 != HitMine)
      && r == Conclude(Reveal(a, p).0, Reveal(a, p).1)
  {
    var a := PlaceMines(b, p.x, p.y, mines);
    if !b.minesPlaced {
      PlaceMinesLays(b, p.x, p.y, mines);
    }
    Answers();
    if !a.grid[p].revealed && a.grid[p].flag == 0 {
      RevealOpens(a, p);
    } else {
      RevealRefuses(a, p);
    }
    ConcludeSpec(Reveal(a, p).0, Reveal(a, p).1);
  }

  /** The board `reveal_cell` leaves is the armed board with more unmarked cells revealed, none but `p` a mine. */
  lemma RevealCellSafe(b: GameBoard, p: Pos, mines: set<Pos>)
    requires Inv(b) && p in b.grid && !b.gameOver
    requires !b.minesPlaced ==> IsPlacement(b, p.x, p.y, mines)
    ensures var a, r := PlaceMines(b, p.x, p.y, mines), RevealCell(b, p, mines).0;
      && r.grid.Keys == a.grid.Keys
      && (forall q :: q in a.grid ==> Grows(a.grid[q], r.grid[q]))
      && SafeBut(a, r, p)
  {
    var a := PlaceMines(b, p.x, p.y, mines);
    if !b.minesPlaced {
      PlaceMinesLays(b, p.x, p.y, mines);
    }
    RevealSafe(a, p);
    assert RevealCell(b, p, mines).0.grid == Reveal(a, p).0.grid;
  }

  /** Every call of `reveal_cell` keeps the invariant. */
  lemma RevealCellInv(b: GameBoard, p: Pos, mines: set<Pos>)
    requires Inv(b) && p in b.grid
    requires !b.gameOver && !b.minesPlaced ==> IsPlacement(b, p.x, p.y, mines)
    ensures Inv(RevealCell(b, p, mines).0)
  {
    if !b.gameOver {
      var a := PlaceMines(b, p.x, p.y, mines);
      if !b.minesPlaced {
        PlaceMinesLays(b, p.x, p.y, mines);
      }
      var rv := Reveal(a, p);
      UncoversInv(a, rv.0);
      SameGridInv(rv.0, Conclude(rv.0, rv.1).0);
    }
  }

  /**
   Clicking a cell that is already revealed changes no cell and still adds
   one to the counter, so enough clicks on it win the game while safe cells
   are still hidden.
   */
  lemma RevealCellRecounts(b: GameBoard, p: Pos, mines: set<Pos>)
    requires Valid(b) && p in b.grid && b.minesPlaced && !b.gameOver && b.grid[p].revealed
    ensures var r := RevealCell(b, p, mines);
      && r.0.grid == b.grid && r.0.cellsRevealed == b.cellsRevealed + 1
      && (r.1 == Won <==> b.cellsRevealed + 1 >= b.width * b.height - b.mines)
      && (r.1 != Won ==> r.0 == b.(cellsRevealed := b.cellsRevealed + 1) && r.1 == Continue)
  {
    RevealRefuses(b, p);
    ConcludeSpec(b, Continue);
    Answers();
  }

  /** `k` more clicks on the same revealed cell. */
  function ClickAgain(b: GameBoard, p: Pos, k: nat): (r: (GameBoard, string))
    requires Valid(b) && p in b.grid && b.minesPlaced && b.grid[p].revealed
    ensures Valid(r.0) && r.0.grid == b.grid && r.0.minesPlaced
    ensures r.0.width == b.width && r.0.height == b.height && r.0.mines == b.mines
  {
    if k == 0 then (b, Continue)
    else
      var prev := ClickAgain(b, p, k - 1);
      if prev.0.gameOver then prev
      else
        RevealCellRecounts(prev.0, p, {});
        RevealCell(prev.0, p, {})
  }

  /**
   From a running game whose counter is at `c`, clicking one revealed cell
   `w * h - mines - c` times answers "Congratulations! You won!", and the
   cells are just as they were: a hidden safe cell stays hidden.
   */
  lemma {:induction false} ClickAgainWins(b: GameBoard, p: Pos, k: nat)
    requires Valid(b) && p in b.grid && b.minesPlaced && !b.gameOver && b.grid[p].revealed
    requires 0 < k && b.cellsRevealed + k == b.width * b.height - b.mines
    ensures ClickAgain(b, p, k).1 == Won && ClickAgain(b, p, k).0.grid == b.grid
  {
    ClickAgainCounts(b, p, k - 1);
    var prev := ClickAgain(b, p, k - 1);
    RevealCellRecounts(prev.0, p, {});
    assert ClickAgain(b, p, k) == RevealCell(prev.0, p, {});
  }

  /** Fewer clicks than that leave the game running with the counter raised by one each. */
  lemma {:induction false} ClickAgainCounts(b: GameBoard, p: Pos, k: nat)
    requires Valid(b) && p in b.grid && b.minesPlaced && !b.gameOver && b.grid[p].revealed
    requires b.cellsRevealed + k < b.width * b.height - b.mines
    ensures var r := ClickAgain(b, p, k); !r.0.gameOver && r.0.cellsRevealed == b.cellsRevealed + k && r.1 == Continue
  {
    if k > 0 {
      ClickAgainCounts(b, p, k - 1);
      var prev := ClickAgain(b, p, k - 1);
      RevealCellRecounts(prev.0, p, {});
      assert ClickAgain(b, p, k) == RevealCell(prev.0, p, {});
    }
  }

  /**
   The bookkeeping `cells_revealed` evidently intends: the counter is the
   number of revealed cells that are not mines, so a flood counts every
   cell it uncovers and a click on a revealed cell counts nothing.
   */
  function ConcludeTallied(b: GameBoard, result: string): (r: (GameBoard, string))
    ensures SameGrid(b, r.0)
    ensures result != GameOver ==> r.0.cellsRevealed == |Cleared(b.grid)|
  {
    if result == GameOver then (b.(gameOver := true), HitMine)
    else
      var b3 := b.(cellsRevealed := |Cleared(b.grid)|);
      if CheckVictory(b3) then (b3.(gameOver := true), Won) else (b3, Continue)
  }

  /** `reveal_cell` with the intended counter. */
  function RevealCellTallied(b: GameBoard, p: Pos, mines: set<Pos>): (r: (GameBoard, string))
    requires Valid(b) && p in b.grid
    requires !b.gameOver && !b.minesPlaced ==> IsPlacement(b, p.x, p.y, mines)
    ensures Valid(r.0) && r.0.grid.Keys == b.grid.Keys
  {
    if b.gameOver then (b, AlreadyOver)
    else
      var a := PlaceMines(b, p.x, p.y, mines);
      var rv := Reveal(a, p);
      UncoversValid(a, rv.0);
      ConcludeTallied(rv.0, rv.1)
  }

  /** Every cell that is not a mine is revealed. */
  ghost predicate AllCleared(b: GameBoard) {
    forall q :: q in b.grid && !b.grid[q].mine ==> b.grid[q].revealed
  }

  /** Once mines are laid, counting the cleared cells up to the number of safe cells means all are cleared. */
  lemma ClearedCount(b: GameBoard)
    requires Valid(b) && 0 < b.width && 0 < b.height && |Mines(b.grid)| == b.mines
    ensures |Cleared(b.grid)| >= b.width * b.height - b.mines <==> AllCleared(b)
  {
    var safe := b.grid.Keys - Mines(b.grid);
    SafeCount(b);
    if |Cleared(b.grid)| >= |safe| && !AllCleared(b) {
      var q :| q in b.grid && !b.grid[q].mine && !b.grid[q].revealed;
      forall x | x in Cleared(b.grid)
        ensures x in safe - {q}
      {
      }
      SubsetCard(Cleared(b.grid), safe - {q});
    }
    if AllCleared(b) {
      assert Cleared(b.grid) == safe;
    }
  }

  /** A board with its mines laid has `w * h - mines` safe cells. */
  lemma SafeCount(b: GameBoard)
    requires Valid(b) && 0 < b.width && 0 < b.height && |Mines(b.grid)| == b.mines
    ensures |b.grid.Keys - Mines(b.grid)| == b.width * b.height - b.mines
  {
    var safe := b.grid.Keys - Mines(b.grid);
    AllPositionsCard(b.width, b.height);
    assert b.grid.Keys == AllPositions(b.width, b.height);
    assert b.grid.Keys == safe + Mines(b.grid);
    assert safe !! Mines(b.grid);
  }

  /**
   With the intended counter, the bookkeeping answers "Congratulations! You
   won!" exactly when no mine was hit and every safe cell is revealed.
   */
  lemma ConcludeTalliedWins(b: GameBoard, result: string)
    requires Valid(b) && 0 < b.width && 0 < b.height && |Mines(b.grid)| == b.mines
    ensures var r := ConcludeTallied(b, result);
      r.1 == Won <==> result != GameOver && AllCleared(b)
  {
    ClearedCount(b);
    Answers();
  }

  /**
   With the intended counter, `reveal_cell` answers "Congratulations! You
   won!" exactly when the reveal hit no mine and left every safe cell
   revealed.
   */
  lemma RevealCellTalliedWins(b: GameBoard, p: Pos, mines: set<Pos>)
    requires Inv(b) && p in b.grid && !b.gameOver
    requires !b.minesPlaced ==> IsPlacement(b, p.x, p.y, mines)
    ensures var r := RevealCellTallied(b, p, mines);
      r.1 == Won <==> r.1 != HitMine && AllCleared(r.0)
  {
    var a := PlaceMines(b, p.x, p.y, mines);
    if !b.minesPlaced {
      PlaceMinesLays(b, p.x, p.y, mines);
    }
    var rv := Reveal(a, p);
    UncoversValid(a, rv.0);
    ConcludeTalliedWins(rv.0, rv.1);
    Answers();
  }

  /** `toggle_flag`: the next mark on a hidden cell while the game is on; otherwise nothing. */
  function ToggleFlag(b: GameBoard, p: Pos): (r: GameBoard)
    requires p in b.grid
    ensures r.(grid := b.grid) == b && r.grid.Keys == b.grid.Keys
    ensures forall q :: q in b.grid && q != p ==> r.grid[q] == b.grid[q]
    ensures b.gameOver ==> r == b
  {
    if !b.gameOver && !b.grid[p].revealed then b.(grid := b.grid[p := ToggleMark(b.grid[p])]) else b
  }

  /** While the game is on, the clicked cell gets the next mark. */
  lemma ToggleFlagNext(b: GameBoard, p: Pos)
    requires p in b.grid && !b.gameOver
    ensures ToggleFlag(b, p).grid[p] == ToggleMark(b.grid[p])
  {
  }

  /** Toggling keeps the invariant. */
  lemma ToggleFlagInv(b: GameBoard, p: Pos)
    requires Inv(b) && p in b.grid
    ensures Inv(ToggleFlag(b, p))
  {
    var r := ToggleFlag(b, p);
    assert Mines(r.grid) == Mines(b.grid);
  }

  /** Three toggles of a cell with a proper mark give the board back. */
  lemma ToggleFlagThrice(b: GameBoard, p: Pos)
    requires p in b.grid && 0 <= b.grid[p].flag < 3
    ensures ToggleFlag(ToggleFlag(ToggleFlag(b, p), p), p) == b
  {
    ToggleMarkThrice(b.grid[p]);
    var r := ToggleFlag(ToggleFlag(ToggleFlag(b, p), p), p);
    assert r.grid == b.grid;
  }

  // ---------------------------------------------------------------- display

  function Digit(d: nat): char
    requires d < 10
  {
    ('0' as int + d) as char
  }

  /** `str` of a natural number: its decimal digits, most significant first. */
  function Decimal(n: nat): (r: string)
    ensures 1 <= |r|
    ensures forall i :: 0 <= i < |r| ==> '0' <= r[i] <= '9'
    ensures n > 0 ==> r[0] != '0'
  {
    if n < 10 then [Digit(n)] else Decimal(n / 10) + [Digit(n % 10)]
  }

  /** The number a string of decimal digits denotes. */
  function Value(s: string): int
    requires forall i :: 0 <= i < |s| ==> '0' <= s[i] <= '9'
  {
    if |s| == 0 then 0 else 10 * Value(s[..|s| - 1]) + (s[|s| - 1] - '0') as int
  }

  /** Reading back `str(n)` gives `n`. */
  lemma {:induction false} DecimalValue(n: nat)
    ensures Value(Decimal(n)) == n
  {
    if n >= 10 {
      DecimalValue(n / 10);
      var r := Decimal(n);
      assert r[..|r| - 1] == Decimal(n / 10);
      assert (r[|r| - 1] - '0') as int == n % 10;
      assert n == 10 * (n / 10) + n % 10;
    }
  }

  /** A digit string without a leading zero denotes a positive number... */
  lemma {:induction false} ValuePositive(s: string)
    requires 1 <= |s| && s[0] != '0' && forall i :: 0 <= i < |s| ==> '0' <= s[i] <= '9'
    ensures Value(s) >= 1
  {
    if |s| > 1 {
      ValuePositive(s[..|s| - 1]);
    }
  }

  /** ...and is the one spelling `str` gives it: the decimal form is unique. */
  lemma {:induction false} DecimalUnique(s: string)
    requires 1 <= |s| && s[0] != '0' && forall i :: 0 <= i < |s| ==> '0' <= s[i] <= '9'
    ensures Value(s) >= 0 && s == Decimal(Value(s))
  {
    var d := (s[|s| - 1] - '0') as int;
    if |s| == 1 {
      assert Value(s) == 10 * Value(s[..0]) + d;
      assert Digit(d) == s[0];
    } else {
      var t := s[..|s| - 1];
      ValuePositive(t);
      DecimalUnique(t);
      var n := Value(s);
      assert n == 10 * Value(t) + d && 0 <= d < 10;
      assert n / 10 == Value(t) && n % 10 == d;
      assert Digit(d) == s[|s| - 1];
      assert s == t + [s[|s| - 1]];
    }
  }

  /**
   `get_cell_state`: "M" for a revealed mine, the count for a revealed
   cell with mined neighbours, a blank for one without, "F" and "?" for the
   two marks and "#" for any other hidden cell.
   */
  function GetCellState(b: GameBoard, p: Pos): (r: string)
    requires p in b.grid
    ensures var c := b.grid[p];
      && (r == "M" <==> c.revealed && c.mine)
      && (r == " " <==> c.revealed && !c.mine && c.adjacentMines <= 0)
      && (r == "F" <==> !c.revealed && c.flag == 1)
      && (r == "?" <==> !c.revealed && c.flag == 2)
      && (r == "#" <==> !c.revealed && c.flag != 1 && c.flag != 2)
      && (c.revealed && !c.mine && c.adjacentMines > 0 ==>
            && 1 <= |r| && r[0] != '0'
            && (forall i :: 0 <= i < |r| ==> '0' <= r[i] <= '9')
            && Value(r) == c.adjacentMines)
  {
    var c := b.grid[p];
    if c.revealed then
      if c.mine then "M"
      else if c.adjacentMines > 0 then
        DecimalValue(c.adjacentMines);
        Decimal(c.adjacentMines)
      else " "
    else if c.flag == 1 then "F"
    else if c.flag == 2 then "?"
    else "#"
  }
}
