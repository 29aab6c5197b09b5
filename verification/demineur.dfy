/**
 The window engine's board logic (frontend.py, `Case` and `Demineur`
 without their widgets): mines are laid when the board is built, as the
 first cells of a shuffled list of all positions; clicking a mine ends the
 game; clicking any other cell reveals it and floods through the clipped
 3x3 window of every zero-count cell it reveals.

 The shuffle becomes a caller-supplied permutation `order`; the timer and
 every widget update are left out.
 */
module Demineur {
  import opened Neighbourhood
  import opened Wrappers

  /** `Case`: `flagged` is 0 (nothing), 1 (flag) or 2 (question mark). */
  datatype Case = Case(mine: bool, revealed: bool, flagged: int, minesVoisines: int)

  const Fresh := Case(false, false, 0, 0)

  /** `Case.reveler`. */
  function Reveler(c: Case): (r: Case)
    ensures r.revealed && r.(revealed := c.revealed) == c
  {
    c.(revealed := true)
  }

  /**
   `Case.basculer_drapeau`: the next mark, with no check that the cell is
   hidden. Python's `%` by a positive divisor agrees with Dafny's.
   */
  function BasculerDrapeau(c: Case): (r: Case)
    ensures r.(flagged := c.flagged) == c && 0 <= r.flagged < 3
  {
    c.(flagged := (c.flagged + 1) % 3)
  }

  /** Nothing goes to flag, flag to question mark, question mark back to nothing, revealed or not. */
  lemma BasculerDrapeauCycle(c: Case)
    ensures c.flagged == 0 ==> BasculerDrapeau(c).flagged == 1
    ensures c.flagged == 1 ==> BasculerDrapeau(c).flagged == 2
    ensures c.flagged == 2 ==> BasculerDrapeau(c).flagged == 0
  {
  }

  /** Three toggles give back a cell with a proper mark. */
  lemma BasculerDrapeauThrice(c: Case)
    requires 0 <= c.flagged < 3
    ensures BasculerDrapeau(BasculerDrapeau(BasculerDrapeau(c))) == c
  {
  }

  /** The dimensions and mine count of a difficulty level. */
  datatype Level = Level(largeur: int, hauteur: int, nbMines: int)

  /**
   `DIFFICULTES[difficulte]`: the three named levels; any other name is a
   `KeyError` carrying the name.
   */
  function Difficultes(difficulte: string): (r: Result<Level>)
    ensures difficulte == "Facile" ==> r == Ok(Level(9, 9, 5))
    ensures difficulte == "Moyen" ==> r == Ok(Level(16, 16, 40))
    ensures difficulte == "Difficile" ==> r == Ok(Level(30, 16, 99))
    ensures r.Err? <==> difficulte !in {"Facile", "Moyen", "Difficile"}
    ensures r.Err? ==> r.error == difficulte
    ensures r.Ok? ==> 0 < r.value.largeur && 0 < r.value.hauteur && 0 < r.value.nbMines < r.value.largeur * r.value.hauteur
  {
    if difficulte == "Facile" then Ok(Level(9, 9, 5))
    else if difficulte == "Moyen" then Ok(Level(16, 16, 40))
    else if difficulte == "Difficile" then Ok(Level(30, 16, 99))
    else Err(difficulte)
  }

  /** The board: `largeur` is the extent of the first coordinate (the outer list of `grille`), `hauteur` that of the second. */
  datatype Demineur = Demineur(
    largeur: int,
    hauteur: int,
    nbMines: int,
    grille: map<Pos, Case>,
    jeuTermine: bool)

  function Mines(grille: map<Pos, Case>): set<Pos> {
    set p | p in grille && grille[p].mine
  }

  function Hidden(grille: map<Pos, Case>): set<Pos> {
    set p | p in grille && !grille[p].revealed
  }

  /** A cell for every in-bounds coordinate and nowhere else. */
  ghost predicate Valid(d: Demineur) {
    forall p :: p in d.grille <==> InBounds(d.largeur, d.hauteur, p)
  }

  /** Every mark is nothing, flag or question mark. */
  ghost predicate Marked(d: Demineur) {
    forall p :: p in d.grille ==> 0 <= d.grille[p].flagged < 3
  }

  /** Every cell that is not a mine holds the number of mines in its clipped window. */
  ghost predicate Counted(d: Demineur) {
    forall p :: p in d.grille && !d.grille[p].mine ==>
      d.grille[p].minesVoisines == Count(Window(d.largeur, d.hauteur, p.x, p.y), Mines(d.grille))
  }

  /** Every mine holds 0, the count it was built with. */
  ghost predicate Quiet(d: Demineur) {
    forall p :: p in d.grille && d.grille[p].mine ==> d.grille[p].minesVoisines == 0
  }

  /** What the board satisfies from construction on. */
  ghost predicate Inv(d: Demineur) {
    && Valid(d) && Marked(d) && Counted(d) && Quiet(d)
    && 0 < d.largeur && 0 < d.hauteur && |Mines(d.grille)| == d.nbMines
  }

  // ---------------------------------------------------------------- mines

  /** `order` lists every position of a `w` by `h` board exactly once: what `random.shuffle` leaves in `positions`. */
  ghost predicate IsShuffle(order: seq<Pos>, w: int, h: int) {
    Distinct(order) && forall p :: p in order <==> InBounds(w, h, p)
  }

  /** Python's `s[:n]`: the first `n` elements, all of them when `n` is larger, all but `-n` when `n` is negative. */
  function Prefix(s: seq<Pos>, n: int): (r: seq<Pos>)
    ensures |r| == if n >= 0 then Min(n, |s|) else Max(0, |s| + n)
    ensures r <= s
  {
    if n >= 0 then s[..Min(n, |s|)] else s[..Max(0, |s| + n)]
  }

  function Min(a: int, b: int): int {
    if a <= b then a else b
  }

  function Max(a: int, b: int): int {
    if a <= b then b else a
  }

  /** `placer_mines`: the first `nb_mines` positions of the shuffled list become mines. */
  function PlacerMines(d: Demineur, order: seq<Pos>): (r: Demineur)
    requires Valid(d) && IsShuffle(order, d.largeur, d.hauteur)
    ensures Valid(r) && r.(grille := d.grille) == d
    ensures forall p :: p in d.grille ==> r.grille[p].(mine := d.grille[p].mine) == d.grille[p]
  {
    var chosen := Prefix(order, d.nbMines);
    d.(grille := map p | p in d.grille :: if p in chosen then d.grille[p].(mine := true) else d.grille[p])
  }

  /** On a board without mines, the mines laid are exactly the first `nb_mines` shuffled positions. */
  lemma PlacerMinesLays(d: Demineur, order: seq<Pos>)
    requires Valid(d) && IsShuffle(order, d.largeur, d.hauteur) && Mines(d.grille) == {}
    ensures Mines(PlacerMines(d, order).grille) == set p | p in Prefix(order, d.nbMines)
  {
    var r := PlacerMines(d, order);
    var chosen := Prefix(order, d.nbMines);
    forall p
      ensures p in Mines(r.grille) <==> p in chosen
    {
      if p in chosen {
        var k :| 0 <= k < |chosen| && chosen[k] == p;
        assert order[k] == p;
        assert p in d.grille;
        assert r.grille[p].mine;
      } else if p in d.grille {
        assert p !in Mines(d.grille);
      }
    }
  }

  /** There are `nb_mines` of them whenever the board has room for that many. */
  lemma PlacerMinesCount(d: Demineur, order: seq<Pos>)
    requires Valid(d) && IsShuffle(order, d.largeur, d.hauteur) && Mines(d.grille) == {}
    requires 0 <= d.largeur && 0 <= d.hauteur && 0 <= d.nbMines <= d.largeur * d.hauteur
    ensures |Mines(PlacerMines(d, order).grille)| == d.nbMines
  {
    PlacerMinesLays(d, order);
    ShuffleLength(order, d.largeur, d.hauteur);
    PrefixDistinct(order, d.nbMines);
    DistinctCard(Prefix(order, d.nbMines));
  }

  lemma PrefixDistinct(s: seq<Pos>, n: int)
    requires Distinct(s)
    ensures Distinct(Prefix(s, n))
  {
    var t := Prefix(s, n);
    forall i, j | 0 <= i < j < |t|
      ensures t[i] != t[j]
    {
      assert t[i] == s[i] && t[j] == s[j];
    }
  }

  /** A shuffle of the board's positions is as long as the board has cells. */
  lemma ShuffleLength(order: seq<Pos>, w: nat, h: nat)
    requires IsShuffle(order, w, h)
    ensures |order| == w * h
  {
    DistinctCard(order);
    AllPositionsCard(w, h);
    assert (set p | p in order) == AllPositions(w, h);
  }

  /**
   `calculer_mines_voisines`: every cell that is not a mine gets the number
   of mines in its clipped 3x3 window, which it is itself not part of; a
   mine keeps the count it had.
   */
  function CalculerMinesVoisines(d: Demineur): (r: Demineur)
    ensures r.(grille := d.grille) == d && r.grille.Keys == d.grille.Keys
    ensures Mines(r.grille) == Mines(d.grille)
    ensures forall p :: p in d.grille ==> r.grille[p].(minesVoisines := d.grille[p].minesVoisines) == d.grille[p]
  {
    var ms := Mines(d.grille);
    var grille := map p | p in d.grille ::
      if d.grille[p].mine then d.grille[p] else d.grille[p].(minesVoisines := Count(Window(d.largeur, d.hauteur, p.x, p.y), ms));
    assert Mines(grille) == ms;
    d.(grille := grille)
  }

  /**
   A mine keeps its count; any other cell gets the size of the set of its
   mined neighbours, hence at most 8.
   */
  lemma CalculerMinesVoisinesSpec(d: Demineur, p: Pos)
    requires Valid(d) && p in d.grille
    ensures d.grille[p].mine ==> CalculerMinesVoisines(d).grille[p] == d.grille[p]
    ensures !d.grille[p].mine ==> var n := CalculerMinesVoisines(d).grille[p].minesVoisines;
      n == |Adjacent(Mines(d.grille), p)| && 0 <= n <= 8
  {
    if !d.grille[p].mine {
      var ms := Mines(d.grille);
      CountWindow(d.largeur, d.hauteur, p.x, p.y, ms);
      AroundAdjacent(ms, p);
      CountRing(d.largeur, d.hauteur, p.x, p.y, ms);
      RingLength(d.largeur, d.hauteur, p.x, p.y);
    }
  }

  /** The level's board before any mine is laid: every cell fresh. */
  function Blank(l: Level): (r: Demineur)
    ensures Valid(r) && Mines(r.grille) == {} && !r.jeuTermine
    ensures r.largeur == l.largeur && r.hauteur == l.hauteur && r.nbMines == l.nbMines
    ensures forall p :: p in r.grille ==> r.grille[p] == Fresh
  {
    var r := Demineur(l.largeur, l.hauteur, l.nbMines, map p | p in AllPositions(l.largeur, l.hauteur) :: Fresh, false);
    assert Mines(r.grille) == {};
    r
  }

  /** The board `__init__` builds for a known level: mines laid from the shuffle, then every count computed. */
  function Build(l: Level, order: seq<Pos>): (r: Demineur)
    requires IsShuffle(order, l.largeur, l.hauteur)
    ensures r.largeur == l.largeur && r.hauteur == l.hauteur && r.nbMines == l.nbMines
    ensures Valid(r) && !r.jeuTermine
  {
    CalculerMinesVoisines(PlacerMines(Blank(l), order))
  }

  /**
   `Demineur(root, difficulte)`: the level's board, or the `KeyError` of an
   unknown level.
   */
  function NewDemineur(difficulte: string, order: seq<Pos>): (r: Result<Demineur>)
    requires Difficultes(difficulte).Ok? ==> IsShuffle(order, Difficultes(difficulte).value.largeur, Difficultes(difficulte).value.hauteur)
    ensures r.Err? <==> Difficultes(difficulte).Err?
    ensures r.Err? ==> r.error == difficulte
    ensures r.Ok? ==> r.value == Build(Difficultes(difficulte).value, order)
  {
    match Difficultes(difficulte)
    case Err(e) => Err(e)
    case Ok(l) => Ok(Build(l, order))
  }

  /** A built board has all its cells hidden and unmarked, and its mines are the first `nb_mines` of the shuffle. */
  lemma BuildLays(l: Level, order: seq<Pos>)
    requires IsShuffle(order, l.largeur, l.hauteur)
    ensures var d := Build(l, order);
      && Hidden(d.grille) == d.grille.Keys
      && (forall p :: p in d.grille ==> d.grille[p].flagged == 0)
      && Mines(d.grille) == set p | p in Prefix(order, l.nbMines)
  {
    PlacerMinesLays(Blank(l), order);
    var d := Build(l, order);
    assert Hidden(d.grille) == d.grille.Keys;
  }

  /** A built board of sensible size satisfies the invariant: `nb_mines` mines and every count right. */
  lemma BuildInv(l: Level, order: seq<Pos>)
    requires IsShuffle(order, l.largeur, l.hauteur)
    requires 0 < l.largeur && 0 < l.hauteur && 0 <= l.nbMines <= l.largeur * l.hauteur
    ensures Inv(Build(l, order))
  {
    PlacerMinesCount(Blank(l), order);
    CalculerCounted(PlacerMines(Blank(l), order));
  }

  /** Each of the three levels builds a board satisfying the invariant. */
  lemma NewDemineurInv(difficulte: string, order: seq<Pos>)
    requires Difficultes(difficulte).Ok?
    requires IsShuffle(order, Difficultes(difficulte).value.largeur, Difficultes(difficulte).value.hauteur)
    ensures Inv(NewDemineur(difficulte, order).value)
  {
    BuildInv(Difficultes(difficulte).value, order);
  }

  /** After `calculer_mines_voisines` every count is right, and mines that held 0 still do. */
  lemma CalculerCounted(d: Demineur)
    requires Quiet(d)
    ensures Counted(CalculerMinesVoisines(d)) && Quiet(CalculerMinesVoisines(d))
  {
    var r := CalculerMinesVoisines(d);
    assert Mines(r.grille) == Mines(d.grille);
  }

  // ---------------------------------------------------------------- reveal

  /** A cell either stays as it is or, unmarked, becomes revealed. */
  predicate Grows(c: Case, c': Case) {
    && c'.mine == c.mine && c'.flagged == c.flagged && c'.minesVoisines == c.minesVoisines
    && (c.revealed ==> c'.revealed)
    && (c'.revealed && !c.revealed ==> c.flagged == 0)
  }

  /** `d'` is `d` with some more unmarked cells revealed and nothing else changed. */
  ghost predicate Uncovers(d: Demineur, d': Demineur) {
    && d'.largeur == d.largeur && d'.hauteur == d.hauteur && d'.nbMines == d.nbMines
    && d'.jeuTermine == d.jeuTermine
    && d'.grille.Keys == d.grille.Keys
    && forall p :: p in d.grille ==> Grows(d.grille[p], d'.grille[p])
  }

  lemma UncoversTrans(a: Demineur, b: Demineur, c: Demineur)
    requires Uncovers(a, b) && Uncovers(b, c)
    ensures Uncovers(a, c)
  {
  }

  lemma UncoversValid(d: Demineur, d': Demineur)
    requires Valid(d) && Uncovers(d, d')
    ensures Valid(d') && Mines(d'.grille) == Mines(d.grille)
    ensures Hidden(d'.grille) <= Hidden(d.grille) && |Hidden(d'.grille)| <= |Hidden(d.grille)|
  {
    assert Mines(d'.grille) == Mines(d.grille);
    SubsetCard(Hidden(d'.grille), Hidden(d.grille));
  }

  /** Uncovering keeps every count right, and with it the invariant. */
  lemma UncoversInv(d: Demineur, d': Demineur)
    requires Inv(d) && Uncovers(d, d')
    ensures Inv(d')
  {
    UncoversValid(d, d');
    UncoversCounted(d, d');
    forall p | p in d'.grille && d'.grille[p].mine
      ensures d'.grille[p].minesVoisines == 0
    {
      assert Grows(d.grille[p], d'.grille[p]);
    }
  }

  /** `reveler` on one hidden, unmarked cell of the board. */
  function Open(d: Demineur, p: Pos): (r: Demineur)
    requires Valid(d) && p in d.grille && !d.grille[p].revealed && d.grille[p].flagged == 0
    ensures Valid(r) && Uncovers(d, r) && r.grille[p].revealed
    ensures |Hidden(r.grille)| < |Hidden(d.grille)|
  {
    var r := d.(grille := d.grille[p := Reveler(d.grille[p])]);
    assert Hidden(r.grille) == Hidden(d.grille) - {p};
    UncoversValid(d, r);
    r
  }

  /**
   `reveal_recursive`: a revealed or marked cell is left alone; any other
   is revealed and, when its count is zero, the cells of its clipped 3x3
   window (itself included) are visited in loop order.
   */
  function RevealRecursive(d: Demineur, p: Pos): (r: Demineur)
    requires Valid(d) && p in d.grille
    ensures Valid(r) && Uncovers(d, r)
    decreases |Hidden(d.grille)|, 0
  {
    var c := d.grille[p];
    if c.revealed || c.flagged != 0 then d
    else
      var d1 := Open(d, p);
      if c.minesVoisines == 0 then
        var r := RevealFrom(d1, Window(d.largeur, d.hauteur, p.x, p.y), 0);
        UncoversTrans(d, d1, r);
        r
      else d1
  }

  /** The `nx`/`ny` loop of `reveal_recursive` from the `i`-th window cell on. */
  function RevealFrom(d: Demineur, ps: seq<Pos>, i: nat): (r: Demineur)
    requires Valid(d) && i <= |ps|
    requires forall n :: n in ps ==> n in d.grille
    ensures Valid(r) && Uncovers(d, r)
    decreases |Hidden(d.grille)|, 1, |ps| - i
  {
    if i == |ps| then d
    else
      var d1 := RevealRecursive(d, ps[i]);
      UncoversValid(d, d1);
      var r := RevealFrom(d1, ps, i + 1);
      UncoversTrans(d, d1, r);
      r
  }

  /** A revealed or marked cell is left alone. */
  lemma RevealRecursiveRefuses(d: Demineur, p: Pos)
    requires Valid(d) && p in d.grille && (d.grille[p].revealed || d.grille[p].flagged != 0)
    ensures RevealRecursive(d, p) == d
  {
  }

  /** Any other cell ends revealed; one with a non-zero count is the only cell revealed. */
  lemma RevealRecursiveOpens(d: Demineur, p: Pos)
    requires Valid(d) && p in d.grille && !d.grille[p].revealed && d.grille[p].flagged == 0
    ensures RevealRecursive(d, p).grille[p].revealed
    ensures d.grille[p].minesVoisines != 0 ==> RevealRecursive(d, p).grille == d.grille[p := Reveler(d.grille[p])]
  {
  }

  /** No mine is uncovered between `d` and `d'`. */
  ghost predicate Safe(d: Demineur, d': Demineur) {
    forall q :: q in d.grille && q in d'.grille && !d.grille[q].revealed && d'.grille[q].revealed ==> !d.grille[q].mine
  }

  /** A board with the right counts, and cells of it none of which is a mine. */
  ghost predicate SafeCells(d: Demineur, ps: seq<Pos>) {
    && Valid(d) && Counted(d)
    && forall n :: n in ps ==> n in d.grille && !d.grille[n].mine
  }

  /** The window of a safe cell counted zero holds no mine. */
  lemma ZeroWindowSafe(d: Demineur, p: Pos)
    requires Valid(d) && Counted(d) && p in d.grille && !d.grille[p].mine && d.grille[p].minesVoisines == 0
    ensures SafeCells(d, Window(d.largeur, d.hauteur, p.x, p.y))
  {
    var ps := Window(d.largeur, d.hauteur, p.x, p.y);
    CountZero(ps, Mines(d.grille));
    forall n | n in ps
      ensures !d.grille[n].mine
    {
      var k :| 0 <= k < |ps| && ps[k] == n;
    }
  }

  lemma RevealRecursiveFloods(d: Demineur, p: Pos)
    requires Valid(d) && p in d.grille
    requires var c := d.grille[p]; !c.revealed && c.flagged == 0 && c.minesVoisines == 0
    ensures RevealRecursive(d, p) == RevealFrom(Open(d, p), Window(d.largeur, d.hauteur, p.x, p.y), 0)
  {
  }

  lemma RevealFromStep(d: Demineur, ps: seq<Pos>, i: nat)
    requires Valid(d) && i < |ps| && forall n :: n in ps ==> n in d.grille
    ensures RevealFrom(d, ps, i) == RevealFrom(RevealRecursive(d, ps[i]), ps, i + 1)
  {
  }

  lemma UncoversCounted(d: Demineur, d': Demineur)
    requires Valid(d) && Counted(d) && Uncovers(d, d')
    ensures Counted(d')
  {
    UncoversValid(d, d');
    forall p | p in d'.grille && !d'.grille[p].mine
      ensures d'.grille[p].minesVoisines == Count(Window(d'.largeur, d'.hauteur, p.x, p.y), Mines(d'.grille))
    {
      assert Grows(d.grille[p], d'.grille[p]);
    }
  }

  /** Started from a cell that is not a mine, on a board whose counts are right, the flood uncovers no mine. */
  lemma {:induction false} RevealRecursiveSafe(d: Demineur, p: Pos)
    requires Valid(d) && Counted(d) && p in d.grille && !d.grille[p].mine
    ensures Safe(d, RevealRecursive(d, p))
    decreases |Hidden(d.grille)|, 0
  {
    var c := d.grille[p];
    if !c.revealed && c.flagged == 0 && c.minesVoisines == 0 {
      var d1 := Open(d, p);
      UncoversCounted(d, d1);
      ZeroWindowSafe(d1, p);
      RevealFromSafe(d1, Window(d.largeur, d.hauteur, p.x, p.y), 0);
      RevealRecursiveFloods(d, p);
    } else if !c.revealed && c.flagged == 0 {
      assert RevealRecursive(d, p) == Open(d, p);
    }
  }

  lemma {:induction false} RevealFromSafe(d: Demineur, ps: seq<Pos>, i: nat)
    requires i <= |ps| && SafeCells(d, ps)
    ensures Safe(d, RevealFrom(d, ps, i))
    decreases |Hidden(d.grille)|, 1, |ps| - i
  {
    if i < |ps| {
      var d1 := RevealRecursive(d, ps[i]);
      RevealRecursiveSafe(d, ps[i]);
      UncoversValid(d, d1);
      UncoversCounted(d, d1);
      RevealFromSafe(d1, ps, i + 1);
      RevealFromStep(d, ps, i);
    }
  }

  /** After the flood from a zero cell, each cell of its window is revealed unless it is marked. */
  lemma RevealRecursiveSweeps(d: Demineur, p: Pos)
    requires Valid(d) && p in d.grille
    requires var c := d.grille[p]; !c.revealed && c.flagged == 0 && c.minesVoisines == 0
    ensures forall n :: n in Window(d.largeur, d.hauteur, p.x, p.y) && d.grille[n].flagged == 0 ==> RevealRecursive(d, p).grille[n].revealed
  {
    var d1 := Open(d, p);
    UncoversValid(d, d1);
    RevealFromSweeps(d1, Window(d.largeur, d.hauteur, p.x, p.y), 0);
    RevealRecursiveFloods(d, p);
  }

  lemma {:induction false} RevealFromSweeps(d: Demineur, ps: seq<Pos>, i: nat)
    requires Valid(d) && i <= |ps|
    requires forall n :: n in ps ==> n in d.grille
    ensures forall k :: i <= k < |ps| && d.grille[ps[k]].flagged == 0 ==> RevealFrom(d, ps, i).grille[ps[k]].revealed
    decreases |ps| - i
  {
    if i < |ps| {
      var d1 := RevealRecursive(d, ps[i]);
      if !d.grille[ps[i]].revealed && d.grille[ps[i]].flagged == 0 {
        RevealRecursiveOpens(d, ps[i]);
      }
      UncoversValid(d, d1);
      RevealFromSweeps(d1, ps, i + 1);
      RevealFromStep(d, ps, i);
    }
  }

  /** Every unmarked cell of the window around `q` is revealed: a flood that reached `q` is closed there. */
  ghost predicate Settled(d: Demineur, q: Pos) {
    forall n :: n in d.grille && Near(n, q) && d.grille[n].flagged == 0 ==> d.grille[n].revealed
  }

  /** `q` went from hidden to revealed between `d` and `d'` with a count of zero: the flood spreads from it. */
  ghost predicate Spreads(d: Demineur, d': Demineur, q: Pos) {
    && q in d.grille && q in d'.grille && !d.grille[q].revealed && d'.grille[q].revealed
    && d.grille[q].minesVoisines == 0
  }

  /** Every cell the flood spread from has its whole unmarked window revealed. */
  ghost predicate Closed(d: Demineur, d': Demineur) {
    forall q :: Spreads(d, d', q) ==> Settled(d', q)
  }

  /** The flood could spread from `q`: it is hidden, unmarked and counted zero. */
  ghost predicate Spreading(d: Demineur, q: Pos) {
    q in d.grille && !d.grille[q].revealed && d.grille[q].flagged == 0 && d.grille[q].minesVoisines == 0
  }

  /** With each cell the flood could spread from, `s` holds its whole window. */
  ghost predicate ZeroClosed(d: Demineur, s: set<Pos>) {
    forall q, n :: q in s && Spreading(d, q) && n in d.grille && Near(n, q) ==> n in s
  }

  /** Every cell uncovered between `d` and `d'` lies in `s`. */
  ghost predicate Within(d: Demineur, d': Demineur, s: set<Pos>) {
    forall q :: q in d.grille && q in d'.grille && !d.grille[q].revealed && d'.grille[q].revealed ==> q in s
  }

  lemma SettledCarry(d: Demineur, d': Demineur, q: Pos)
    requires Uncovers(d, d') && Settled(d, q)
    ensures Settled(d', q)
  {
    forall n | n in d'.grille && Near(n, q) && d'.grille[n].flagged == 0
      ensures d'.grille[n].revealed
    {
      assert Grows(d.grille[n], d'.grille[n]);
    }
  }

  lemma ClosedTrans(a: Demineur, b: Demineur, c: Demineur)
    requires Uncovers(a, b) && Uncovers(b, c) && Closed(a, b) && Closed(b, c)
    ensures Closed(a, c)
  {
    forall q | Spreads(a, c, q)
      ensures Settled(c, q)
    {
      assert Grows(a.grille[q], b.grille[q]);
      if b.grille[q].revealed {
        assert Spreads(a, b, q);
        SettledCarry(b, c, q);
      } else {
        assert Spreads(b, c, q);
      }
    }
  }

  /** Uncovering cells only removes cells the flood could spread from. */
  lemma ZeroClosedCarry(d: Demineur, d': Demineur, s: set<Pos>)
    requires Uncovers(d, d') && ZeroClosed(d, s)
    ensures ZeroClosed(d', s)
  {
    forall q, n | q in s && Spreading(d', q) && n in d'.grille && Near(n, q)
      ensures n in s
    {
      assert Grows(d.grille[q], d'.grille[q]);
      assert Spreading(d, q);
    }
  }

  lemma WithinTrans(a: Demineur, b: Demineur, c: Demineur, s: set<Pos>)
    requires Uncovers(a, b) && Uncovers(b, c) && Within(a, b, s) && Within(b, c, s)
    ensures Within(a, c, s)
  {
    forall q | q in a.grille && q in c.grille && !a.grille[q].revealed && c.grille[q].revealed
      ensures q in s
    {
      assert Grows(a.grille[q], b.grille[q]);
    }
  }

  /**
   The flood is closed: every cell counted zero that `reveal_recursive`
   uncovers has every unmarked cell of its window revealed.
   */
  lemma {:induction false} RevealRecursiveClosed(d: Demineur, p: Pos)
    requires Valid(d) && p in d.grille
    ensures Closed(d, RevealRecursive(d, p))
    decreases |Hidden(d.grille)|, 0
  {
    var c := d.grille[p];
    if !c.revealed && c.flagged == 0 && c.minesVoisines == 0 {
      var d1 := Open(d, p);
      var ps := Window(d.largeur, d.hauteur, p.x, p.y);
      var r := RevealFrom(d1, ps, 0);
      RevealFromClosed(d1, ps, 0);
      RevealRecursiveFloods(d, p);
      RevealRecursiveSweeps(d, p);
      forall q | Spreads(d, r, q)
        ensures Settled(r, q)
      {
        if q == p {
          forall n | n in r.grille && Near(n, p) && r.grille[n].flagged == 0
            ensures r.grille[n].revealed
          {
            assert n in ps;
            assert Grows(d.grille[n], r.grille[n]);
          }
        } else {
          assert Spreads(d1, r, q);
        }
      }
    } else if !c.revealed && c.flagged == 0 {
      assert RevealRecursive(d, p) == Open(d, p);
    }
  }

  lemma {:induction false} RevealFromClosed(d: Demineur, ps: seq<Pos>, i: nat)
    requires Valid(d) && i <= |ps| && forall n :: n in ps ==> n in d.grille
    ensures Closed(d, RevealFrom(d, ps, i))
    decreases |Hidden(d.grille)|, 1, |ps| - i
  {
    if i < |ps| {
      var d1 := RevealRecursive(d, ps[i]);
      RevealRecursiveClosed(d, ps[i]);
      UncoversValid(d, d1);
      RevealFromClosed(d1, ps, i + 1);
      RevealFromStep(d, ps, i);
      ClosedTrans(d, d1, RevealFrom(d1, ps, i + 1));
    }
  }

  /**
   The flood is confined: `reveal_recursive` uncovers only cells of `s`,
   for every set `s` that holds the clicked cell and, with each cell the
   flood could spread from, its whole window. The least such set is the
   clicked cell together with the cells reachable from it through hidden,
   unmarked cells counted zero, and their windows; so the flood reaches
   nothing cut off from the click and does not pass a marked cell.
   */
  lemma {:induction false} RevealRecursiveWithin(d: Demineur, p: Pos, s: set<Pos>)
    requires Valid(d) && p in d.grille && p in s && ZeroClosed(d, s)
    ensures Within(d, RevealRecursive(d, p), s)
    decreases |Hidden(d.grille)|, 0
  {
    var c := d.grille[p];
    if !c.revealed && c.flagged == 0 && c.minesVoisines == 0 {
      var d1 := Open(d, p);
      var ps := Window(d.largeur, d.hauteur, p.x, p.y);
      assert Spreading(d, p);
      ZeroClosedCarry(d, d1, s);
      RevealFromWithin(d1, ps, 0, s);
      RevealRecursiveFloods(d, p);
      var r := RevealFrom(d1, ps, 0);
      forall q | q in d.grille && q in r.grille && !d.grille[q].revealed && r.grille[q].revealed
        ensures q in s
      {
        if q != p {
          assert d1.grille[q] == d.grille[q];
        }
      }
    } else if !c.revealed && c.flagged == 0 {
      assert RevealRecursive(d, p) == Open(d, p);
    }
  }

  lemma {:induction false} RevealFromWithin(d: Demineur, ps: seq<Pos>, i: nat, s: set<Pos>)
    requires Valid(d) && i <= |ps| && forall n :: n in ps ==> n in d.grille && n in s
    requires ZeroClosed(d, s)
    ensures Within(d, RevealFrom(d, ps, i), s)
    decreases |Hidden(d.grille)|, 1, |ps| - i
  {
    if i < |ps| {
      var d1 := RevealRecursive(d, ps[i]);
      RevealRecursiveWithin(d, ps[i], s);
      UncoversValid(d, d1);
      ZeroClosedCarry(d, d1, s);
      RevealFromWithin(d1, ps, i + 1, s);
      RevealFromStep(d, ps, i);
      WithinTrans(d, d1, RevealFrom(d1, ps, i + 1), s);
    }
  }

  // ---------------------------------------------------------------- the click

  /**
   `reveler_case` without its timer and widgets: a mine ends the game and
   nothing is revealed, whatever the cell's mark; any other cell is
   revealed by `reveal_recursive`. Whether the game is already over is
   never consulted.
   */
  function RevelerCase(d: Demineur, p: Pos): (r: Demineur)
    requires Valid(d) && p in d.grille
    ensures Valid(r) && r.grille.Keys == d.grille.Keys
  {
    if d.grille[p].mine then d.(jeuTermine := true) else RevealRecursive(d, p)
  }

  /** A mine ends the game and leaves every cell as it was, marked or not. */
  lemma RevelerCaseMine(d: Demineur, p: Pos)
    requires Valid(d) && p in d.grille && d.grille[p].mine
    ensures RevelerCase(d, p).jeuTermine && RevelerCase(d, p).grille == d.grille
  {
  }

  /**
   Any other cell leaves the game flag as it was, even when the game is
   over, reveals no mine and no marked cell, and reveals the cell itself
   unless it is revealed or marked.
   */
  lemma RevelerCaseSafe(d: Demineur, p: Pos)
    requires Valid(d) && Counted(d) && p in d.grille && !d.grille[p].mine
    ensures var r := RevelerCase(d, p);
      && r.jeuTermine == d.jeuTermine
      && (forall q :: q in d.grille ==> Grows(d.grille[q], r.grille[q]))
      && Safe(d, r)
      && (d.grille[p].flagged == 0 ==> r.grille[p].revealed)
  {
    RevealRecursiveSafe(d, p);
    if !d.grille[p].revealed && d.grille[p].flagged == 0 {
      RevealRecursiveOpens(d, p);
    }
  }

  /** Every click keeps the invariant. */
  lemma RevelerCaseInv(d: Demineur, p: Pos)
    requires Inv(d) && p in d.grille
    ensures Inv(RevelerCase(d, p))
  {
    if !d.grille[p].mine {
      UncoversInv(d, RevealRecursive(d, p));
    }
  }
}
