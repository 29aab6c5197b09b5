/**
 Board geometry shared by the three Minesweeper engines: coordinates, the
 bounds check every engine performs before touching a neighbour, the clipped
 3x3 window visited by the nested `dx`/`dy` loops (in the same order), and
 counting over it.
 */
module Neighbourhood {

  /** A cell coordinate; `x` indexes the outer list of the grid, `y` the inner one. */
  datatype Pos = Pos(x: int, y: int)

  /** The guard `0 <= nx < width and 0 <= ny < height` of every neighbour loop. */
  predicate InBounds(w: int, h: int, p: Pos) {
    0 <= p.x < w && 0 <= p.y < h
  }

  /** `p` lies in the 3x3 square centred on `q` (Chebyshev distance at most one). */
  predicate Near(p: Pos, q: Pos) {
    -1 <= p.x - q.x <= 1 && -1 <= p.y - q.y <= 1
  }

  /** All in-bounds coordinates of a `w` by `h` board. */
  function AllPositions(w: int, h: int): (r: set<Pos>)
    ensures forall p :: p in r <==> InBounds(w, h, p)
  {
    set x, y | 0 <= x < w && 0 <= y < h :: Pos(x, y)
  }

  /** The number of mines a `while remaining > 0` placement loop lays for a requested count. */
  function Needed(n: int): nat {
    if n > 0 then n else 0
  }

  ghost predicate Distinct<T>(s: seq<T>) {
    forall i, j :: 0 <= i < j < |s| ==> s[i] != s[j]
  }

  /** Lexicographic order on coordinates, the order in which the neighbour loops visit cells. */
  predicate Before(p: Pos, q: Pos) {
    p.x < q.x || (p.x == q.x && p.y < q.y)
  }

  ghost predicate Ascending(s: seq<Pos>) {
    forall i, j :: 0 <= i < j < |s| ==> Before(s[i], s[j])
  }

  /** The three cells `(a, y - 1)`, `(a, y)`, `(a, y + 1)` one iteration of the outer loop looks at. */
  function Column(a: int, y: int): seq<Pos> {
    [Pos(a, y - 1), Pos(a, y), Pos(a, y + 1)]
  }

  /**
   The full 3x3 square around `(x, y)` in the order `for dx in -1..1: for dy in -1..1` visits it.
   It is built column by column so that the solver expands it only when a proof asks for its shape.
   */
  function Square(x: int, y: int): seq<Pos> {
    Columns(x, y, 3)
  }

  /** The first `k` columns of the square, `x - 1` first. */
  function Columns(x: int, y: int, k: nat): seq<Pos> {
    if k == 0 then [] else Columns(x, y, k - 1) + Column(x - 2 + k, y)
  }

  lemma SquareShape(x: int, y: int)
    ensures Square(x, y) == Column(x - 1, y) + Column(x, y) + Column(x + 1, y)
  {
    assert Columns(x, y, 0) == [];
    assert Columns(x, y, 1) == [] + Column(x - 1, y) == Column(x - 1, y);
    assert Columns(x, y, 2) == Column(x - 1, y) + Column(x, y);
    assert Columns(x, y, 3) == Columns(x, y, 2) + Column(x + 1, y);
  }

  /** The square without its centre, for loops that skip `dx == 0 and dy == 0`. */
  function Surround(x: int, y: int): seq<Pos> {
    Column(x - 1, y) + [Pos(x, y - 1), Pos(x, y + 1)] + Column(x + 1, y)
  }

  /** The cells of `s` that pass the bounds check, in order. */
  function Clip(w: int, h: int, s: seq<Pos>): (r: seq<Pos>)
    ensures forall p :: p in r <==> p in s && InBounds(w, h, p)
  {
    if |s| == 0 then []
    else if InBounds(w, h, s[0]) then [s[0]] + Clip(w, h, s[1..])
    else Clip(w, h, s[1..])
  }

  /** Dropping cells keeps the visiting order. */
  lemma {:induction false} ClipAscending(w: int, h: int, s: seq<Pos>)
    requires Ascending(s)
    ensures Ascending(Clip(w, h, s))
  {
    if |s| > 0 {
      AscendingTail(s);
      ClipAscending(w, h, s[1..]);
      if InBounds(w, h, s[0]) {
        AscendingCons(s, Clip(w, h, s[1..]));
      }
    }
  }

  lemma AscendingTail(s: seq<Pos>)
    requires Ascending(s) && |s| > 0
    ensures Ascending(s[1..])
  {
    forall i, j | 0 <= i < j < |s| - 1
      ensures Before(s[1..][i], s[1..][j])
    {
      assert s[1..][i] == s[i + 1] && s[1..][j] == s[j + 1];
    }
  }

  lemma AscendingCons(s: seq<Pos>, t: seq<Pos>)
    requires Ascending(s) && |s| > 0 && Ascending(t)
    requires forall p :: p in t ==> p in s[1..]
    ensures Ascending([s[0]] + t)
  {
    forall p | p in t
      ensures Before(s[0], p)
    {
      var k :| 0 <= k < |s| - 1 && s[1..][k] == p;
      assert s[k + 1] == p;
    }
    AscendingAppend([s[0]], t);
  }

  lemma AscendingAppend(s: seq<Pos>, t: seq<Pos>)
    requires Ascending(s) && Ascending(t)
    requires forall p, q :: p in s && q in t ==> Before(p, q)
    ensures Ascending(s + t)
  {
    forall i, j | 0 <= i < j < |s + t|
      ensures Before((s + t)[i], (s + t)[j])
    {
      if j < |s| {
        assert (s + t)[i] == s[i] && (s + t)[j] == s[j];
      } else if i < |s| {
        assert (s + t)[i] == s[i] && (s + t)[j] == t[j - |s|];
        assert s[i] in s && t[j - |s|] in t;
      } else {
        assert (s + t)[i] == t[i - |s|] && (s + t)[j] == t[j - |s|];
      }
    }
  }

  lemma AscendingDistinct(s: seq<Pos>)
    requires Ascending(s)
    ensures Distinct(s)
  {
    forall i, j | 0 <= i < j < |s|
      ensures s[i] != s[j]
    {
      assert Before(s[i], s[j]);
    }
  }

  lemma SquareAscending(x: int, y: int)
    ensures Ascending(Square(x, y)) && Ascending(Surround(x, y))
  {
    SquareShape(x, y);
    var a, b, c := Column(x - 1, y), Column(x, y), Column(x + 1, y);
    var m: seq<Pos> := [Pos(x, y - 1), Pos(x, y + 1)];
    AscendingAppend(a, b);
    AscendingAppend(a + b, c);
    AscendingAppend(a, m);
    AscendingAppend(a + m, c);
  }

  /**
   The in-bounds cells of the 3x3 square centred on `(x, y)`, the centre
   included, in the order `for dx in -1..1: for dy in -1..1` visits them.
   */
  function Window(w: int, h: int, x: int, y: int): (r: seq<Pos>)
    ensures forall p :: p in r <==> InBounds(w, h, p) && Near(p, Pos(x, y))
    ensures Ascending(r) && Distinct(r)
  {
    SquareShape(x, y);
    SquareAscending(x, y);
    var r := Clip(w, h, Square(x, y));
    ClipAscending(w, h, Square(x, y));
    AscendingDistinct(r);
    r
  }

  /**
   The window without its centre: the eight (fewer at a border) neighbours
   visited by a loop that skips `dx == 0 and dy == 0`.
   */
  function Ring(w: int, h: int, x: int, y: int): (r: seq<Pos>)
    ensures forall p :: p in r <==> InBounds(w, h, p) && Near(p, Pos(x, y)) && p != Pos(x, y)
    ensures Distinct(r)
  {
    SquareAscending(x, y);
    var r := Clip(w, h, Surround(x, y));
    ClipAscending(w, h, Surround(x, y));
    AscendingDistinct(r);
    r
  }

  /** How many of `x - 1`, `x`, `x + 1` lie in `[0, n)`. */
  function Span(x: int, n: int): nat {
    (if 0 <= x - 1 < n then 1 else 0) + (if 0 <= x < n then 1 else 0) + (if 0 <= x + 1 < n then 1 else 0)
  }

  lemma {:induction false} ClipAppend(w: int, h: int, s: seq<Pos>, t: seq<Pos>)
    ensures Clip(w, h, s + t) == Clip(w, h, s) + Clip(w, h, t)
  {
    if |s| > 0 {
      assert (s + t)[0] == s[0];
      assert (s + t)[1..] == s[1..] + t;
      ClipAppend(w, h, s[1..], t);
    } else {
      assert s + t == t;
    }
  }

  lemma ColumnLength(w: int, h: int, a: int, y: int)
    ensures |Clip(w, h, Column(a, y))| == if 0 <= a < w then Span(y, h) else 0
  {
    var p0, p1, p2 := [Pos(a, y - 1)], [Pos(a, y)], [Pos(a, y + 1)];
    assert Column(a, y) == p0 + p1 + p2;
    ClipAppend(w, h, p0, p1);
    ClipAppend(w, h, p0 + p1, p2);
    ClipOne(w, h, Pos(a, y - 1));
    ClipOne(w, h, Pos(a, y));
    ClipOne(w, h, Pos(a, y + 1));
  }

  lemma ClipOne(w: int, h: int, p: Pos)
    ensures |Clip(w, h, [p])| == if InBounds(w, h, p) then 1 else 0
  {
    assert [p][1..] == [];
  }

  /** The window is the product of the clipped ranges in each direction. */
  lemma WindowLength(w: int, h: int, x: int, y: int)
    ensures |Window(w, h, x, y)| == Span(x, w) * Span(y, h)
  {
    SquareShape(x, y);
    var a, b, c := Column(x - 1, y), Column(x, y), Column(x + 1, y);
    ClipAppend(w, h, a, b);
    ClipAppend(w, h, a + b, c);
    ColumnLength(w, h, x - 1, y);
    ColumnLength(w, h, x, y);
    ColumnLength(w, h, x + 1, y);
    SpanProduct(Span(x, w), Span(y, h), x, w);
  }

  lemma SpanProduct(k: nat, s: nat, x: int, w: int)
    requires k == Span(x, w)
    ensures (if 0 <= x - 1 < w then s else 0) + (if 0 <= x < w then s else 0) + (if 0 <= x + 1 < w then s else 0) == k * s
  {
  }

  /** The number of elements of `ps` that belong to `s`, counted one by one like the source's loops. */
  function Count(ps: seq<Pos>, s: set<Pos>): (n: nat)
    ensures n <= |ps|
  {
    if |ps| == 0 then 0 else (if ps[0] in s then 1 else 0) + Count(ps[1..], s)
  }

  lemma {:induction false} CountAppend(a: seq<Pos>, b: seq<Pos>, s: set<Pos>)
    ensures Count(a + b, s) == Count(a, s) + Count(b, s)
  {
    if |a| > 0 {
      assert (a + b)[0] == a[0];
      assert (a + b)[1..] == a[1..] + b;
      CountAppend(a[1..], b, s);
    } else {
      assert a + b == b;
    }
  }

  /** Counting a duplicate-free sequence is taking the size of the matching set. */
  lemma {:induction false} CountAsCard(ps: seq<Pos>, s: set<Pos>)
    requires Distinct(ps)
    ensures Count(ps, s) == |set p | p in ps && p in s|
  {
    if |ps| > 0 {
      var rest := set p | p in ps[1..] && p in s;
      CountAsCard(ps[1..], s);
      assert ps[0] !in ps[1..];
      if ps[0] in s {
        assert (set p | p in ps && p in s) == rest + {ps[0]};
      } else {
        assert (set p | p in ps && p in s) == rest;
      }
    }
  }

  /** A member of `ps` outside `s` is not counted, so the count falls short of `|ps|`. */
  lemma {:induction false} CountMissing(ps: seq<Pos>, s: set<Pos>, q: Pos)
    requires q in ps && q !in s
    ensures Count(ps, s) < |ps|
  {
    if ps[0] != q {
      CountMissing(ps[1..], s, q);
    }
  }

  /** A zero count means no member of `ps` lies in `s`. */
  lemma {:induction false} CountZero(ps: seq<Pos>, s: set<Pos>)
    requires Count(ps, s) == 0
    ensures forall i :: 0 <= i < |ps| ==> ps[i] !in s
  {
    if |ps| > 0 {
      CountZero(ps[1..], s);
      assert forall i :: 1 <= i < |ps| ==> ps[i] == ps[1..][i - 1];
    }
  }

  /** The cells of `s` in the 3x3 square around `c`: the reference definition of a neighbour count. */
  function Around(s: set<Pos>, c: Pos): set<Pos> {
    set p | p in s && Near(p, c)
  }

  /** The cells of `s` among the eight neighbours of `c`. */
  function Adjacent(s: set<Pos>, c: Pos): set<Pos> {
    set p | p in s && Near(p, c) && p != c
  }

  /** Counting a set of in-bounds cells over the window is the size of its part near the centre. */
  lemma CountWindow(w: int, h: int, x: int, y: int, s: set<Pos>)
    requires forall p :: p in s ==> InBounds(w, h, p)
    ensures Count(Window(w, h, x, y), s) == |Around(s, Pos(x, y))|
  {
    var ps := Window(w, h, x, y);
    CountAsCard(ps, s);
    assert (set p | p in ps && p in s) == Around(s, Pos(x, y));
  }

  /** Counting over the ring is the size of the part among the eight neighbours. */
  lemma CountRing(w: int, h: int, x: int, y: int, s: set<Pos>)
    requires forall p :: p in s ==> InBounds(w, h, p)
    ensures Count(Ring(w, h, x, y), s) == |Adjacent(s, Pos(x, y))|
  {
    var ps := Ring(w, h, x, y);
    CountAsCard(ps, s);
    assert (set p | p in ps && p in s) == Adjacent(s, Pos(x, y));
  }

  /** Away from a set's members, the 3x3 and the 8-neighbour counts agree. */
  lemma AroundAdjacent(s: set<Pos>, c: Pos)
    requires c !in s
    ensures Around(s, c) == Adjacent(s, c)
  {
  }

  /** A duplicate-free sequence has as many distinct elements as positions. */
  lemma {:induction false} DistinctCard(ps: seq<Pos>)
    requires Distinct(ps)
    ensures |set p | p in ps| == |ps|
  {
    if |ps| > 0 {
      DistinctCard(ps[1..]);
      assert ps[0] !in ps[1..];
      assert (set p | p in ps) == (set p | p in ps[1..]) + {ps[0]};
    }
  }

  /** Any finite set has subsets of every size up to its own. */
  lemma {:induction false} SubsetOfSize(s: set<Pos>, n: nat)
    requires n <= |s|
    ensures exists t :: t <= s && |t| == n
  {
    if n > 0 {
      var e :| e in s;
      SubsetOfSize(s - {e}, n - 1);
      var t :| t <= s - {e} && |t| == n - 1;
      assert t + {e} <= s && |t + {e}| == n;
    } else {
      var t: set<Pos> := {};
      assert t <= s && |t| == 0;
    }
  }

  lemma SubsetCard(a: set<Pos>, b: set<Pos>)
    requires a <= b
    ensures |a| <= |b|
  {
    assert b == a + (b - a);
  }
  /** Clipping never lengthens a sequence. */
  lemma {:induction false} ClipShorter(w: int, h: int, s: seq<Pos>)
    ensures |Clip(w, h, s)| <= |s|
  {
    if |s| > 0 {
      ClipShorter(w, h, s[1..]);
    }
  }

  /** A cell has at most eight neighbours on the board. */
  lemma RingLength(w: int, h: int, x: int, y: int)
    ensures |Ring(w, h, x, y)| <= 8
  {
    ClipShorter(w, h, Surround(x, y));
  }

  /** Nothing is counted against the empty set. */
  lemma {:induction false} CountEmpty(ps: seq<Pos>)
    ensures Count(ps, {}) == 0
  {
    if |ps| > 0 {
      CountEmpty(ps[1..]);
    }
  }

  /** The cells `(x, 0)` to `(x, h - 1)` of one column of the board. */
  function Line(x: int, h: int): set<Pos> {
    set y | 0 <= y < h :: Pos(x, y)
  }

  lemma {:induction false} LineCard(x: int, h: nat)
    ensures |Line(x, h)| == h
  {
    if h > 0 {
      LineCard(x, h - 1);
      assert Line(x, h) == Line(x, h - 1) + {Pos(x, h - 1)};
    } else {
      assert Line(x, h) == {};
    }
  }

  /** A `w` by `h` board has `w * h` cells. */
  lemma {:induction false} AllPositionsCard(w: nat, h: nat)
    ensures |AllPositions(w, h)| == w * h
  {
    if w > 0 {
      AllPositionsCard(w - 1, h);
      LineCard(w - 1, h);
      AllPositionsSplit(w, h);
      assert (w - 1) * h + h == w * h;
    } else {
      assert AllPositions(w, h) == {};
    }
  }

  /** A board one column wider is the narrower board plus the new, disjoint column. */
  lemma AllPositionsSplit(w: nat, h: nat)
    requires w > 0
    ensures AllPositions(w, h) == AllPositions(w - 1, h) + Line(w - 1, h)
    ensures AllPositions(w - 1, h) !! Line(w - 1, h)
  {
    assert forall p :: p in Line(w - 1, h) <==> p.x == w - 1 && 0 <= p.y < h;
  }
}
