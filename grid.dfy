/** The square board the snake lives on: cells, bounds, the interior ring
    where food may appear, and a count of interior cells showing that food
    can always be placed while the snake is shorter than the interior. */
module Grid {

  /** Cells per side of the board. */
  const GridSize: int := 25

  /** Number of interior cells: the board minus its outermost ring. */
  const InteriorArea: int := (GridSize - 2) * (GridSize - 2)

  /** A cell, or a step between cells when used as a direction. */
  datatype Position = Position(x: int, y: int)

  /** Vector addition: the cell reached from `p` by one step `d`. */
  function Add(p: Position, d: Position): Position {
    Position(p.x + d.x, p.y + d.y)
  }

  /** The step that leads from `from` to `to`. */
  function Delta(from: Position, to: Position): Position {
    Position(to.x - from.x, to.y - from.y)
  }

  /** The opposite step. */
  function Reverse(d: Position): Position {
    Position(-d.x, -d.y)
  }

  /** One of the four unit steps right, left, down, up. */
  predicate IsUnit(d: Position) {
    d == Position(1, 0) || d == Position(-1, 0) || d == Position(0, 1) || d == Position(0, -1)
  }

  /** Inside the board, `[0, GridSize)` on both axes. */
  predicate InGrid(p: Position) {
    0 <= p.x < GridSize && 0 <= p.y < GridSize
  }

  /** Off the outermost ring: `[1, GridSize - 2]` on both axes. */
  predicate Interior(p: Position) {
    1 <= p.x <= GridSize - 2 && 1 <= p.y <= GridSize - 2
  }

  /** Some interior cell is not covered by `avoid`. */
  ghost predicate HasFreeInteriorCell(avoid: seq<Position>) {
    exists p :: Interior(p) && p !in avoid
  }

  /** The cells `(x, y)` with `1 <= x <= w` and `1 <= y <= h`. */
  ghost function Rect(w: int, h: int): set<Position> {
    set x, y | 1 <= x <= w && 1 <= y <= h :: Position(x, y)
  }

  /** The cells `(x, y)` with `1 <= x <= w` on one row `y`. */
  ghost function Row(w: int, y: int): set<Position> {
    set x | 1 <= x <= w :: Position(x, y)
  }

  lemma {:induction false} RowSize(w: nat, y: int)
    ensures |Row(w, y)| == w
  {
    if w == 0 {
      assert Row(w, y) == {};
    } else {
      RowSize(w - 1, y);
      assert Row(w, y) == Row(w - 1, y) + {Position(w, y)};
      assert Position(w, y) !in Row(w - 1, y);
    }
  }

  lemma {:induction false} RectSize(w: nat, h: nat)
    ensures |Rect(w, h)| == w * h
  {
    if h == 0 {
      assert Rect(w, h) == {};
    } else {
      RectSize(w, h - 1);
      RowSize(w, h);
      RectSplit(w, h);
      var lower, top := Rect(w, h - 1), Row(w, h);
      assert |lower + top| == |lower| + |top| by {
        assert |lower * top| == 0;
      }
      assert w * h == w * (h - 1) + w;
    }
  }

  /** A rectangle is the one a row shorter plus its top row, which it does
      not already contain. */
  lemma RectSplit(w: nat, h: nat)
    requires h > 0
    ensures Rect(w, h) == Rect(w, h - 1) + Row(w, h)
    ensures Rect(w, h - 1) * Row(w, h) == {}
  {
    forall p | p in Rect(w, h) ensures p in Rect(w, h - 1) + Row(w, h) {
      if p.y < h {
        assert p == Position(p.x, p.y);
      } else {
        assert p == Position(p.x, h);
      }
    }
  }

  /** The interior, as a set, has exactly `InteriorArea` cells. */
  lemma InteriorSize()
    ensures forall p :: p in Rect(GridSize - 2, GridSize - 2) <==> Interior(p)
    ensures |Rect(GridSize - 2, GridSize - 2)| == InteriorArea
  {
    RectSize(GridSize - 2, GridSize - 2);
    forall p | Interior(p) ensures p in Rect(GridSize - 2, GridSize - 2) {
      assert p == Position(p.x, p.y);
    }
  }

  /** A sequence covers at most as many distinct cells as it has entries. */
  lemma {:induction false} CoveredSize(s: seq<Position>)
    ensures |set p | p in s| <= |s|
  {
    if s != [] {
      CoveredSize(s[1..]);
      assert (set p | p in s) == {s[0]} + (set p | p in s[1..]);
    }
  }

  lemma SubsetSize(a: set<Position>, b: set<Position>)
    requires a <= b
    ensures |a| <= |b|
  {
    assert b == a + (b - a);
    assert a * (b - a) == {};
  }

  /** Pigeonhole: while fewer cells are to be avoided than the interior has,
      some interior cell is free, so rejection sampling can succeed. */
  lemma RoomForFood(avoid: seq<Position>)
    requires |avoid| < InteriorArea
    ensures HasFreeInteriorCell(avoid)
  {
    var cells := Rect(GridSize - 2, GridSize - 2);
    var taken := set p | p in avoid;
    InteriorSize();
    CoveredSize(avoid);
    if cells <= taken {
      SubsetSize(cells, taken);
      assert false;
    }
    var p :| p in cells && p !in taken;
    assert Interior(p) && p !in avoid;
  }
}
