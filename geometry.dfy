/** The shape of the board: a GridSize x GridSize square of cells addressed by
    (row, col), the clamped 3x3 window around a cell, and its neighbours. */
module Geometry {

  /** Side length of the square board. */
  const GridSize := 20
  /** Largest valid row or column index, written as a literal in the window computation. */
  const LastIndex := 19

  datatype Pos = Pos(row: int, col: int)

  predicate InBounds(p: Pos) {
    0 <= p.row < GridSize && 0 <= p.col < GridSize
  }

  /** Every cell of the board. */
  ghost const AllCells: set<Pos> := set r, c | 0 <= r < GridSize && 0 <= c < GridSize :: Pos(r, c)

  function Abs(x: int): nat {
    if x < 0 then -x else x
  }

  /** q is one of the (up to) eight cells around p on the board, and not p itself. */
  predicate IsNeighbor(p: Pos, q: Pos) {
    InBounds(q) && q != p && Abs(q.row - p.row) <= 1 && Abs(q.col - p.col) <= 1
  }

  /** Row-major order: earlier rows first, then earlier columns. */
  predicate Before(a: Pos, b: Pos) {
    a.row < b.row || (a.row == b.row && a.col < b.col)
  }

  /** Strictly increasing in row-major order (hence also free of duplicates). */
  predicate Sorted(s: seq<Pos>) {
    forall i, j :: 0 <= i < j < |s| ==> Before(s[i], s[j])
  }

  /** No cell occurs twice. */
  predicate Distinct(s: seq<Pos>) {
    forall i, j :: 0 <= i < j < |s| ==> s[i] != s[j]
  }

  predicate IsCorner(p: Pos) {
    (p.row == 0 || p.row == GridSize - 1) && (p.col == 0 || p.col == GridSize - 1)
  }

  predicate OnEdge(p: Pos) {
    p.row == 0 || p.row == GridSize - 1 || p.col == 0 || p.col == GridSize - 1
  }

  /** An inclusive index range. */
  datatype Range = Range(min: int, max: int) {
    predicate Contains(x: int) {
      min <= x <= max
    }
  }

  /** The window of rows and columns around a cell. */
  datatype Bounds = Bounds(row: Range, col: Range)

  /** Clamp one axis of the 3x3 window to the board. */
  function Clamp(x: int): (w: Range)
    requires 0 <= x < GridSize
    ensures 0 <= w.min <= x <= w.max <= LastIndex
    ensures forall y :: w.Contains(y) <==> 0 <= y < GridSize && Abs(y - x) <= 1
  {
    Range(if x == 0 then 0 else x - 1, if x == LastIndex then LastIndex else x + 1)
  }

  /** The window of cells within one step of (r, c), cut off at the board's edges.
      On each axis it holds exactly the on-board indices at distance at most one. */
  function BoundingIndices(r: int, c: int): (b: Bounds)
    requires 0 <= r < GridSize && 0 <= c < GridSize
    ensures 0 <= b.row.min <= r <= b.row.max <= LastIndex
    ensures 0 <= b.col.min <= c <= b.col.max <= LastIndex
    ensures forall q: Pos :: IsNeighbor(Pos(r, c), q) <==>
              b.row.Contains(q.row) && b.col.Contains(q.col) && q != Pos(r, c)
  {
    Bounds(Clamp(r), Clamp(c))
  }

  /** The single cell (r, c) if it lies on the board, otherwise nothing. */
  function CellIf(r: int, c: int): seq<Pos> {
    if InBounds(Pos(r, c)) then [Pos(r, c)] else []
  }

  /** The neighbours of p that lie in row r, left to right. */
  function RowNeighbors(p: Pos, r: int): seq<Pos> {
    CellIf(r, p.col - 1) + (if r != p.row then CellIf(r, p.col) else []) + CellIf(r, p.col + 1)
  }

  /** Reference definition of the neighbour list: the eight offsets around p in row-major
      order, each kept when it lies on the board. */
  function Neighbors(p: Pos): seq<Pos> {
    RowNeighbors(p, p.row - 1) + RowNeighbors(p, p.row) + RowNeighbors(p, p.row + 1)
  }

  lemma RowNeighborsShape(p: Pos, r: int)
    requires InBounds(p) && Abs(r - p.row) <= 1
    ensures Sorted(RowNeighbors(p, r))
    ensures forall q :: q in RowNeighbors(p, r) ==> q.row == r
    ensures forall q :: q in RowNeighbors(p, r) <==> IsNeighbor(p, q) && q.row == r
  {
  }

  /** The neighbour list holds exactly the neighbours of p, each once, in row-major order. */
  lemma NeighborsShape(p: Pos)
    requires InBounds(p)
    ensures Sorted(Neighbors(p))
    ensures forall q :: q in Neighbors(p) <==> IsNeighbor(p, q)
  {
    RowNeighborsShape(p, p.row - 1);
    RowNeighborsShape(p, p.row);
    RowNeighborsShape(p, p.row + 1);
    SortedRows(RowNeighbors(p, p.row - 1), RowNeighbors(p, p.row), RowNeighbors(p, p.row + 1), p.row);
  }

  /** Three sorted rows, taken top to bottom, form one sorted list. */
  lemma SortedRows(above: seq<Pos>, here: seq<Pos>, below: seq<Pos>, r: int)
    requires Sorted(above) && Sorted(here) && Sorted(below)
    requires forall q :: q in above ==> q.row == r - 1
    requires forall q :: q in here ==> q.row == r
    requires forall q :: q in below ==> q.row == r + 1
    ensures Sorted(above + here + below)
  {
  }

  /** A corner cell has 3 neighbours, another edge cell 5 and an interior cell 8. */
  lemma NeighborCount(p: Pos)
    requires InBounds(p)
    ensures |Neighbors(p)| == if IsCorner(p) then 3 else if OnEdge(p) then 5 else 8
  {
  }

  /** Two strictly sorted sequences with the same elements are equal. */
  lemma {:induction false} SortedUnique(a: seq<Pos>, b: seq<Pos>)
    requires Sorted(a) && Sorted(b)
    requires forall q :: q in a <==> q in b
    ensures a == b
  {
    assert a != [] ==> a[0] in b;
    assert b != [] ==> b[0] in a;
    if a != [] && b != [] {
      var a0, b0 := a[0], b[0];
      var i :| 0 <= i < |a| && a[i] == b0;
      var j :| 0 <= j < |b| && b[j] == a0;
      assert i == 0 || Before(a0, b0);
      assert j == 0 || Before(b0, a0);
      assert a0 == b0;
      forall q ensures q in a[1..] <==> q in b[1..] {
        TailMember(a, b, q);
        TailMember(b, a, q);
      }
      SortedUnique(a[1..], b[1..]);
      assert a == [a[0]] + a[1..];
      assert b == [b[0]] + b[1..];
    }
  }

  lemma TailMember(a: seq<Pos>, b: seq<Pos>, q: Pos)
    requires Sorted(a) && Sorted(b) && a != [] && b != [] && a[0] == b[0]
    requires forall x :: x in a <==> x in b
    ensures q in a[1..] ==> q in b[1..]
  {
    if q in a[1..] {
      var k :| 1 <= k < |a| && a[k] == q;
      assert Before(a[0], q);
      assert q in b;
      var m :| 0 <= m < |b| && b[m] == q;
      assert b[1..][m - 1] == q;
    }
  }

  /** The neighbour scan: walk the clamped window row by row, column by column, and
      collect every cell except (r, c) itself. The result is the reference neighbour list. */
  method GetNeighbors(p: Pos) returns (boxes: seq<Pos>)
    requires InBounds(p)
    ensures boxes == Neighbors(p)
  {
    var indices := BoundingIndices(p.row, p.col);
    boxes := [];
    for r := indices.row.min to indices.row.max + 1
      invariant forall q :: q in boxes <==> IsNeighbor(p, q) && q.row < r
      invariant forall q :: q in boxes ==> q.row < r
      invariant Sorted(boxes)
    {
      for c := indices.col.min to indices.col.max + 1
        invariant forall q :: q in boxes <==> IsNeighbor(p, q) && Before(q, Pos(r, c))
        invariant forall q :: q in boxes ==> Before(q, Pos(r, c))
        invariant Sorted(boxes)
      {
        if r != p.row || c != p.col {
          boxes := boxes + [Pos(r, c)];
        }
      }
    }
    NeighborsShape(p);
    SortedUnique(boxes, Neighbors(p));
  }
}
