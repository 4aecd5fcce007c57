/**
 * The 5x5 drawing grid of the piece editor and the cell <-> index encoding
 * shared by every page: cell `(x, y)` is grid child number `y * 5 + x`, and
 * child number `i` is the cell `(i % 5, floor(i / 5))`.
 *
 * The grid is the state the editor mutates (clicks toggle a cell, loading a
 * shape lights cells, saving reads the lit cells back); it is modelled as a
 * class over an array of 25 flags, one per grid child, true when the child
 * carries the `active` class.
 */
module Shapes {

  const Width := 5
  const CellCount := 25

  datatype Cell = Cell(x: int, y: int)

  predicate InBounds(c: Cell) {
    0 <= c.x < Width && 0 <= c.y < Width
  }

  /** The grid child a cell is drawn in. */
  function Index(c: Cell): int {
    c.y * Width + c.x
  }

  /** The cell grid child `i` stands for (`i % 5`, `Math.floor(i / 5)`). */
  function CellAt(i: nat): (c: Cell)
    ensures Index(c) == i
    ensures i < CellCount ==> InBounds(c)
  {
    Cell(i % Width, i / Width)
  }

  lemma CellAtIndex(c: Cell)
    requires InBounds(c)
    ensures 0 <= Index(c) < CellCount && CellAt(Index(c)) == c
  {
  }

  /** Cells listed in strictly increasing grid order (row-major). */
  predicate RowMajor(s: seq<Cell>) {
    forall i, j :: 0 <= i < j < |s| ==> Index(s[i]) < Index(s[j])
  }

  /** Some cell of `shape` is drawn in grid child `i`. */
  predicate Covers(shape: seq<Cell>, i: int) {
    exists k :: 0 <= k < |shape| && Index(shape[k]) == i
  }

  /** The grid after `createGrid` and `loadShapeIntoGrid(shape)`: child `i` is
      lit when some cell's index `y * 5 + x` is `i`; indices that name no
      child are skipped. */
  function Loaded(shape: seq<Cell>): (g: seq<bool>)
    ensures |g| == CellCount
    ensures forall c :: c in shape && 0 <= Index(c) < CellCount ==> g[Index(c)]
    ensures shape == [] ==> forall i :: 0 <= i < CellCount ==> !g[i]
  {
    seq(CellCount, i => Covers(shape, i))
  }

  /** The shape `getGridShape` reads off grid flags `g`: the cells of the lit
      children, in child order. */
  function ShapeOf(g: seq<bool>): (r: seq<Cell>)
    ensures |r| <= |g|
    ensures RowMajor(r)
    ensures forall c :: c in r ==> 0 <= Index(c) < |g| && g[Index(c)] && c == CellAt(Index(c))
    ensures forall i :: 0 <= i < |g| && g[i] ==> CellAt(i) in r
  {
    if g == [] then []
    else
      var n := |g| - 1;
      var front := ShapeOf(g[..n]);
      assert forall i :: 0 <= i < n ==> g[..n][i] == g[i];
      front + (if g[n] then [CellAt(n)] else [])
  }

  /** What `renderShape(shape)` lights: child `i` is active when the shape
      holds the cell `(i % 5, floor(i / 5))`. */
  function Rendered(shape: seq<Cell>): (g: seq<bool>)
    ensures |g| == CellCount
    ensures forall c :: c in shape && InBounds(c) ==> g[Index(c)]
    ensures shape == [] ==> forall i :: 0 <= i < CellCount ==> !g[i]
  {
    seq(CellCount, i requires 0 <= i => CellAt(i) in shape)
  }

  /** A shape read off the 25-cell grid is in bounds, free of repeats,
      row-major and has at most 25 cells. */
  lemma GridShapeWellFormed(g: seq<bool>)
    requires |g| == CellCount
    ensures var s := ShapeOf(g);
            && |s| <= CellCount
            && RowMajor(s)
            && (forall i, j :: 0 <= i < j < |s| ==> s[i] != s[j])
            && (forall c :: c in s ==> InBounds(c))
  {
    var s := ShapeOf(g);
    forall c | c in s ensures InBounds(c) {
      assert c == CellAt(Index(c));
    }
  }

  /** Loading the shape read off a grid lights exactly the cells that were
      lit. */
  lemma LoadAfterRead(g: seq<bool>)
    requires |g| == CellCount
    ensures Loaded(ShapeOf(g)) == g
  {
    var s := ShapeOf(g);
    forall i | 0 <= i < CellCount ensures Loaded(s)[i] == g[i] {
      if g[i] {
        var k :| 0 <= k < |s| && s[k] == CellAt(i);
        assert Index(s[k]) == i;
      }
      if Covers(s, i) {
        var k :| 0 <= k < |s| && Index(s[k]) == i;
        assert s[k] in s;
      }
    }
  }

  /** Loading an in-bounds shape and reading it back yields the same cells,
      without repeats, in row-major order. */
  lemma ReadAfterLoad(shape: seq<Cell>)
    requires forall c :: c in shape ==> InBounds(c)
    ensures forall c :: c in ShapeOf(Loaded(shape)) <==> c in shape
    ensures RowMajor(ShapeOf(Loaded(shape)))
  {
    var g := Loaded(shape);
    var r := ShapeOf(g);
    forall c | c in r ensures c in shape {
      var k :| 0 <= k < |shape| && Index(shape[k]) == Index(c);
      CellAtIndex(shape[k]);
    }
    forall c | c in shape ensures c in r {
      CellAtIndex(c);
      var k :| 0 <= k < |shape| && shape[k] == c;
      assert Covers(shape, Index(c));
    }
  }

  /** Two row-major lists with the same cells are the same list. */
  lemma {:induction false} RowMajorUnique(a: seq<Cell>, b: seq<Cell>)
    requires RowMajor(a) && RowMajor(b)
    requires forall c :: c in a <==> c in b
    ensures a == b
  {
    SameCellsSameEmptiness(a, b);
    if a != [] && b != [] {
      assert a[0] in b && b[0] in a;
      assert a[0] == b[0];
      forall c ensures c in a[1..] <==> c in b[1..] {
        if c in a[1..] {
          var k :| 1 <= k < |a| && a[k] == c;
          assert c != b[0];
          assert c in b;
        }
        if c in b[1..] {
          var k :| 1 <= k < |b| && b[k] == c;
          assert c != a[0];
          assert c in a;
        }
      }
      RowMajorUnique(a[1..], b[1..]);
      assert a == [a[0]] + a[1..] && b == [b[0]] + b[1..];
    }
  }

  lemma SameCellsSameEmptiness(a: seq<Cell>, b: seq<Cell>)
    requires forall c :: c in a <==> c in b
    ensures a == [] <==> b == []
  {
    if a != [] { assert a[0] in b; }
    if b != [] { assert b[0] in a; }
  }

  /** A shape already in the form `getGridShape` produces survives a load and
      a read unchanged. */
  lemma ReadAfterLoadExact(shape: seq<Cell>)
    requires forall c :: c in shape ==> InBounds(c)
    requires RowMajor(shape)
    ensures ShapeOf(Loaded(shape)) == shape
  {
    ReadAfterLoad(shape);
    RowMajorUnique(ShapeOf(Loaded(shape)), shape);
  }

  /** For in-bounds shapes the preview drawn by `renderShape` and the editor
      grid filled by `loadShapeIntoGrid` light the same children. */
  lemma RenderedAgreesWithLoaded(shape: seq<Cell>)
    requires forall c :: c in shape ==> InBounds(c)
    ensures Rendered(shape) == Loaded(shape)
  {
    forall i | 0 <= i < CellCount ensures Rendered(shape)[i] == Loaded(shape)[i] {
      if Covers(shape, i) {
        var k :| 0 <= k < |shape| && Index(shape[k]) == i;
        CellAtIndex(shape[k]);
      }
      if CellAt(i) in shape {
        var k :| 0 <= k < |shape| && shape[k] == CellAt(i);
        assert Index(shape[k]) == i;
      }
    }
  }

  /** The preview of a drawn shape shows exactly the cells that were drawn. */
  lemma RenderAfterRead(g: seq<bool>)
    requires |g| == CellCount
    ensures Rendered(ShapeOf(g)) == g
  {
    GridShapeWellFormed(g);
    RenderedAgreesWithLoaded(ShapeOf(g));
    LoadAfterRead(g);
  }

  /** An out-of-range column is not skipped by `loadShapeIntoGrid`: its index
      lands in the next row, while `renderShape` shows nothing for it. */
  lemma LoadWrapsOutOfRangeColumn()
    ensures Loaded([Cell(7, 0)])[7] && !Rendered([Cell(7, 0)])[7]
  {
    assert Index([Cell(7, 0)][0]) == 7;
    assert CellAt(7) == Cell(2, 1);
  }

  class DrawingGrid {
    var cells: array<bool>

    ghost predicate Valid()
      reads this
    {
      cells.Length == CellCount
    }

    /** `createGrid`: 25 fresh children, none active. */
    constructor ()
      ensures Valid() && fresh(cells)
      ensures cells[..] == seq(CellCount, i => false)
    {
      cells := new bool[CellCount](i => false);
    }

    /** `createGrid` on an existing grid: every child inactive again. */
    method Clear()
      requires Valid()
      modifies cells
      ensures cells[..] == seq(CellCount, i => false)
    {
      var i := 0;
      while i < CellCount
        invariant 0 <= i <= CellCount
        invariant forall j :: 0 <= j < i ==> !cells[j]
      {
        cells[i] := false;
        i := i + 1;
      }
    }

    /** A click on child `i` toggles its `active` class. */
    method Toggle(i: nat)
      requires Valid() && i < CellCount
      modifies cells
      ensures cells[..] == old(cells[..])[i := !old(cells[i])]
    {
      cells[i] := !cells[i];
    }

    /** `loadShapeIntoGrid(shape)`. */
    method LoadShape(shape: seq<Cell>)
      requires Valid()
      modifies cells
      ensures cells[..] == Loaded(shape)
    {
      Clear();
      var k := 0;
      while k < |shape|
        invariant 0 <= k <= |shape|
        invariant cells[..] == Loaded(shape[..k])
      {
        var index := shape[k].y * Width + shape[k].x;
        LoadedExtend(shape, k);
        if 0 <= index < CellCount {
          cells[index] := true;
        }
        k := k + 1;
      }
      assert shape[..k] == shape;
    }

    /** `getGridShape()`. */
    method GetShape() returns (shape: seq<Cell>)
      requires Valid()
      ensures shape == ShapeOf(cells[..])
    {
      shape := [];
      var index := 0;
      while index < CellCount
        invariant 0 <= index <= CellCount
        invariant shape == ShapeOf(cells[..index])
      {
        assert cells[..index + 1][..index] == cells[..index];
        if cells[index] {
          shape := shape + [CellAt(index)];
        }
        index := index + 1;
      }
      assert cells[..index] == cells[..];
    }
  }

  lemma LoadedExtend(shape: seq<Cell>, k: nat)
    requires k < |shape|
    ensures var i := Index(shape[k]);
            Loaded(shape[..k + 1]) ==
              if 0 <= i < CellCount then Loaded(shape[..k])[i := true] else Loaded(shape[..k])
  {
    var i := Index(shape[k]);
    var before, after := shape[..k], shape[..k + 1];
    forall j | 0 <= j < CellCount ensures Covers(after, j) <==> Covers(before, j) || i == j {
      if Covers(after, j) {
        var m :| 0 <= m < |after| && Index(after[m]) == j;
        if m < k { assert before[m] == after[m]; }
      }
      if Covers(before, j) {
        var m :| 0 <= m < |before| && Index(before[m]) == j;
        assert after[m] == before[m];
      }
      if i == j { assert Index(after[k]) == j; }
    }
  }
}
