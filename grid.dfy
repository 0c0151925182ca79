/**
 * The reactive background grid of the portfolio site (DynamicGrid.tsx).
 *
 * The window is tiled into square cells of `CellSize` pixels. `InitGrid`
 * builds the cell list column by column (x in the outer loop, y in the inner
 * loop), and a mouse move re-draws the `filled` flag of the cells that lie
 * strictly within `Radius` pixels of the pointer, leaving every other cell as
 * it was. Pixel coordinates are integers; the pointer test uses the squared
 * distance, which decides `sqrt(dx*dx + dy*dy) < Radius` exactly.
 */
module Grid {

  /** Edge length of a cell, in pixels. */
  const CellSize: int := 20

  /** Radius around the pointer within which cells may change, in pixels. */
  const Radius: int := 100

  /** One tile of the grid: its top-left corner and whether it is drawn. */
  datatype GridCell = GridCell(x: int, y: int, filled: bool)

  // ---------------------------------------------------------------------------
  // Tessellation
  // ---------------------------------------------------------------------------

  /**
   * The number of iterations of `for (v = 0; v < extent; v += CellSize)`:
   * the ceiling of extent / CellSize for a positive extent, and none otherwise.
   */
  function CellsAlong(extent: int): (n: nat)
    ensures n == 0 <==> extent <= 0
    ensures extent > 0 ==> CellSize * (n - 1) < extent <= CellSize * n
  {
    if extent <= 0 then 0 else (extent + CellSize - 1) / CellSize
  }

  /** The cells the inner loop pushes for the column at `x`, top to bottom. */
  function Column(x: int, height: int): (col: seq<GridCell>)
  {
    seq(CellsAlong(height), r => GridCell(x, CellSize * r, false))
  }

  /** The first `k` columns of the grid, left to right, concatenated. */
  function Columns(k: nat, height: int): (cells: seq<GridCell>)
  {
    if k == 0 then [] else Columns(k - 1, height) + Column(CellSize * (k - 1), height)
  }

  /** The cell list that tiles a `width` x `height` window, in column-major order. */
  function Tiling(width: int, height: int): (cells: seq<GridCell>)
  {
    Columns(CellsAlong(width), height)
  }

  /**
   * Builds the cell list for a window of the given size with the two nested
   * loops of the source, appending one unfilled cell per iteration of the
   * inner loop.
   */
  method InitGrid(width: int, height: int) returns (cells: seq<GridCell>)
    ensures cells == Tiling(width, height)
  {
    cells := [];
    var x := 0;
    ghost var col: nat := 0;
    while x < width
      invariant x == CellSize * col
      invariant col <= CellsAlong(width)
      invariant cells == Columns(col, height)
      decreases width - x
    {
      var y := 0;
      ghost var row: nat := 0;
      while y < height
        invariant y == CellSize * row
        invariant row <= CellsAlong(height)
        invariant cells == Columns(col, height) + Column(x, height)[..row]
        decreases height - y
      {
        cells := cells + [GridCell(x, y, false)];
        y := y + CellSize;
        row := row + 1;
      }
      assert Column(x, height)[..row] == Column(x, height);
      x := x + CellSize;
      col := col + 1;
    }
  }

  /** The grid has one cell per column per row. */
  lemma {:induction false} ColumnsLength(k: nat, height: int)
    ensures |Columns(k, height)| == k * CellsAlong(height)
  {
    if k > 0 {
      ColumnsLength(k - 1, height);
    }
  }

  /** Cell number `c * rows + r` of the tiling is column `c`, row `r`. */
  lemma {:induction false} ColumnsAt(k: nat, height: int, c: nat, r: nat)
    requires c < k && r < CellsAlong(height)
    ensures c * CellsAlong(height) + r < |Columns(k, height)|
    ensures Columns(k, height)[c * CellsAlong(height) + r] == GridCell(CellSize * c, CellSize * r, false)
  {
    var rows := CellsAlong(height);
    ColumnsLength(k, height);
    ColumnsLength(k - 1, height);
    if c < k - 1 {
      ColumnsAt(k - 1, height, c, r);
    } else {
      assert c * rows == (k - 1) * rows;
    }
  }

  /** The number of cells is ceil(width/20) * ceil(height/20), and none for an empty window. */
  lemma TilingLength(width: int, height: int)
    ensures |Tiling(width, height)| == CellsAlong(width) * CellsAlong(height)
    ensures width <= 0 || height <= 0 ==> Tiling(width, height) == []
  {
    ColumnsLength(CellsAlong(width), height);
  }

  /**
   * Column-major order: for every column `c` and row `r` of the window, the
   * cell at index `c * rows + r` sits at (20c, 20r) and is unfilled.
   */
  lemma TilingAt(width: int, height: int, c: nat, r: nat)
    requires c < CellsAlong(width) && r < CellsAlong(height)
    ensures c * CellsAlong(height) + r < |Tiling(width, height)|
    ensures Tiling(width, height)[c * CellsAlong(height) + r] == GridCell(CellSize * c, CellSize * r, false)
  {
    ColumnsAt(CellsAlong(width), height, c, r);
  }

  /**
   * Every cell of the tiling is unfilled, lies inside the window on a
   * multiple of 20, and its position follows from its index.
   */
  lemma TilingCell(width: int, height: int, i: int)
    requires 0 <= i < |Tiling(width, height)|
    ensures CellsAlong(height) > 0
    ensures Tiling(width, height)[i]
         == GridCell(CellSize * (i / CellsAlong(height)), CellSize * (i % CellsAlong(height)), false)
    ensures var cell := Tiling(width, height)[i];
            && !cell.filled
            && cell.x % CellSize == 0 && 0 <= cell.x < width
            && cell.y % CellSize == 0 && 0 <= cell.y < height
  {
    var cols, rows := CellsAlong(width), CellsAlong(height);
    TilingLength(width, height);
    var c, r := IndexSplit(i, cols, rows);
    TilingAt(width, height, c, r);
    assert (CellSize * c) % CellSize == 0 && (CellSize * r) % CellSize == 0;
  }

  /** An index below cols * rows splits into a column below cols and a row below rows. */
  lemma IndexSplit(i: int, cols: nat, rows: nat) returns (c: nat, r: nat)
    requires 0 <= i < cols * rows
    ensures rows > 0 && c == i / rows && r == i % rows
    ensures c < cols && r < rows && i == c * rows + r
  {
    c, r := i / rows, i % rows;
    if c >= cols {
      MulMonotone(cols, c, rows);
    }
  }

  /** Multiplying by a natural number keeps the order. */
  lemma MulMonotone(a: nat, b: nat, n: nat)
    requires a <= b
    ensures a * n <= b * n
  {
  }

  // ---------------------------------------------------------------------------
  // Mouse move
  // ---------------------------------------------------------------------------

  /** The cell's corner lies strictly within `Radius` of the pointer. */
  predicate NearPointer(cell: GridCell, mouseX: int, mouseY: int)
  {
    var dx, dy := cell.x - mouseX, cell.y - mouseY;
    dx * dx + dy * dy < Radius * Radius
  }

  /** Both lists have the same length and the same cell positions, index by index. */
  predicate SameLayout(a: seq<GridCell>, b: seq<GridCell>)
  {
    |a| == |b| && forall i :: 0 <= i < |a| ==> a[i].x == b[i].x && a[i].y == b[i].y
  }

  /**
   * What a mouse move may do: keep the list's length, order and positions,
   * and change `filled` only on cells near the pointer.
   */
  predicate MayChange(before: seq<GridCell>, after: seq<GridCell>, mouseX: int, mouseY: int)
  {
    && SameLayout(before, after)
    && forall i :: 0 <= i < |before| && !NearPointer(before[i], mouseX, mouseY) ==> after[i] == before[i]
  }

  /**
   * The update applied to one cell: a copy with a freshly drawn `filled` when
   * it is near the pointer, the cell itself otherwise.
   */
  function MoveCell(cell: GridCell, mouseX: int, mouseY: int, draw: bool): (r: GridCell)
  {
    if NearPointer(cell, mouseX, mouseY) then cell.(filled := draw) else cell
  }

  /**
   * The mouse-move update of the whole list. `draw(i)` stands for the outcome
   * of the random test made for cell number `i`.
   */
  function Step(cells: seq<GridCell>, mouseX: int, mouseY: int, draw: nat -> bool): (r: seq<GridCell>)
    ensures MayChange(cells, r, mouseX, mouseY)
    ensures forall i :: 0 <= i < |cells| && NearPointer(cells[i], mouseX, mouseY) ==> r[i].filled == draw(i)
  {
    var r := seq(|cells|, i requires 0 <= i < |cells| => MoveCell(cells[i], mouseX, mouseY, draw(i)));
    assert forall i :: 0 <= i < |cells| ==> r[i] == MoveCell(cells[i], mouseX, mouseY, draw(i));
    r
  }

  /**
   * The converse of `Step`'s contract: every change a mouse move may make is
   * made by some outcome of the random draws.
   */
  lemma StepReachesEveryChange(before: seq<GridCell>, after: seq<GridCell>, mouseX: int, mouseY: int)
    requires MayChange(before, after, mouseX, mouseY)
    ensures Step(before, mouseX, mouseY, (i: nat) => i < |after| && after[i].filled) == after
  {
  }

  /** A pointer far from every cell leaves the list as it is. */
  lemma StepFarAway(cells: seq<GridCell>, mouseX: int, mouseY: int, draw: nat -> bool)
    requires forall i :: 0 <= i < |cells| ==> !NearPointer(cells[i], mouseX, mouseY)
    ensures Step(cells, mouseX, mouseY, draw) == cells
  {
  }

  /** A pointer event with its position. */
  datatype PointerEvent = PointerEvent(clientX: int, clientY: int)

  /**
   * A run of mouse moves; `draws(k)` stands for the random outcomes of the
   * `k`-th move.
   */
  function Moves(cells: seq<GridCell>, events: seq<PointerEvent>, draws: nat -> nat -> bool): (r: seq<GridCell>)
    decreases |events|
  {
    if events == [] then cells
    else
      var e := events[|events| - 1];
      Step(Moves(cells, events[..|events| - 1], draws), e.clientX, e.clientY, draws(|events| - 1))
  }

  /**
   * However many mouse moves follow a rebuild, the list keeps the rebuilt
   * grid's length and column-major positions; only `filled` flags differ.
   */
  lemma {:induction false} MovesKeepLayout(width: int, height: int, events: seq<PointerEvent>, draws: nat -> nat -> bool)
    ensures SameLayout(Moves(Tiling(width, height), events, draws), Tiling(width, height))
  {
    if events != [] {
      MovesKeepLayout(width, height, events[..|events| - 1], draws);
    }
  }

  // ---------------------------------------------------------------------------
  // The component's cell state
  // ---------------------------------------------------------------------------

  /**
   * The component's `cells` state. Mounting builds the grid for the window;
   * a resize rebuilds it from scratch and a mouse move replaces it by the
   * mapped list. `width` and `height` record the window size of the last
   * rebuild.
   */
  class DynamicGrid {
    var cells: seq<GridCell>
    ghost var width: int
    ghost var height: int

    /** The list always has the layout of the grid for the last window size. */
    ghost predicate Valid()
      reads this
    {
      SameLayout(cells, Tiling(width, height))
    }

    /** Mount: the state starts empty and the first `initGrid` fills it. */
    constructor (windowWidth: int, windowHeight: int)
      ensures Valid()
      ensures width == windowWidth && height == windowHeight
      ensures cells == Tiling(windowWidth, windowHeight)
    {
      cells := [];
      width, height := windowWidth, windowHeight;
      new;
      cells := InitGrid(windowWidth, windowHeight);
    }

    /** A resize: the list is replaced, so no earlier `filled` survives. */
    method Resize(windowWidth: int, windowHeight: int)
      modifies this
      ensures Valid()
      ensures width == windowWidth && height == windowHeight
      ensures cells == Tiling(windowWidth, windowHeight)
      ensures forall i :: 0 <= i < |cells| ==> !cells[i].filled
    {
      cells := InitGrid(windowWidth, windowHeight);
      width, height := windowWidth, windowHeight;
      forall i | 0 <= i < |cells|
        ensures !cells[i].filled
      {
        TilingCell(windowWidth, windowHeight, i);
      }
    }

    /** A mouse move at (mouseX, mouseY) with the given random outcomes. */
    method MouseMove(mouseX: int, mouseY: int, draw: nat -> bool)
      requires Valid()
      modifies this
      ensures Valid()
      ensures width == old(width) && height == old(height)
      ensures cells == Step(old(cells), mouseX, mouseY, draw)
    {
      cells := Step(cells, mouseX, mouseY, draw);
    }
  }
}
