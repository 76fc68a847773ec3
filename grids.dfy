/**
 * Model of src/grid.rs: the grid of cells, its point/index arithmetic,
 * the neighbourhood enumeration and the two-phase generation step.
 */
module Grids {
  import opened Wrappers
  import opened Points
  import opened Cells

  /** The offsets `[-1, 0, 1]` that `get_neighbours` iterates over, for `dx` and for `dy`. */
  const Deltas: seq<int> := [-1, 0, 1]

  // ---------------------------------------------------------------------------
  // Arithmetic facts about the layout `x * h + y`

  /** Multiplication by a natural number is monotonic. */
  lemma MulMonotone(a: int, b: int, d: nat)
    ensures a <= b ==> a * d <= b * d
  {
    if a <= b {
      assert b * d - a * d == (b - a) * d;
    }
  }

  /** The only multiple of `d` strictly between `-d` and `d` is zero. */
  lemma SmallMultiple(k: int, d: int)
    requires 0 < d && -d < k * d < d
    ensures k == 0
  {
    MulMonotone(1, k, d);
    MulMonotone(k, -1, d);
  }

  /** Quotient and remainder of `q * d + r` by `d` when `r < d`. */
  lemma DivModOf(q: nat, r: nat, d: nat)
    requires r < d
    ensures (q * d + r) / d == q && (q * d + r) % d == r
  {
    var n := q * d + r;
    var q', r' := n / d, n % d;
    assert n == q' * d + r' && 0 <= r' < d;
    assert (q - q') * d == q * d - q' * d == r' - r;
    SmallMultiple(q - q', d);
  }

  /** A position `(x, y)` inside a `w` by `h` grid has its layout index below `w * h`. */
  lemma LayoutBound(x: nat, y: nat, w: nat, h: nat)
    requires x < w && y < h
    ensures x * h + y < w * h
  {
    MulMonotone(x + 1, w, h);
    assert (x + 1) * h == x * h + h;
  }

  /** An index below `w * h` has its quotient by `h` below `w`. */
  lemma QuotientBound(i: nat, w: nat, h: nat)
    requires i < w * h
    ensures h > 0 && i / h < w
  {
    assert w * 0 == 0;
    var q := i / h;
    assert i == q * h + i % h;
    MulMonotone(w, q, h);
  }

  // ---------------------------------------------------------------------------
  // Construction layout

  /**
   * The cells `Grid::new` pushes, in push order: `x` in the outer loop and `y` in
   * the inner one, the liveness bit of the `k`-th push being `seed[k]`.
   */
  function Layout(w: nat, h: nat, seed: seq<bool>): (cells: seq<Cell>)
    requires |seed| == w * h
    ensures |cells| == w * h
    ensures forall i :: 0 <= i < |cells| ==> cells[i].IsAlive() == seed[i]
  {
    seq(w * h, i requires 0 <= i < w * h => Cell.New(seed[i], i / h, i % h))
  }

  /** The cell at index `x * h + y` of the layout has coordinates `(x, y)`. */
  lemma LayoutAt(w: nat, h: nat, seed: seq<bool>, x: nat, y: nat)
    requires |seed| == w * h && x < w && y < h
    ensures x * h + y < |Layout(w, h, seed)|
    ensures Layout(w, h, seed)[x * h + y] == Cell.New(seed[x * h + y], x, y)
  {
    LayoutBound(x, y, w, h);
    DivModOf(x, y, h);
  }

  /** Every cell of the layout sits at `(i / h, i % h)`. */
  lemma LayoutValid(w: nat, h: nat, seed: seq<bool>)
    requires |seed| == w * h
    ensures forall i :: 0 <= i < w * h ==>
              h > 0 && Layout(w, h, seed)[i].x == i / h && Layout(w, h, seed)[i].y == i % h
  {
    forall i | 0 <= i < w * h
      ensures h > 0 && Layout(w, h, seed)[i].x == i / h && Layout(w, h, seed)[i].y == i % h
    {
      QuotientBound(i, w, h);
    }
  }

  // ---------------------------------------------------------------------------
  // Counting alive cells

  /** Number of alive cells in `s` (the counter of `nb_alive_neighbors`). */
  function AliveCount(s: seq<Cell>): (n: nat)
    ensures n <= |s|
  {
    if s == [] then 0
    else AliveCount(s[..|s| - 1]) + (if s[|s| - 1].IsAlive() then 1 else 0)
  }

  lemma {:induction false} AliveCountAppend(a: seq<Cell>, b: seq<Cell>)
    ensures AliveCount(a + b) == AliveCount(a) + AliveCount(b)
    decreases |b|
  {
    if b != [] {
      assert (a + b)[..|a + b| - 1] == a + b[..|b| - 1];
      AliveCountAppend(a, b[..|b| - 1]);
    } else {
      assert a + b == a;
    }
  }

  /** The count is zero exactly when no cell is alive. */
  lemma {:induction false} AliveCountZero(s: seq<Cell>)
    ensures AliveCount(s) == 0 <==> forall i :: 0 <= i < |s| ==> !s[i].IsAlive()
  {
    if s != [] {
      var p := s[..|s| - 1];
      AliveCountZero(p);
      assert forall i :: 0 <= i < |p| ==> p[i] == s[i];
    }
  }

  /** The count equals the length exactly when every cell is alive. */
  lemma {:induction false} AliveCountFull(s: seq<Cell>)
    ensures AliveCount(s) == |s| <==> forall i :: 0 <= i < |s| ==> s[i].IsAlive()
  {
    if s != [] {
      var p := s[..|s| - 1];
      AliveCountFull(p);
      assert forall i :: 0 <= i < |p| ==> p[i] == s[i];
    }
  }

  // ---------------------------------------------------------------------------
  // The grid

  class Grid {
    const width: nat
    const height: nat
    var cells: seq<Cell>

    /**
     * What `Grid::new` establishes and `update` keeps: `width * height` cells,
     * the one at index `i` sitting at `(i / height, i % height)`.
     */
    ghost predicate Valid()
      reads this
    {
      && |cells| == width * height
      && forall i :: 0 <= i < |cells| ==>
           height > 0 && cells[i].x == i / height && cells[i].y == i % height
    }

    /** `Grid::new(width, height)`, with the random liveness bits given as `seed`. */
    constructor (width: nat, height: nat, seed: seq<bool>)
      requires |seed| == width * height
      ensures this.width == width && this.height == height
      ensures cells == Layout(width, height, seed)
      ensures Valid()
    {
      this.width := width;
      this.height := height;
      var pushed: seq<Cell> := [];
      ghost var layout := Layout(width, height, seed);
      for x := 0 to width
        invariant |pushed| == x * height <= |layout|
        invariant pushed == layout[..|pushed|]
      {
        for y := 0 to height
          invariant |pushed| == x * height + y <= |layout|
          invariant pushed == layout[..|pushed|]
        {
          LayoutAt(width, height, seed, x, y);
          pushed := pushed + [Cell.New(seed[|pushed|], x, y)];
        }
        assert (x + 1) * height == x * height + height;
        MulMonotone(x + 1, width, height);
      }
      assert pushed == layout;
      LayoutValid(width, height, seed);
      cells := pushed;
    }

    /** `within_coords`: both bounds are inclusive. */
    predicate WithinCoords(p: Point)
      ensures WithinCoords(p) <==> p.x <= width && p.y <= height
    {
      p.x >= 0 && p.x <= width && p.y >= 0 && p.y <= height
    }

    /**
     * `point_from_idx`: only an index above the length is refused. The divisions
     * by `width` and `height` panic on zero, hence the precondition.
     */
    function PointFromIdx(idx: nat): (r: Option<Point>)
      requires width > 0 && height > 0
      reads this
      ensures r.None? <==> idx > |cells|
      ensures r.Some? ==> r.value == Point(idx % width, idx / height)
      ensures r.Some? ==> r.value.x < width
    {
      if idx > |cells| then None else Some(Point(idx % width, idx / height))
    }

    /** `idx_from_point`: no check on `p.y` against `height`. */
    function IdxFromPoint(p: Point): (r: Option<nat>)
      reads this
      ensures r.Some? <==> p.x * width + p.y < |cells|
      ensures r.Some? ==> r.value == p.x * width + p.y && r.value < |cells|
    {
      if p.x * width + p.y < |cells| then Some(p.x * width + p.y) else None
    }

    /** `get_cell`: the cell at the index `idx_from_point` gives, if any. */
    function GetCell(p: Point): (r: Option<Cell>)
      reads this
      ensures r.Some? <==> IdxFromPoint(p).Some?
      ensures r.Some? ==> r.value == cells[IdxFromPoint(p).value]
    {
      match IdxFromPoint(p)
      case Some(idx) => Some(cells[idx])
      case None => None
    }

    /** The point `get_neighbours` tries for the offset `(dx, dy)` of `c`, if it converts. */
    function ShiftedPoint(c: Cell, dx: int, dy: int): (r: Result<Point, TryFromIntError>)
      ensures r.Success? <==> AsIsize(c.x) + dx >= 0 && AsIsize(c.y) + dy >= 0
      ensures r.Success? ==> r.value == Point(AsIsize(c.x) + dx, AsIsize(c.y) + dy)
    {
      TryFrom((AsIsize(c.x) + dx, AsIsize(c.y) + dy))
    }

    /** What one pass of the inner loop of `get_neighbours` pushes for the offset `(dx, dy)`. */
    ghost function NeighbourAt(c: Cell, dx: int, dy: int): (r: seq<Cell>)
      reads this
      ensures |r| <= 1
      ensures r != [] ==> r[0] in cells
    {
      if dx == 0 && dy == 0 then []
      else match ShiftedPoint(c, dx, dy)
        case Success(p) => (match GetCell(p) case Some(n) => [n] case None => [])
        case Failure(_) => []
    }

    /**
     * An offset contributes a cell exactly when it is not `(0, 0)`, both shifted
     * coordinates are non-negative and `x * width + y` is below the length; the
     * cell contributed is the one at that index, whether or not `y < height`.
     */
    lemma NeighbourAtSpec(c: Cell, dx: int, dy: int)
      ensures NeighbourAt(c, dx, dy) != [] <==>
                && !(dx == 0 && dy == 0)
                && AsIsize(c.x) + dx >= 0 && AsIsize(c.y) + dy >= 0
                && (AsIsize(c.x) + dx) * width + (AsIsize(c.y) + dy) < |cells|
      ensures NeighbourAt(c, dx, dy) != [] ==>
                NeighbourAt(c, dx, dy) == [cells[(AsIsize(c.x) + dx) * width + (AsIsize(c.y) + dy)]]
    {
    }

    /** What `neighbours` holds once the inner loop has run for `dy` from `Deltas[j]` on, starting from `acc`. */
    ghost function RowFrom(acc: seq<Cell>, c: Cell, dx: int, j: nat): (r: seq<Cell>)
      reads this
      decreases |Deltas| - j
    {
      if j >= |Deltas| then acc
      else RowFrom(acc + NeighbourAt(c, dx, Deltas[j]), c, dx, j + 1)
    }

    /** What `neighbours` holds once the outer loop has run for `dx` from `Deltas[i]` on, starting from `acc`. */
    ghost function OverFrom(acc: seq<Cell>, c: Cell, i: nat): (r: seq<Cell>)
      reads this
      decreases |Deltas| - i
    {
      if i >= |Deltas| then acc
      else OverFrom(RowFrom(acc, c, Deltas[i], 0), c, i + 1)
    }

    /** The result of `get_neighbours(c)`. */
    ghost function Neighbours(c: Cell): (r: seq<Cell>)
      reads this
      ensures |r| <= 8
      ensures forall n :: n in r ==> n in cells
    {
      NeighboursByOffset(c);
      OverFrom([], c, 0)
    }

    /** The result of `nb_alive_neighbors(c)`. */
    ghost function AliveNeighbours(c: Cell): (k: nat)
      reads this
      ensures k <= |Neighbours(c)| <= 8
    {
      AliveCount(Neighbours(c))
    }

    /**
     * The generation `update` commits: every cell keeps its coordinates and takes
     * `next_state` of the alive-neighbour count on the current cells.
     */
    ghost function NextCells(): (next: seq<Cell>)
      reads this
      ensures |next| == |cells|
      ensures forall i :: 0 <= i < |cells| ==>
                && next[i].x == cells[i].x && next[i].y == cells[i].y
                && next[i].IsAlive() == cells[i].NextState(AliveNeighbours(cells[i]) as u8)
    {
      seq(|cells|, i requires 0 <= i < |cells| reads this =>
        Cell.New(cells[i].NextState(AliveNeighbours(cells[i]) as u8), cells[i].x, cells[i].y))
    }

    /** One pass of the inner loop appends the three offsets `dy = -1, 0, 1` in order. */
    lemma RowFromStart(acc: seq<Cell>, c: Cell, dx: int)
      ensures RowFrom(acc, c, dx, 0)
              == acc + NeighbourAt(c, dx, -1) + NeighbourAt(c, dx, 0) + NeighbourAt(c, dx, 1)
    {
      assert RowFrom(acc, c, dx, 0) == RowFrom(acc + NeighbourAt(c, dx, -1), c, dx, 1);
      var acc1 := acc + NeighbourAt(c, dx, -1);
      var acc2 := acc1 + NeighbourAt(c, dx, 0);
      assert RowFrom(acc1, c, dx, 1) == RowFrom(acc2, c, dx, 2);
      assert RowFrom(acc2, c, dx, 2) == RowFrom(acc2 + NeighbourAt(c, dx, 1), c, dx, 3);
    }

    /**
     * `get_neighbours` tries the eight offsets other than `(0, 0)`; its result adds
     * up what each offset contributes (see `NeighbourAtSpec`): in length, in live
     * cells and in members.
     */
    lemma NeighboursByOffset(c: Cell)
      ensures var r := OverFrom([], c, 0);
              && |r| == |NeighbourAt(c, -1, -1)| + |NeighbourAt(c, -1, 0)| + |NeighbourAt(c, -1, 1)|
                      + |NeighbourAt(c, 0, -1)| + |NeighbourAt(c, 0, 1)|
                      + |NeighbourAt(c, 1, -1)| + |NeighbourAt(c, 1, 0)| + |NeighbourAt(c, 1, 1)|
              && AliveCount(r) == AliveCount(NeighbourAt(c, -1, -1)) + AliveCount(NeighbourAt(c, -1, 0))
                                  + AliveCount(NeighbourAt(c, -1, 1)) + AliveCount(NeighbourAt(c, 0, -1))
                                  + AliveCount(NeighbourAt(c, 0, 1)) + AliveCount(NeighbourAt(c, 1, -1))
                                  + AliveCount(NeighbourAt(c, 1, 0)) + AliveCount(NeighbourAt(c, 1, 1))
              && forall n :: n in r <==>
                   || n in NeighbourAt(c, -1, -1) || n in NeighbourAt(c, -1, 0) || n in NeighbourAt(c, -1, 1)
                   || n in NeighbourAt(c, 0, -1) || n in NeighbourAt(c, 0, 1)
                   || n in NeighbourAt(c, 1, -1) || n in NeighbourAt(c, 1, 0) || n in NeighbourAt(c, 1, 1)
    {
      var r1 := RowFrom([], c, -1, 0);
      var r2 := RowFrom(r1, c, 0, 0);
      var r3 := RowFrom(r2, c, 1, 0);
      assert OverFrom([], c, 0) == OverFrom(r1, c, 1);
      assert OverFrom(r1, c, 1) == OverFrom(r2, c, 2);
      assert OverFrom(r2, c, 2) == r3;
      RowFromStart([], c, -1);
      RowFromStart(r1, c, 0);
      RowFromStart(r2, c, 1);
      assert NeighbourAt(c, 0, 0) == [];
      var n1 := NeighbourAt(c, -1, -1);
      var n2 := NeighbourAt(c, -1, 0);
      var n3 := NeighbourAt(c, -1, 1);
      var n4 := NeighbourAt(c, 0, -1);
      var n6 := NeighbourAt(c, 0, 1);
      var n7 := NeighbourAt(c, 1, -1);
      var n8 := NeighbourAt(c, 1, 0);
      var n9 := NeighbourAt(c, 1, 1);
      AliveCountAppend([], n1);
      AliveCountAppend([] + n1, n2);
      AliveCountAppend([] + n1 + n2, n3);
      AliveCountAppend(r1, n4);
      AliveCountAppend(r1 + n4, []);
      AliveCountAppend(r1 + n4 + [], n6);
      AliveCountAppend(r2, n7);
      AliveCountAppend(r2 + n7, n8);
      AliveCountAppend(r2 + n7 + n8, n9);
    }

    /** `get_neighbours`: the nested loops over the offsets, pushing every cell found. */
    method GetNeighbours(c: Cell) returns (neighbours: seq<Cell>)
      ensures neighbours == Neighbours(c)
      ensures |neighbours| <= 8
    {
      neighbours := [];
      for i := 0 to |Deltas|
        invariant OverFrom(neighbours, c, i) == Neighbours(c)
      {
        var dx := Deltas[i];
        for j := 0 to |Deltas|
          invariant OverFrom(RowFrom(neighbours, c, dx, j), c, i + 1) == Neighbours(c)
        {
          var dy := Deltas[j];
          if dx == 0 && dy == 0 {
            assert NeighbourAt(c, dx, dy) == [] && neighbours + [] == neighbours;
            continue;
          }
          ghost var before := neighbours;
          var tuple := (AsIsize(c.x) + dx, AsIsize(c.y) + dy);
          var converted := TryFrom(tuple);
          if converted.Success? {
            var found := GetCell(converted.value);
            if found.Some? {
              neighbours := neighbours + [found.value];
            }
          }
          assert neighbours == before + NeighbourAt(c, dx, dy);
        }
      }
    }

    /** `nb_alive_neighbors`: a `u8` counter over the neighbours; it never exceeds 8. */
    method NbAliveNeighbors(c: Cell) returns (alive: u8)
      ensures alive as int == AliveNeighbours(c)
      ensures alive <= 8
    {
      var neighbours := GetNeighbours(c);
      alive := 0;
      for k := 0 to |neighbours|
        invariant alive as int == AliveCount(neighbours[..k])
      {
        assert neighbours[..k + 1][..k] == neighbours[..k];
        if neighbours[k].IsAlive() {
          alive := alive + 1;
        }
      }
      assert neighbours[..|neighbours|] == neighbours;
    }

    /**
     * Phase 1 of `update`: the next state of every cell, read from the current
     * cells only (the source runs this map in parallel; each index is independent).
     */
    method NextStates() returns (next: seq<bool>)
      ensures |next| == |cells|
      ensures forall i :: 0 <= i < |cells| ==>
                next[i] == cells[i].NextState(AliveNeighbours(cells[i]) as u8)
    {
      next := [];
      for idx := 0 to |cells|
        invariant |next| == idx
        invariant forall j :: 0 <= j < idx ==>
                    next[j] == cells[j].NextState(AliveNeighbours(cells[j]) as u8)
      {
        var cell := cells[idx];
        var nbAlive := NbAliveNeighbors(cell);
        next := next + [cell.NextState(nbAlive)];
      }
    }

    /**
     * `update`: phase 1 computes every next state from the unmodified cells,
     * phase 2 writes them back, keeping each cell's coordinates.
     */
    method Update()
      modifies this
      ensures cells == old(NextCells())
      ensures old(Valid()) ==> Valid()
    {
      ghost var target := NextCells();
      var nextStates := NextStates();
      for idx := 0 to |cells|
        invariant |cells| == |target|
        invariant forall j :: 0 <= j < idx ==> cells[j] == target[j]
        invariant forall j :: idx <= j < |cells| ==> cells[j] == old(cells[j])
      {
        var cell := cells[idx];
        cells := cells[idx := Cell.New(nextStates[idx], cell.x, cell.y)];
      }
    }

    // -------------------------------------------------------------------------
    // What the index arithmetic does on a grid built by `Grid::new`

    /** The construction layout: index `x * height + y` holds the cell at `(x, y)`. */
    lemma CellAtLayoutIndex(x: nat, y: nat)
      requires Valid() && x < width && y < height
      ensures x * height + y < |cells|
      ensures cells[x * height + y].x == x && cells[x * height + y].y == y
    {
      LayoutBound(x, y, width, height);
      DivModOf(x, y, height);
    }

    /** `get_cell(p)` finds, for every point inside the grid, the cell stored with those coordinates. */
    ghost predicate GetCellFaithful()
      reads this
    {
      forall p: Point :: p.x < width && p.y < height ==>
        GetCell(p).Some? && GetCell(p).value.x == p.x && GetCell(p).value.y == p.y
    }

    /**
     * `idx_from_point` uses `x * width + y` while `Grid::new` lays cells out at
     * `x * height + y`: `get_cell` is faithful exactly on square grids, and on the
     * degenerate ones (an empty grid or a single column).
     */
    lemma GetCellFaithfulIffSquare()
      requires Valid()
      ensures GetCellFaithful() <==> width == height || width <= 1 || height == 0
    {
      if width == height {
        forall p: Point | p.x < width && p.y < height
          ensures GetCell(p).Some? && GetCell(p).value.x == p.x && GetCell(p).value.y == p.y
        {
          CellAtLayoutIndex(p.x, p.y);
        }
      } else if width == 1 {
        forall p: Point | p.x < width && p.y < height
          ensures GetCell(p).Some? && GetCell(p).value.x == p.x && GetCell(p).value.y == p.y
        {
          CellAtLayoutIndex(p.x, p.y);
        }
      } else if width >= 2 && height >= 1 {
        var p := Point(1, 0);
        if GetCell(p).Some? {
          var c := GetCell(p).value;
          assert c == cells[width];
          assert width == (width / height) * height + width % height;
          assert c.x != 1 || c.y != 0;
        }
        assert !GetCellFaithful();
      }
    }

    /**
     * An off-grid point `(x, height)` of a square grid resolves to a real cell:
     * the first cell `(x + 1, 0)` of the next column.
     */
    lemma OffGridPointResolves(x: nat)
      requires Valid() && width == height && x + 1 < width
      ensures GetCell(Point(x, height)).Some?
      ensures GetCell(Point(x, height)).value == cells[(x + 1) * width]
      ensures cells[(x + 1) * width].x == x + 1 && cells[(x + 1) * width].y == 0
    {
      assert x * width + height == (x + 1) * width + 0;
      CellAtLayoutIndex(x + 1, 0);
    }

    /**
     * Hence the neighbourhood is not bounded at the bottom edge of a square grid:
     * the offset `(0, +1)` of the cell at `(x, height - 1)` yields the cell at `(x + 1, 0)`.
     */
    lemma BottomEdgeNeighbourWraps(c: Cell)
      requires Valid() && width == height && |cells| <= ISIZE_MAX
      requires c.x + 1 < width && c.y == height - 1
      ensures NeighbourAt(c, 0, 1) == [cells[(c.x + 1) * width]]
      ensures cells[(c.x + 1) * width].x == c.x + 1 && cells[(c.x + 1) * width].y == 0
      ensures cells[(c.x + 1) * width] in Neighbours(c)
    {
      MulMonotone(1, width, width);
      assert c.x <= ISIZE_MAX && c.y <= ISIZE_MAX;
      var sx, sy := AsIsize(c.x) + 0, AsIsize(c.y) + 1;
      assert sx == c.x && sy == height;
      var k := (c.x + 1) * width;
      assert sx * width + sy == k by {
        assert (c.x + 1) * width == c.x * width + width;
      }
      CellAtLayoutIndex(c.x + 1, 0);
      NeighbourAtSpec(c, 0, 1);
      assert NeighbourAt(c, 0, 1) == [cells[k]];
      NeighboursByOffset(c);
      assert cells[(c.x + 1) * width] in NeighbourAt(c, 0, 1);
    }

    /** `within_coords` accepts `(width, height)`, where no cell of the grid lies. */
    lemma WithinCoordsAcceptsOffGrid()
      requires Valid()
      ensures WithinCoords(Point(width, height))
      ensures forall i :: 0 <= i < |cells| ==> cells[i].x < width
    {
      forall i | 0 <= i < |cells|
        ensures cells[i].x < width
      {
        QuotientBound(i, width, height);
      }
    }

    /** `point_from_idx` lets the one-past-the-end index through, giving `(0, width)`. */
    lemma PointFromIdxPastTheEnd()
      requires Valid() && width > 0 && height > 0
      ensures PointFromIdx(|cells|) == Some(Point(0, width))
    {
      DivModOf(width, 0, height);
      assert width * height == height * width + 0;
      DivModOf(height, 0, width);
    }

    /** On a square grid `point_from_idx(i)` is the transpose of the cell's coordinates. */
    lemma PointFromIdxTransposes(i: nat)
      requires Valid() && width == height && i < |cells|
      ensures PointFromIdx(i) == Some(Point(cells[i].y, cells[i].x))
    {
    }

    /**
     * So `idx_from_point(point_from_idx(i))` is the transposed index, not `i`:
     * it takes index 1 to index `width`.
     */
    lemma IndexRoundTripFails()
      requires Valid() && width == height && width >= 2
      ensures PointFromIdx(1) == Some(Point(1, 0))
      ensures IdxFromPoint(Point(1, 0)) == Some(width) && width != 1
    {
      DivModOf(0, 1, width);
      MulMonotone(2, width, width);
    }

    /** Going through the transpose twice returns to the index. */
    lemma IndexRoundTripTwice(i: nat)
      requires Valid() && width == height && i < |cells|
      ensures IdxFromPoint(PointFromIdx(i).value).Some?
      ensures var t := IdxFromPoint(PointFromIdx(i).value).value;
              IdxFromPoint(PointFromIdx(t).value) == Some(i)
    {
      var n := width;
      QuotientBound(i, n, n);
      var q, r := i / n, i % n;
      assert i == q * n + r;
      CellAtLayoutIndex(r, q);
      var t := r * n + q;
      DivModOf(r, q, n);
      assert PointFromIdx(t).value == Point(q, r);
    }

    // -------------------------------------------------------------------------
    // The generation step

    /** In a grid with no live cell, no cell has a live neighbour. */
    lemma NoLiveNeighbour(c: Cell)
      requires forall i :: 0 <= i < |cells| ==> !cells[i].IsAlive()
      ensures AliveNeighbours(c) == 0
    {
      var ns := Neighbours(c);
      forall j | 0 <= j < |ns|
        ensures !ns[j].IsAlive()
      {
        assert ns[j] in ns;
        assert ns[j] in cells;
      }
      AliveCountZero(ns);
    }

    /** In a grid where every cell is alive, every neighbour found is counted. */
    lemma AllLiveNeighbours(c: Cell)
      requires forall i :: 0 <= i < |cells| ==> cells[i].IsAlive()
      ensures AliveNeighbours(c) == |Neighbours(c)|
    {
      var ns := Neighbours(c);
      forall j | 0 <= j < |ns|
        ensures ns[j].IsAlive()
      {
        assert ns[j] in ns;
        assert ns[j] in cells;
      }
      AliveCountFull(ns);
    }

    /** A grid with no live cell is a fixed point of `update`. */
    lemma DeadGridIsFixedPoint()
      requires forall i :: 0 <= i < |cells| ==> !cells[i].IsAlive()
      ensures NextCells() == cells
    {
      var next := NextCells();
      forall i | 0 <= i < |cells|
        ensures next[i] == cells[i]
      {
        NoLiveNeighbour(cells[i]);
        assert cells[i] == Cell.New(false, cells[i].x, cells[i].y);
      }
    }

    /**
     * On the 2 by 2 grid with live cells at `(0, 0)` and `(1, 1)`, the dead cell at
     * `(0, 1)` sees four neighbours, `(1, 0)` twice, two of them alive, and is born.
     */
    lemma DiagonalPairBirth()
      requires width == 2 && height == 2
      requires cells == [Cell(0, 0, true), Cell(0, 1, false), Cell(1, 0, false), Cell(1, 1, true)]
      ensures NeighbourAt(cells[1], 0, 1) == NeighbourAt(cells[1], 1, -1) == [cells[2]]
      ensures |Neighbours(cells[1])| == 4
      ensures AliveNeighbours(cells[1]) == 2
      ensures NextCells()[1].IsAlive() && !ConwayNext(cells[1].IsAlive(), 2)
    {
      var c := cells[1];
      assert AsIsize(0) == 0 && AsIsize(1) == 1;
      NeighboursByOffset(c);
      NeighbourAtSpec(c, -1, -1);
      NeighbourAtSpec(c, -1, 0);
      NeighbourAtSpec(c, -1, 1);
      NeighbourAtSpec(c, 0, -1);
      NeighbourAtSpec(c, 0, 1);
      NeighbourAtSpec(c, 1, -1);
      NeighbourAtSpec(c, 1, 0);
      NeighbourAtSpec(c, 1, 1);
      assert NeighbourAt(c, 0, -1) == [cells[0]];
      assert NeighbourAt(c, 1, 0) == [cells[3]];
      assert NeighbourAt(c, 1, 1) == [];
      assert AliveCount([cells[0]]) == 1 by { assert [cells[0]][..0] == []; }
      assert AliveCount([cells[2]]) == 0 by { assert [cells[2]][..0] == []; }
      assert AliveCount([cells[3]]) == 1 by { assert [cells[3]][..0] == []; }
    }
  }
}
