/**
 * The raster state of the HydroFlood plugin and its three grid operations:
 * the recursive 4-connected flood fill `Dfs`, the seed loop `FloodHydro` that
 * floods every seed into one label grid and adds that grid into the persisted
 * "Hydro Raster", and the two-click `Erase` of a block of that raster.
 *
 * Grids are `array2<int>` indexed [row, col]; pixels are (col, row).  The
 * persisted raster holds int8 values; the label grid holds only 0 and 1.
 */
module HydroFlood {
  import opened Connectivity
  import opened Regions
  import opened FloodFill
  import opened Int8
  import opened Eraser

  /** `a` holds 1 on the cells of `S` and 0 on every other cell. */
  ghost predicate Indicates(a: array2<int>, S: set<Pixel>)
    reads a
  {
    forall r, c :: 0 <= r < a.Length0 && 0 <= c < a.Length1 ==>
      a[r, c] == if Pixel(c, r) in S then 1 else 0
  }

  /** Element-wise int8 addition of `b` into `a`, as numpy adds two int8 arrays in place. */
  method AddInt8(a: array2<int>, b: array2<int>)
    requires a != b && a.Length0 == b.Length0 && a.Length1 == b.Length1
    modifies a
    ensures forall r, c :: 0 <= r < a.Length0 && 0 <= c < a.Length1 ==>
      a[r, c] == Wrap(old(a[r, c]) + b[r, c])
  {
    forall r, c | 0 <= r < a.Length0 && 0 <= c < a.Length1 {
      a[r, c] := Wrap(a[r, c] + b[r, c]);
    }
  }

  class HydroFlood {
    /** Source band of the current flood, as read from the raster. */
    var data: Grid
    /** Label grid of the current flood: 1 labelled, 0 not. */
    var hydrodata: array2<int>
    /** Source value of the seed being flooded. */
    var value: int
    /** (height - 1, width - 1) of the source raster. */
    var bounds: (int, int)
    /** First click of a pending erase, if any. */
    var prevClick: Anchor
    /** The persisted int8 "Hydro Raster" band. */
    var hydroRaster: array2<int>


    /** The persisted band holds int8 values only. */
    ghost predicate Valid()
      reads this`hydroRaster, hydroRaster
    {
      forall r, c :: 0 <= r < hydroRaster.Length0 && 0 <= c < hydroRaster.Length1 ==>
        IsInt8(hydroRaster[r, c])
    }

    /** A fresh plugin state over a newly created, all no-data (0) raster of the given size. */
    constructor (height: nat, width: nat)
      ensures Valid() && fresh(hydroRaster)
      ensures hydroRaster.Length0 == height && hydroRaster.Length1 == width
      ensures forall r, c :: 0 <= r < height && 0 <= c < width ==> hydroRaster[r, c] == 0
      ensures prevClick == Idle
    {
      data := [];
      hydrodata := new int[0, 0];
      value := 0;
      bounds := (-1, -1);
      prevClick := Idle;
      hydroRaster := new int[height, width]((r, c) => 0);
    }

    /**
     * The source and label grids of a flood are of one shape, `bounds` holds
     * their last row and column, and every label is 0 or 1.
     */
    ghost predicate FloodReady()
      reads this`data, this`bounds, this`hydrodata, hydrodata
    {
      Shape(data, hydrodata.Length0, hydrodata.Length1) &&
      bounds == (hydrodata.Length0 - 1, hydrodata.Length1 - 1) &&
      forall r, c :: 0 <= r < hydrodata.Length0 && 0 <= c < hydrodata.Length1 ==>
        hydrodata[r, c] == 0 || hydrodata[r, c] == 1
    }

    /** The labelled cells: those where `hydrodata` is not 0. */
    ghost function Labelled(): (S: set<Pixel>)
      reads this`hydrodata, hydrodata
      ensures forall p :: p in S <==>
        0 <= p.row < hydrodata.Length0 && 0 <= p.col < hydrodata.Length1 && hydrodata[p.row, p.col] != 0
    {
      set r, c | 0 <= r < hydrodata.Length0 && 0 <= c < hydrodata.Length1 && hydrodata[r, c] != 0 :: Pixel(c, r)
    }

    /** The cells the flood may still enter: in bounds, of the target value, and unlabelled. */
    ghost function Open(): set<Pixel>
      reads this`data, this`value, this`hydrodata, hydrodata
    {
      Region(data, value) - Labelled()
    }

    /**
     * Depth-first flood fill from (col, row).  It stops at once outside the
     * raster, on a labelled cell or on a cell of another value; otherwise it
     * labels the cell and recurses into the neighbours at col + 1, row - 1,
     * col - 1 and row + 1, in that order.  The labels it leaves are those of
     * the functional mirror `Fill`, which `FillIsReach` shows to be the cells
     * reachable from (col, row) through open cells.  Every call that passes
     * the guards labels an open cell, so the open cells shrink.
     */
    method Dfs(col: int, row: int)
      requires FloodReady()
      modifies hydrodata
      ensures FloodReady()
      ensures Labelled() == Fill(data, value, old(Labelled()), Pixel(col, row))
      ensures Labelled() == old(Labelled()) + ReachSet(old(Open()), Pixel(col, row))
      decreases Open()
    {
      if row > bounds.0 || col > bounds.1 || row < 0 || col < 0 {
        FillIsReach(data, value, Labelled(), Pixel(col, row));
        return;
      }
      if hydrodata[row, col] != 0 {
        FillIsReach(data, value, Labelled(), Pixel(col, row));
        return;
      }
      if data[row][col] != value {
        FillIsReach(data, value, Labelled(), Pixel(col, row));
        return;
      }
      hydrodata[row, col] := 1;
      assert Labelled() == old(Labelled()) + {Pixel(col, row)};
      label l1:
      OpenShrinks(Region(data, value), old(Labelled()), Pixel(col, row), Labelled(), Labelled());
      Dfs(col + 1, row);
      label l2:
      OpenShrinks(Region(data, value), old(Labelled()), Pixel(col, row), old@l1(Labelled()), Labelled());
      Dfs(col, row - 1);
      label l3:
      OpenShrinks(Region(data, value), old(Labelled()), Pixel(col, row), old@l2(Labelled()), Labelled());
      Dfs(col - 1, row);
      label l4:
      OpenShrinks(Region(data, value), old(Labelled()), Pixel(col, row), old@l3(Labelled()), Labelled());
      Dfs(col, row + 1);
      FillSteps(data, value, old(Labelled()), Pixel(col, row), old@l2(Labelled()), old@l3(Labelled()), old@l4(Labelled()), Labelled());
      FillIsReach(data, value, old(Labelled()), Pixel(col, row));
    }

    /**
     * Floods every seed, in order, into one fresh zero label grid of the
     * raster's size: afterwards the grid marks exactly the union of the
     * seeds' connected components.
     */
    method FloodSeeds(band: Grid, seeds: seq<Pixel>)
      requires Shape(band, hydroRaster.Length0, hydroRaster.Length1)
      requires forall i :: 0 <= i < |seeds| ==> InGrid(band, seeds[i])
      modifies this`data, this`hydrodata, this`value, this`bounds
      ensures fresh(hydrodata)
      ensures hydrodata.Length0 == hydroRaster.Length0 && hydrodata.Length1 == hydroRaster.Length1
      ensures Indicates(hydrodata, ComponentUnion(band, seeds))
    {
      // The label grid takes the source band's shape; a band with no rows
      // carries no width of its own, so the raster's width stands in.
      var height := |band|;
      var width := if height == 0 then hydroRaster.Length1 else |band[0]|;
      var labels := new int[height, width]((r, c) => 0);
      data := band;
      hydrodata := labels;
      bounds := (height - 1, width - 1);
      var i := 0;
      while i < |seeds|
        invariant 0 <= i <= |seeds| && data == band && hydrodata == labels
        invariant labels.Length0 == hydroRaster.Length0 && labels.Length1 == hydroRaster.Length1
        invariant FloodReady() && Labelled() == FloodSet(band, seeds[..i])
        modifies this`value, this`bounds, hydrodata
      {
        FloodSeed(seeds, i);
        i := i + 1;
      }
      assert seeds[..i] == seeds;
      FloodSetIsUnion(band, seeds);
    }

    /**
     * One turn of the seed loop: take the seed's own source value as the
     * target and flood from it over the labels of the seeds before it.
     */
    method FloodSeed(seeds: seq<Pixel>, i: nat)
      requires i < |seeds| && forall k :: 0 <= k < |seeds| ==> InGrid(data, seeds[k])
      requires FloodReady() && Labelled() == FloodSet(data, seeds[..i])
      modifies this`value, this`bounds, hydrodata
      ensures FloodReady() && Labelled() == FloodSet(data, seeds[..i + 1])
    {
      var s := seeds[i];
      value := data[s.row][s.col];
      bounds := (hydrodata.Length0 - 1, hydrodata.Length1 - 1);
      label before:
      Dfs(s.col, s.row);
      SeedStep(data, seeds, i, old@before(Labelled()), Labelled());
    }

    /**
     * Floods the seeds, then adds the label grid cell by cell into the
     * persisted band with int8 arithmetic and writes the sum back.  Each
     * persisted cell gains one (modulo 256) exactly when it lies in the
     * connected component of some seed.
     */
    method FloodHydro(band: Grid, seeds: seq<Pixel>)
      requires Valid()
      requires Shape(band, hydroRaster.Length0, hydroRaster.Length1)
      requires forall i :: 0 <= i < |seeds| ==> InGrid(band, seeds[i])
      modifies this, hydroRaster
      ensures Valid() && hydroRaster == old(hydroRaster) && prevClick == old(prevClick)
      ensures forall r, c :: 0 <= r < hydroRaster.Length0 && 0 <= c < hydroRaster.Length1 ==>
        hydroRaster[r, c] ==
          Wrap(old(hydroRaster[r, c]) + if Pixel(c, r) in ComponentUnion(band, seeds) then 1 else 0)
      ensures forall r, c :: 0 <= r < hydroRaster.Length0 && 0 <= c < hydroRaster.Length1 ==>
        (Pixel(c, r) !in ComponentUnion(band, seeds) ==> hydroRaster[r, c] == old(hydroRaster[r, c]))
    {
      FloodSeeds(band, seeds);
      AddInt8(hydrodata, hydroRaster);
      WriteBand(hydrodata);
      forall r, c | 0 <= r < hydroRaster.Length0 && 0 <= c < hydroRaster.Length1
        ensures Pixel(c, r) !in ComponentUnion(band, seeds) ==> hydroRaster[r, c] == old(hydroRaster[r, c])
      {
        WrapKeeps(old(hydroRaster[r, c]));
      }
    }

    /** The persisted band becomes a copy of `a`, which is int8-valued. */
    method WriteBand(a: array2<int>)
      requires a != hydroRaster && a.Length0 == hydroRaster.Length0 && a.Length1 == hydroRaster.Length1
      requires forall r, c :: 0 <= r < a.Length0 && 0 <= c < a.Length1 ==> IsInt8(a[r, c])
      modifies hydroRaster
      ensures Valid()
      ensures forall r, c :: 0 <= r < a.Length0 && 0 <= c < a.Length1 ==> hydroRaster[r, c] == a[r, c]
    {
      forall r, c | 0 <= r < a.Length0 && 0 <= c < a.Length1 {
        hydroRaster[r, c] := a[r, c];
      }
    }

    /**
     * One click of the raster eraser at `click`.  Without an anchor the click
     * only becomes the anchor.  With one, the block between anchor and click
     * (far corner exclusive, clipped to the raster) is set to no-data (0) and
     * the anchor is dropped.
     */
    method Erase(click: Pixel)
      requires Valid()
      modifies this`prevClick, hydroRaster
      ensures Valid()
      ensures old(prevClick) == Idle ==>
        prevClick == Anchored(click) &&
        forall r, c :: 0 <= r < hydroRaster.Length0 && 0 <= c < hydroRaster.Length1 ==>
          hydroRaster[r, c] == old(hydroRaster[r, c])
      ensures old(prevClick).Anchored? ==>
        prevClick == Idle &&
        forall r, c :: 0 <= r < hydroRaster.Length0 && 0 <= c < hydroRaster.Length1 ==>
          hydroRaster[r, c] == AfterErase(old(prevClick).at, click, Pixel(c, r), old(hydroRaster[r, c]))
    {
      if prevClick == Idle {
        prevClick := Anchored(click);
        return;
      }
      var anchor := prevClick.at;
      var width := Abs(click.col - anchor.col);
      var height := Abs(click.row - anchor.row);
      var x := anchor.col;
      if x > click.col {
        x := click.col;
      }
      var y := anchor.row;
      if y > click.row {
        y := click.row;
      }
      forall r, c | 0 <= r < hydroRaster.Length0 && 0 <= c < hydroRaster.Length1 &&
                    y <= r < y + height && x <= c < x + width {
        hydroRaster[r, c] := 0;
      }
      prevClick := Idle;
    }
  }
}
