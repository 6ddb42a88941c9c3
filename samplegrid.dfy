/**
 * The polar grid of radial pixels and the loop in `main` that fills it.
 *
 * Cell (r = i, th = j) lives at index `numLEDs * j + i`, so the cells of one
 * slice are contiguous and slices follow each other in order.
 */
module SampleGrid {
  import opened Sampler

  /** The array index of LED `i` at slice `j`. */
  function CellIndex(numLEDs: nat, i: nat, j: nat): nat {
    numLEDs * j + i
  }

  /** Within a grid of `numLEDs` by `numSlices` cells, the index lies in range and determines the cell. */
  lemma CellIndexInRange(numLEDs: nat, numSlices: nat, i: nat, j: nat)
    requires i < numLEDs && j < numSlices
    ensures CellIndex(numLEDs, i, j) < numLEDs * numSlices
    ensures CellIndex(numLEDs, i, j) % numLEDs == i && CellIndex(numLEDs, i, j) / numLEDs == j
  {
    LemmaMulLeft(numLEDs, j + 1, numSlices);
    assert numLEDs * (j + 1) == numLEDs * j + numLEDs;
    DivModOfCell(numLEDs, i, j);
  }

  /** Every index of the grid is the index of exactly one cell: `(k % numLEDs, k / numLEDs)`. */
  lemma CellOfIndex(numLEDs: nat, numSlices: nat, k: nat)
    requires k < numLEDs * numSlices
    ensures 0 < numLEDs && k % numLEDs < numLEDs && k / numLEDs < numSlices
    ensures CellIndex(numLEDs, k % numLEDs, k / numLEDs) == k
    ensures forall i: nat, j: nat :: i < numLEDs && CellIndex(numLEDs, i, j) == k ==> i == k % numLEDs && j == k / numLEDs
  {
    assert 0 < numLEDs;
    DivModOfCell(numLEDs, k % numLEDs, k / numLEDs);
    forall i: nat, j': nat | i < numLEDs && CellIndex(numLEDs, i, j') == k
      ensures i == k % numLEDs && j' == k / numLEDs
    {
      DivModOfCell(numLEDs, i, j');
    }
  }

  /** `n * a <= n * b` when `a <= b`. */
  lemma LemmaMulLeft(n: nat, a: nat, b: nat)
    requires a <= b
    ensures n * a <= n * b
  {
  }

  /** Division and remainder by `numLEDs` take a cell index apart. */
  lemma DivModOfCell(numLEDs: nat, i: nat, j: nat)
    requires i < numLEDs
    ensures (numLEDs * j + i) / numLEDs == j && (numLEDs * j + i) % numLEDs == i
  {
    var a := numLEDs * j + i;
    var q, r := a / numLEDs, a % numLEDs;
    assert numLEDs * q + r == a;
    if q < j {
      LemmaMulLeft(numLEDs, q + 1, j);
    } else if q > j {
      LemmaMulLeft(numLEDs, j + 1, q);
    }
  }

  /** The cell the fill loop leaves at index `k`. */
  function GridCell(cfg: Config, polar: (int, int) -> Offset, img: Image, k: nat): RadialPixel
    requires 0 < cfg.numLEDs
  {
    var i, j := k % cfg.numLEDs, k / cfg.numLEDs;
    RadialPixel(i, j, SampleLit(cfg, polar, img, i, j))
  }

  /** The whole grid after the fill loop. */
  function Grid(cfg: Config, polar: (int, int) -> Offset, img: Image): (grid: seq<RadialPixel>)
    requires 0 < cfg.numLEDs
    ensures |grid| == cfg.numLEDs * cfg.numSlices
  {
    seq(cfg.numLEDs * cfg.numSlices, k requires 0 <= k => GridCell(cfg, polar, img, k))
  }

  /** The cell of LED `i` at slice `j` has `r == i`, `th == j` and is lit iff its sampled pixel is black. */
  lemma GridAt(cfg: Config, polar: (int, int) -> Offset, img: Image, i: nat, j: nat)
    requires i < cfg.numLEDs && j < cfg.numSlices
    ensures CellIndex(cfg.numLEDs, i, j) < |Grid(cfg, polar, img)|
    ensures Grid(cfg, polar, img)[CellIndex(cfg.numLEDs, i, j)] == RadialPixel(i, j, SampleLit(cfg, polar, img, i, j))
  {
    CellIndexInRange(cfg.numLEDs, cfg.numSlices, i, j);
  }

  /**
   * The cell of LED `i` at slice `j` of the filled grid is lit iff the red
   * channel of the bitmap pixel sampled for it is 0.
   */
  lemma GridLitIffRedZero(cfg: Config, polar: (int, int) -> Offset, img: Image, i: nat, j: nat)
    requires i < cfg.numLEDs && j < cfg.numSlices
    ensures CellIndex(cfg.numLEDs, i, j) < |Grid(cfg, polar, img)|
    ensures var p := SamplePixel(cfg, polar, img, i, j);
      Grid(cfg, polar, img)[CellIndex(cfg.numLEDs, i, j)].lit <==> img.red(p.x, p.y) == 0
  {
    GridAt(cfg, polar, img, i, j);
  }

  /**
   * The fill loop of `main`: for every slice `j` and LED `i` it writes `th` and
   * `r` of cell `numLEDs * j + i` and then samples it.  The ghost `visits`
   * records the index of every cell visited, in order.
   */
  method FillGrid(cfg: Config, polar: (int, int) -> Offset, img: Image, radpix: array<RadialPixel>)
    returns (ghost visits: seq<nat>)
    requires 0 < cfg.numLEDs && radpix.Length == cfg.numLEDs * cfg.numSlices
    modifies radpix
    ensures radpix[..] == Grid(cfg, polar, img)
    ensures |visits| == radpix.Length && forall t :: 0 <= t < |visits| ==> visits[t] == t
  {
    var numLEDs, numSlices := cfg.numLEDs, cfg.numSlices;
    visits := [];
    for j := 0 to numSlices
      invariant |visits| == numLEDs * j && forall t :: 0 <= t < |visits| ==> visits[t] == t
      invariant forall t :: 0 <= t < numLEDs * j ==> radpix[t] == GridCell(cfg, polar, img, t)
    {
      LemmaMulLeft(numLEDs, j + 1, numSlices);
      for i := 0 to numLEDs
        invariant |visits| == numLEDs * j + i && forall t :: 0 <= t < |visits| ==> visits[t] == t
        invariant forall t :: 0 <= t < numLEDs * j + i ==> radpix[t] == GridCell(cfg, polar, img, t)
      {
        var k := numLEDs * j + i;
        radpix[k] := radpix[k].(th := j);
        radpix[k] := radpix[k].(r := i);
        SetRadialPixel(cfg, polar, img, radpix, k);
        DivModOfCell(numLEDs, i, j);
        visits := visits + [k];
      }
    }
  }
}
