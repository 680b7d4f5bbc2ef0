/**
 * The World: a grid built once, and a collection of dots re-sampled from it
 * on every animation tick. Drawing, the canvas and the timer are outside
 * the model; a tick is one call of `Animate` with the draws it consumes.
 */
module Animation {
  import opened Geometry
  import Lattice
  import Random

  /** Fraction of grid points shown as dots in a frame. */
  const DotRatio: real := 0.3

  type PositiveReal = r: real | r > 0.0 witness 1.0

  /** A dot: its position in the current frame's sample and that position. */
  datatype Dot = Dot(index: nat, pos: Point)

  /** The dots `initDots` builds from a sample: dot i at the i-th point. */
  function MakeDots(subset: seq<Point>): (dots: seq<Dot>)
    ensures |dots| == |subset|
    ensures forall i | 0 <= i < |dots| :: dots[i].index == i && dots[i].pos == subset[i]
  {
    seq(|subset|, i requires 0 <= i < |subset| => Dot(i, subset[i]))
  }

  /** The positions of a dot collection, in order. */
  function Positions(dots: seq<Dot>): (ps: seq<Point>)
    ensures |ps| == |dots|
  {
    seq(|dots|, i requires 0 <= i < |dots| => dots[i].pos)
  }

  /** The sample size `initDots` asks for: grid.length * DOT_RATIO. */
  function SampleSize(n: nat): real
  {
    n as real * DotRatio
  }

  /** The dots one tick produces from the grid and the tick's draws. */
  function Tick(grid: seq<Point>, draws: seq<real>): seq<Dot>
    requires |grid| <= |draws| && Random.Draws(draws)
  {
    MakeDots(Random.Sample(grid, SampleSize(|grid|), draws))
  }

  /** The slice bound grid.length * 0.3 is cut to floor(3n / 10). */
  lemma {:induction false} DotCount(n: nat)
    ensures Random.SliceEnd(SampleSize(n), n) == (3 * n) / 10
  {
    var q := (3 * n) / 10;
    assert 10 * q <= 3 * n < 10 * q + 10;
    assert SampleSize(n) == (3 * n) as real / 10.0;
    Random.FloorBetween(SampleSize(n), q, q);
  }

  lemma MakeDotsPush(subset: seq<Point>, i: nat)
    requires i < |subset|
    ensures MakeDots(subset[..i + 1]) == MakeDots(subset[..i]) + [Dot(i, subset[i])]
  {
  }

  /** The positions of `MakeDots` are the sample it was built from. */
  lemma PositionsOfMakeDots(subset: seq<Point>)
    ensures Positions(MakeDots(subset)) == subset
  {
  }

  /** What a tick leaves in `dots`, on the grid `generateGrid` produced:
      floor(3n / 10) dots indexed 0, 1, ..., each at a distinct grid point,
      every one inside the viewport. */
  lemma TickDots(W: real, H: real, hexH: real, draws: seq<real>)
    requires hexH > 0.0
    requires |Lattice.Grid(W, H, hexH)| <= |draws| && Random.Draws(draws)
    ensures |Tick(Lattice.Grid(W, H, hexH), draws)| == (3 * |Lattice.Grid(W, H, hexH)|) / 10
    ensures forall i | 0 <= i < |Tick(Lattice.Grid(W, H, hexH), draws)| ::
              Tick(Lattice.Grid(W, H, hexH), draws)[i].index == i
    ensures multiset(Positions(Tick(Lattice.Grid(W, H, hexH), draws))) <= multiset(Lattice.Grid(W, H, hexH))
    ensures Random.Distinct(Positions(Tick(Lattice.Grid(W, H, hexH), draws)))
    ensures forall p | p in Positions(Tick(Lattice.Grid(W, H, hexH), draws)) ::
              0.0 <= p.x < W && 0.0 <= p.y < H
  {
    var grid := Lattice.Grid(W, H, hexH);
    var sample := Random.Sample(grid, SampleSize(|grid|), draws);
    DotCount(|grid|);
    PositionsOfMakeDots(sample);
    Lattice.GridDistinct(W, H, hexH);
    Random.SampleDistinct(grid, SampleSize(|grid|), draws);
    Lattice.GridInBounds(W, H, hexH);
    forall i | 0 <= i < |sample| ensures sample[i] in grid {
      assert sample[i] in multiset(sample);
    }
  }

  /** The world of the animation: viewport, grid and the current dots. */
  class World {
    const W: real
    const H: real
    const hexH: PositiveReal
    /** The grid; built by `InitGrid` and never reassigned afterwards. */
    var grid: array<Point>
    /** The dots of the current frame. */
    var dots: seq<Dot>

    /** A world without grid or dots; the script's grid is undefined until
        `initGrid`, modelled here as an empty array. */
    constructor (width: real, height: real, hexH: PositiveReal)
      ensures W == width && H == height && this.hexH == hexH
      ensures grid.Length == 0 && dots == []
    {
      W := width;
      H := height;
      this.hexH := hexH;
      grid := new Point[0];
      dots := [];
    }

    /** `initGrid`: the grid of the viewport. */
    method InitGrid()
      modifies this
      ensures fresh(grid) && grid[..] == Lattice.Grid(W, H, hexH)
      ensures dots == old(dots)
    {
      var points := Lattice.GenerateGrid(W, H, hexH);
      grid := new Point[|points|](i requires 0 <= i < |points| => points[i]);
      assert grid[..] == points;
    }

    /** `initDots`: sample 30% of the grid and push one dot per sampled
        point, numbered from 0. */
    method InitDots(draws: seq<real>)
      requires grid.Length <= |draws| && Random.Draws(draws)
      modifies this
      ensures grid == old(grid) && grid[..] == old(grid[..])
      ensures dots == old(dots) + Tick(grid[..], draws)
    {
      var subset := Random.Subset(grid, SampleSize(grid.Length), draws);
      var i := 0;
      while i < |subset|
        invariant 0 <= i <= |subset|
        invariant grid == old(grid)
        invariant dots == old(dots) + MakeDots(subset[..i])
      {
        MakeDotsPush(subset, i);
        dots := dots + [Dot(i, subset[i])];
        i := i + 1;
      }
      assert subset[..i] == subset;
    }

    /** `init`: build the grid, then the first frame's dots. */
    method Init(draws: seq<real>)
      requires |Lattice.Grid(W, H, hexH)| <= |draws| && Random.Draws(draws)
      modifies this
      ensures fresh(grid) && grid[..] == Lattice.Grid(W, H, hexH)
      ensures dots == old(dots) + Tick(grid[..], draws)
    {
      InitGrid();
      InitDots(draws);
    }

    /** `animate`, one tick: discard the dots and sample a fresh set from the
        same, unchanged grid. */
    method Animate(draws: seq<real>)
      requires grid.Length <= |draws| && Random.Draws(draws)
      modifies this
      ensures grid == old(grid) && grid[..] == old(grid[..])
      ensures dots == Tick(grid[..], draws)
    {
      dots := [];
      InitDots(draws);
    }
  }

  /** A world on a viewport of no area starts with an empty grid and no
      dots, without error. */
  method EmptyViewport(hexH: PositiveReal) returns (world: World)
    ensures world.grid.Length == 0 && world.dots == []
  {
    world := new World(0.0, 0.0, hexH);
    Lattice.GridEmpty(0.0, 0.0, hexH);
    world.Init([]);
  }
}
