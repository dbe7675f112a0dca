// The DigitalRain object: its dimensions and the grid it animates, built
// blank and then advanced in place one update at a time.  The random numbers
// the update asks for are passed in as `draws`, read from the front.

module Rain {
  import opened Draws
  import opened Grid

  class DigitalRain {
    const width: nat
    const height: nat
    var grid: Grid

    /** The grid has the object's dimensions and only displayable cells. */
    ghost predicate Valid()
      reads this
    {
      Shaped(grid, height, width) && Printable(grid)
    }

    /** A `height` by `width` grid with every cell blank. */
    constructor (width: nat, height: nat)
      ensures Valid()
      ensures this.width == width && this.height == height
      ensures grid == Blanks(height, width)
    {
      this.width := width;
      this.height := height;
      grid := Blanks(height, width);
    }

    /**
     * One animation step: every row moves down by one and row 0 is drawn
     * afresh from `draws`.  Returns how many draws were consumed.
     */
    method Update(draws: seq<nat>) returns (used: nat)
      requires Valid()
      requires height >= 1 || width == 0
      requires 2 * width <= |draws|
      modifies this
      ensures Valid()
      ensures grid == Shift(old(grid), Row(draws, width).value)
      ensures used == Row(draws, width).used
      ensures height >= 1 ==> used == width + Symbols(grid[0])
    {
      ShiftDown();
      used := RedrawTop(draws);
      if height >= 1 {
        assert grid == [grid[0]] + grid[1..];
      }
    }

    /**
     * The update half of the animation loop, run once per element of
     * `streams`: update k draws from `streams[k]`.  Returns the rows written
     * into row 0, oldest first; the grid is the old grid after those
     * updates, and once at least `height` updates have run it no longer
     * depends on the old grid at all.
     */
    method Run(streams: seq<seq<nat>>) returns (tops: seq<seq<char>>)
      requires Valid()
      requires height >= 1 || width == 0
      requires forall k :: 0 <= k < |streams| ==> 2 * width <= |streams[k]|
      modifies this
      ensures Valid()
      ensures |tops| == |streams|
      ensures forall k :: 0 <= k < |streams| ==> tops[k] == Row(streams[k], width).value
      ensures grid == Steps(old(grid), tops)
      ensures height <= |streams| ==> grid == Steps(Blanks(height, width), tops)
    {
      ghost var start := grid;
      tops := [];
      var k := 0;
      while k < |streams|
        invariant 0 <= k <= |streams|
        invariant Valid()
        invariant |tops| == k
        invariant forall m :: 0 <= m < k ==> tops[m] == Row(streams[m], width).value
        invariant grid == Steps(start, tops)
      {
        var top := Row(streams[k], width).value;
        var _ := Update(streams[k]);
        StepsSnoc(start, tops, top);
        AppendRow(tops, streams, width, k);
        tops := tops + [top];
        k := k + 1;
      }
      if height <= |streams| {
        Flushed(start, Blanks(height, width), tops);
      }
    }

    /**
     * The first half of an update: rows are copied downwards starting from
     * the bottom, so that each row is read before it is overwritten.  Row 0
     * is left as it was; the old bottom row is gone.
     */
    method ShiftDown()
      requires Valid()
      modifies this
      ensures Valid()
      ensures |grid| == height
      ensures height >= 1 ==> grid[0] == old(grid)[0] && grid[1..] == old(grid)[..height - 1]
    {
      var i: int := height - 1;
      while i > 0
        invariant (height == 0 && i == -1) || 0 <= i < height
        invariant |grid| == height
        invariant forall k :: 0 <= k <= i ==> grid[k] == old(grid)[k]
        invariant forall k :: i < k < height ==> grid[k] == old(grid)[k - 1]
      {
        grid := grid[i := grid[i - 1]];
        i := i - 1;
      }
      assert height >= 1 ==> grid[1..] == old(grid)[..height - 1];
      assert Valid() by {
        forall k | 0 <= k < height
          ensures |grid[k]| == width && AllInAlphabet(grid[k])
        {
          if k > 0 {
            assert grid[k] == old(grid)[k - 1];
          }
        }
      }
    }

    /**
     * The second half of an update: row 0 is overwritten cell by cell from
     * left to right, each cell consuming one or two draws.  Returns how many
     * draws were consumed.
     */
    method RedrawTop(draws: seq<nat>) returns (used: nat)
      requires Valid()
      requires height >= 1 || width == 0
      requires 2 * width <= |draws|
      modifies this
      ensures Valid()
      ensures |grid| == height
      ensures height >= 1 ==> grid[0] == Row(draws, width).value && grid[1..] == old(grid)[1..]
      ensures used == Row(draws, width).used
      ensures height >= 1 ==> used == width + Symbols(grid[0])
    {
      var j := 0;
      used := 0;
      while j < width
        invariant 0 <= j <= width
        invariant |grid| == height
        invariant height >= 1 ==> grid[1..] == old(grid)[1..]
        invariant height >= 1 ==> |grid[0]| == width
        invariant height >= 1 ==> grid[0][..j] == Row(draws, j).value
        invariant used == Row(draws, j).used
      {
        RowExtend(draws, j);
        var cell := Cell(draws, used);
        used := used + cell.used;
        ghost var before := grid[0];
        grid := grid[0 := grid[0][j := cell.value]];
        assert grid[0][..j + 1] == before[..j] + [cell.value];
        j := j + 1;
      }
      RowCells(draws, width);
      if height >= 1 {
        assert grid[0] == grid[0][..width];
        assert Valid() by {
          forall k | 0 <= k < height
            ensures |grid[k]| == width && AllInAlphabet(grid[k])
          {
            if k > 0 {
              assert grid[k] == grid[1..][k - 1] == old(grid)[1..][k - 1];
            }
          }
        }
      }
    }
  }

  /** Appending the row of stream k extends the rows of streams 0 .. k - 1. */
  lemma AppendRow(tops: seq<seq<char>>, streams: seq<seq<nat>>, width: nat, k: nat)
    requires k < |streams| && |tops| == k
    requires forall m :: 0 <= m < |streams| ==> 2 * width <= |streams[m]|
    requires forall m :: 0 <= m < k ==> tops[m] == Row(streams[m], width).value
    ensures forall m :: 0 <= m <= k ==> (tops + [Row(streams[k], width).value])[m] == Row(streams[m], width).value
  {
  }
}
