// The character grid of the digital-rain animation as a value: its shape, the
// blank grid it starts as, and the one-row downward shift each update makes.

module Grid {
  import opened Draws

  type Grid = seq<seq<char>>

  /** `height` rows, each exactly `width` cells long. */
  predicate Shaped(g: Grid, height: nat, width: nat) {
    |g| == height && forall i :: 0 <= i < |g| ==> |g[i]| == width
  }

  /** Every cell holds a blank or a printable symbol. */
  predicate Printable(g: Grid) {
    forall i :: 0 <= i < |g| ==> AllInAlphabet(g[i])
  }

  /** The grid a fresh animation starts from: every cell blank. */
  function Blanks(height: nat, width: nat): (g: Grid)
    ensures Shaped(g, height, width)
    ensures forall i, j :: 0 <= i < height && 0 <= j < width ==> g[i][j] == Blank
  {
    seq(height, _ => seq(width, _ => Blank))
  }

  /**
   * One update: `top` becomes row 0, every other row moves down one place,
   * and the old bottom row is dropped.  An empty grid stays empty.
   */
  function Shift(g: Grid, top: seq<char>): (r: Grid)
    ensures |r| == |g|
    ensures |g| > 0 ==> r[0] == top
    ensures forall i :: 1 <= i < |g| ==> r[i] == g[i - 1]
  {
    if |g| == 0 then g else [top] + g[..|g| - 1]
  }

  /** The grid after one update per element of `tops`, in order. */
  function Steps(g: Grid, tops: seq<seq<char>>): (r: Grid)
    ensures |r| == |g|
    decreases |tops|
  {
    if tops == [] then g else Steps(Shift(g, tops[0]), tops[1..])
  }

  /**
   * After the updates `tops`, row i holds the row written i updates ago, or,
   * when fewer updates than that have happened, the starting row i - |tops|.
   */
  lemma {:induction false} StepsAt(g: Grid, tops: seq<seq<char>>, i: nat)
    requires i < |g|
    ensures Steps(g, tops)[i] == if i < |tops| then tops[|tops| - 1 - i] else g[i - |tops|]
    decreases |tops|
  {
    if tops != [] {
      var g1 := Shift(g, tops[0]);
      StepsAt(g1, tops[1..], i);
      assert Steps(g, tops) == Steps(g1, tops[1..]);
      if i + 1 < |tops| {
        assert tops[1..][|tops| - 2 - i] == tops[|tops| - 1 - i];
      } else if i + 1 == |tops| {
        assert g1[0] == tops[0];
      } else {
        assert g1[i - (|tops| - 1)] == g[i - |tops|];
      }
    }
  }

  /** Running updates one after another is running them all: Steps is a fold. */
  lemma {:induction false} StepsSnoc(g: Grid, tops: seq<seq<char>>, top: seq<char>)
    ensures Steps(g, tops + [top]) == Shift(Steps(g, tops), top)
    decreases |tops|
  {
    if tops == [] {
      assert [] + [top] == [top];
    } else {
      assert (tops + [top])[1..] == tops[1..] + [top];
      StepsSnoc(Shift(g, tops[0]), tops[1..], top);
    }
  }

  /**
   * Ageing: the row written by update k sits in row i once i further updates
   * have followed it.
   */
  lemma {:induction false} Ageing(g: Grid, tops: seq<seq<char>>, k: nat, i: nat)
    requires k < |tops| && i < |g| && k + i == |tops| - 1
    ensures Steps(g, tops)[i] == tops[k]
  {
    StepsAt(g, tops, i);
  }

  /**
   * After at least `height` updates nothing of the starting grid survives:
   * any two starting grids of that height end up identical.
   */
  lemma {:induction false} Flushed(g: Grid, g': Grid, tops: seq<seq<char>>)
    requires |g| == |g'| <= |tops|
    ensures Steps(g, tops) == Steps(g', tops)
  {
    forall i | 0 <= i < |g|
      ensures Steps(g, tops)[i] == Steps(g', tops)[i]
    {
      StepsAt(g, tops, i);
      StepsAt(g', tops, i);
    }
  }
}
