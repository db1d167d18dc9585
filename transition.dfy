/**
  One generation of the automaton: every cell's next tile is computed from
  its current tile and the numbers of trees and lumberyards around it, all
  read from the same, unmodified grid.
*/
module Transition {
  import opened Tiles
  import opened Neighbours

  /**
    The next tile of a cell holding `tile` with `trees` adjacent trees and
    `lumberyards` adjacent lumberyards.
  */
  function Rule(tile: Tile, trees: nat, lumberyards: nat): (r: Tile)
    ensures tile == Ground ==> r != Lumberyard && (r == Tree <==> trees >= 3)
    ensures tile == Tree ==> r != Ground && (r == Lumberyard <==> lumberyards >= 3)
    ensures tile == Lumberyard ==> r != Tree && (r == Lumberyard <==> lumberyards >= 1 && trees >= 1)
  {
    match tile
    case Ground => if trees >= 3 then Tree else Ground
    case Tree => if lumberyards >= 3 then Lumberyard else Tree
    case Lumberyard => if lumberyards >= 1 && trees >= 1 then Lumberyard else Ground
  }

  /**
    The next tile of the cell with row-major index i of grid g. A cell either
    keeps its tile or moves one step along ground, trees, lumberyard, ground.
  */
  function NextCell(g: seq<Tile>, i: nat): (t: Tile)
    requires |g| == Size && i < Size
    ensures || t == g[i]
            || (g[i] == Ground && t == Tree)
            || (g[i] == Tree && t == Lumberyard)
            || (g[i] == Lumberyard && t == Ground)
  {
    var (x, y) := Coordinates(i);
    Rule(g[i], AdjacentCount(g, x, y, Tree), AdjacentCount(g, x, y, Lumberyard))
  }

  /** The next tiles of the first n cells of g, in row-major order. */
  function NextCells(g: seq<Tile>, n: nat): (r: seq<Tile>)
    requires |g| == Size && n <= Size
    ensures |r| == n
  {
    if n == 0 then [] else NextCells(g, n - 1) + [NextCell(g, n - 1)]
  }

  /** The grid one generation after g. */
  function Next(g: seq<Tile>): (r: seq<Tile>)
    requires |g| == Size
    ensures |r| == |g|
  {
    NextCells(g, |g|)
  }

  /** Cell i of the next generation is the rule applied to cell i of g and its neighbours in g. */
  lemma {:induction false} NextCellsAt(g: seq<Tile>, n: nat, i: nat)
    requires |g| == Size && i < n <= Size
    ensures NextCells(g, n)[i] == NextCell(g, i)
  {
    if i < n - 1 {
      NextCellsAt(g, n - 1, i);
    }
  }

  /**
    Simultaneous update: every cell of the next grid is computed from the
    unmodified grid g, by the rule on its own tile and its neighbour counts.
  */
  lemma NextAt(g: seq<Tile>, i: nat)
    requires |g| == Size && i < Size
    ensures var (x, y) := Coordinates(i);
      Next(g)[i] == Rule(g[i], AdjacentCount(g, x, y, Tree), AdjacentCount(g, x, y, Lumberyard))
  {
    NextCellsAt(g, Size, i);
  }

  /** The grid n generations after g. */
  function Iterate(g: seq<Tile>, n: nat): (r: seq<Tile>)
    requires |g| == Size
    ensures |r| == Size
  {
    if n == 0 then g else Next(Iterate(g, n - 1))
  }

  /**
    The update is simultaneous and local: a cell's next tile depends only on
    that cell and its adjacent cells in the old grid, so two grids that agree
    there give the same next tile whatever the rest of the grid holds.
  */
  lemma NextIsLocal(g1: seq<Tile>, g2: seq<Tile>, i: nat)
    requires |g1| == Size && |g2| == Size && i < Size
    requires g1[i] == g2[i]
    requires var (x, y) := Coordinates(i);
      forall p :: p in AdjacentPositions(x, y) ==> TileAt(g1, p) == TileAt(g2, p)
    ensures Next(g1)[i] == Next(g2)[i]
  {
    var (x, y) := Coordinates(i);
    var ps := AdjacentPositions(x, y);
    assert forall k :: 0 <= k < |ps| ==> TileAt(g1, ps[k]) == TileAt(g2, ps[k]) by {
      forall k | 0 <= k < |ps| ensures TileAt(g1, ps[k]) == TileAt(g2, ps[k]) {
        assert ps[k] in ps;
      }
    }
    CountAtAgreeing(g1, g2, ps, Tree);
    CountAtAgreeing(g1, g2, ps, Lumberyard);
    NextAt(g1, i);
    NextAt(g2, i);
  }

  /** Running m generations and then n more is running m + n generations. */
  lemma {:induction false} IterateAdd(g: seq<Tile>, m: nat, n: nat)
    requires |g| == Size
    ensures Iterate(g, m + n) == Iterate(Iterate(g, m), n)
  {
    if n > 0 {
      IterateAdd(g, m, n - 1);
      assert Iterate(g, m + n) == Next(Iterate(g, m + n - 1));
      assert Iterate(Iterate(g, m), n) == Next(Iterate(Iterate(g, m), n - 1));
    }
  }

  /**
    Once the grid after a generations reappears p generations later, every
    later grid reappears p generations later too.
  */
  lemma ShiftByPeriod(g: seq<Tile>, a: nat, p: nat, k: nat)
    requires |g| == Size
    requires Iterate(g, a + p) == Iterate(g, a)
    ensures Iterate(g, a + k + p) == Iterate(g, a + k)
  {
    IterateAdd(g, a + p, k);
    IterateAdd(g, a, k);
    assert a + k + p == (a + p) + k;
  }

  /**
    Once the grid after a generations reappears p generations later, the
    sequence of grids repeats with period p from there on: any number q of
    whole periods can be skipped.
  */
  lemma {:induction false} IteratePeriodic(g: seq<Tile>, a: nat, p: nat, q: nat, r: nat)
    requires |g| == Size
    requires Iterate(g, a + p) == Iterate(g, a)
    ensures Iterate(g, a + q * p + r) == Iterate(g, a + r)
  {
    if q == 0 {
      assert a + q * p + r == a + r;
    } else {
      var k := (q - 1) * p + r;
      assert a + q * p + r == a + k + p;
      ShiftByPeriod(g, a, p, k);
      IteratePeriodic(g, a, p, q - 1, r);
    }
  }
}
