/**
  The cells around a cell: the up to eight positions that differ from it by
  at most one in each coordinate, clipped at the edges of the map, and the
  number of cells of one kind among them.
*/
module Neighbours {
  import opened Results
  import opened Tiles

  /** p is on the map, is not (x, y), and touches (x, y) by an edge or a corner. */
  predicate IsAdjacent(x: nat, y: nat, p: Pos)
  {
    && p.0 < Width && p.1 < Height
    && p != (x, y)
    && x <= p.0 + 1 && p.0 <= x + 1
    && y <= p.1 + 1 && p.1 <= y + 1
  }

  /**
    The k-th position the program considers around (x, y), if it lies on
    the map: the column to the left (middle, above, below), the column to
    the right (middle, above, below), then the cell above and the cell below.
  */
  function Candidate(x: nat, y: nat, k: nat): (p: Option<Pos>)
    requires x < Width && y < Height && k < 8
    ensures p.Some? ==> IsAdjacent(x, y, p.value)
  {
    if k == 0 then (if x > 0 then Some((x - 1, y)) else None)
    else if k == 1 then (if x > 0 && y > 0 then Some((x - 1, y - 1)) else None)
    else if k == 2 then (if x > 0 && y < Height - 1 then Some((x - 1, y + 1)) else None)
    else if k == 3 then (if x < Width - 1 then Some((x + 1, y)) else None)
    else if k == 4 then (if x < Width - 1 && y > 0 then Some((x + 1, y - 1)) else None)
    else if k == 5 then (if x < Width - 1 && y < Height - 1 then Some((x + 1, y + 1)) else None)
    else if k == 6 then (if y > 0 then Some((x, y - 1)) else None)
    else (if y < Height - 1 then Some((x, y + 1)) else None)
  }

  /** The positions among the first k candidates that lie on the map, in order. */
  function Listed(x: nat, y: nat, k: nat): (ps: seq<Pos>)
    requires x < Width && y < Height && k <= 8
    ensures OnMap(ps) && |ps| <= k
  {
    if k == 0 then []
    else
      match Candidate(x, y, k - 1)
      case None => Listed(x, y, k - 1)
      case Some(p) => Listed(x, y, k - 1) + [p]
  }

  /** The positions around (x, y), in the order the program lists them. */
  function AdjacentPositions(x: nat, y: nat): (ps: seq<Pos>)
    requires x < Width && y < Height
    ensures OnMap(ps) && |ps| <= 8
  {
    Listed(x, y, 8)
  }

  /** Listed column by column, the positions are the left, right and middle columns. */
  lemma AdjacentPositionsByColumn(x: nat, y: nat)
    requires x < Width && y < Height
    ensures AdjacentPositions(x, y) == LeftColumn(x, y) + RightColumn(x, y) + Above(x, y) + Below(x, y)
  {
    ListedLeft(x, y);
    ListedRight(x, y);
    assert Listed(x, y, 7) == Listed(x, y, 6) + Above(x, y);
    assert Listed(x, y, 8) == Listed(x, y, 7) + Below(x, y);
  }

  /** The first three tests list the left column. */
  lemma ListedLeft(x: nat, y: nat)
    requires x < Width && y < Height
    ensures Listed(x, y, 3) == LeftColumn(x, y)
  {
    var left: seq<Pos> := if x > 0 then [(x - 1, y)] else [];
    assert Listed(x, y, 1) == left;
    left := left + (if x > 0 && y > 0 then [(x - 1, y - 1)] else []);
    assert Listed(x, y, 2) == left;
    left := left + (if x > 0 && y < Height - 1 then [(x - 1, y + 1)] else []);
    assert Listed(x, y, 3) == left;
  }

  /** The next three tests append the right column. */
  lemma ListedRight(x: nat, y: nat)
    requires x < Width && y < Height
    ensures Listed(x, y, 6) == Listed(x, y, 3) + RightColumn(x, y)
  {
    var right: seq<Pos> := if x < Width - 1 then [(x + 1, y)] else [];
    assert Listed(x, y, 4) == Listed(x, y, 3) + right;
    right := right + (if x < Width - 1 && y > 0 then [(x + 1, y - 1)] else []);
    assert Listed(x, y, 5) == Listed(x, y, 3) + right;
    right := right + (if x < Width - 1 && y < Height - 1 then [(x + 1, y + 1)] else []);
    assert Listed(x, y, 6) == Listed(x, y, 3) + right;
  }

  /** The positions to the left of (x, y): middle, above, below. */
  function LeftColumn(x: nat, y: nat): seq<Pos>
    requires x < Width && y < Height
  {
    if x > 0 then Column(x - 1, y) else []
  }

  /** The positions to the right of (x, y): middle, above, below. */
  function RightColumn(x: nat, y: nat): seq<Pos>
    requires x < Width && y < Height
  {
    if x < Width - 1 then Column(x + 1, y) else []
  }

  /** The column at cx, from row y: (cx, y), then above and below it if on the map. */
  function Column(cx: nat, y: nat): seq<Pos>
  {
    [(cx, y)] + Above(cx, y) + Below(cx, y)
  }

  /** The position right above (x, y), if on the map. */
  function Above(x: nat, y: nat): seq<Pos>
  {
    if y > 0 then [(x, y - 1)] else []
  }

  /** The position right below (x, y), if on the map. */
  function Below(x: nat, y: nat): seq<Pos>
  {
    if y < Height - 1 then [(x, y + 1)] else []
  }

  /** The listed positions are exactly the adjacent ones, each listed once. */
  lemma AdjacentPositionsExact(x: nat, y: nat)
    requires x < Width && y < Height
    ensures forall p :: p in AdjacentPositions(x, y) <==> IsAdjacent(x, y, p)
    ensures var ps := AdjacentPositions(x, y);
      forall i, j :: 0 <= i < j < |ps| ==> ps[i] != ps[j]
  {
    var left, right, middle := LeftColumn(x, y), RightColumn(x, y), Above(x, y) + Below(x, y);
    LeftColumnExact(x, y);
    RightColumnExact(x, y);
    MiddleColumnExact(x, y);
    var ps := AdjacentPositions(x, y);
    AdjacentPositionsByColumn(x, y);
    assert ps == left + right + middle;
    DistinctAppend(left, right);
    assert forall p: Pos :: p in left + right ==> p.0 != x;
    DistinctAppend(left + right, middle);
    forall p
      ensures p in ps <==> IsAdjacent(x, y, p)
    {
      if IsAdjacent(x, y, p) {
        if p.0 + 1 == x {
          assert p in left;
        } else if p.0 == x + 1 {
          assert p in right;
        } else {
          assert p in middle;
        }
      }
    }
  }

  /** The left column holds exactly the adjacent positions one column to the left, each once. */
  lemma LeftColumnExact(x: nat, y: nat)
    requires x < Width && y < Height
    ensures forall p :: p in LeftColumn(x, y) <==> IsAdjacent(x, y, p) && p.0 + 1 == x
    ensures Distinct(LeftColumn(x, y))
  {
    if x > 0 {
      ColumnExact(x - 1, y);
    }
  }

  /** The right column holds exactly the adjacent positions one column to the right, each once. */
  lemma RightColumnExact(x: nat, y: nat)
    requires x < Width && y < Height
    ensures forall p :: p in RightColumn(x, y) <==> IsAdjacent(x, y, p) && p.0 == x + 1
    ensures Distinct(RightColumn(x, y))
  {
    if x < Width - 1 {
      ColumnExact(x + 1, y);
    }
  }

  /** Above and below hold exactly the adjacent positions in the cell's own column, each once. */
  lemma MiddleColumnExact(x: nat, y: nat)
    requires x < Width && y < Height
    ensures forall p :: p in Above(x, y) + Below(x, y) <==> IsAdjacent(x, y, p) && p.0 == x
    ensures Distinct(Above(x, y) + Below(x, y))
  {
  }

  /** The column at cx holds the positions of that column on the map within one row of y. */
  lemma ColumnExact(cx: nat, y: nat)
    requires y < Height
    ensures forall p :: p in Column(cx, y) <==> p.0 == cx && p.1 < Height && y <= p.1 + 1 && p.1 <= y + 1
    ensures Distinct(Column(cx, y))
  {
  }

  /** No position is listed twice in ps. */
  predicate Distinct(ps: seq<Pos>)
  {
    forall i, j :: 0 <= i < j < |ps| ==> ps[i] != ps[j]
  }

  /** Joining two lists without repeats and with no position in common gives a list without repeats. */
  lemma DistinctAppend(a: seq<Pos>, b: seq<Pos>)
    requires Distinct(a) && Distinct(b)
    requires forall p :: p in a ==> p !in b
    ensures Distinct(a + b)
  {
    var ab := a + b;
    forall i, j | 0 <= i < j < |ab| ensures ab[i] != ab[j] {
      if j >= |a| && i < |a| {
        assert ab[i] in a && ab[j] == b[j - |a|];
      } else if i >= |a| {
        assert ab[i] == b[i - |a|] && ab[j] == b[j - |a|];
      }
    }
  }

  /** A corner cell has 3 adjacent positions, another edge cell 5, an inner cell 8. */
  lemma AdjacentPositionsNumber(x: nat, y: nat)
    requires x < Width && y < Height
    ensures |AdjacentPositions(x, y)| ==
      (if (x == 0 || x == Width - 1) && (y == 0 || y == Height - 1) then 3
       else if x == 0 || x == Width - 1 || y == 0 || y == Height - 1 then 5
       else 8)
  {
    AdjacentPositionsByColumn(x, y);
  }

  /**
    Lists the positions around (x, y) into a fresh array of eight: the
    first num entries are the adjacent positions, in the program's order.
  */
  method ListAdjacent(x: nat, y: nat) returns (adjacent: array<Pos>, num: nat)
    requires x < Width && y < Height
    ensures fresh(adjacent) && adjacent.Length == 8 && num <= 8
    ensures adjacent[..num] == AdjacentPositions(x, y)
  {
    adjacent := new Pos[8](_ => (0, 0));
    num := 0;
    if x > 0 {
      num := PushColumn(adjacent, num, x - 1, y, []);
      assert [] + Column(x - 1, y) == LeftColumn(x, y);
    }
    if x < Width - 1 {
      num := PushColumn(adjacent, num, x + 1, y, LeftColumn(x, y));
    } else {
      assert LeftColumn(x, y) + RightColumn(x, y) == LeftColumn(x, y);
    }
    num := PushAboveBelow(adjacent, num, x, y, LeftColumn(x, y) + RightColumn(x, y));
    AdjacentPositionsByColumn(x, y);
  }

  /**
    One side column of the listing: (cx, y) itself, then the position above
    it and the one below it when they are on the map.
  */
  method PushColumn(adjacent: array<Pos>, num: nat, cx: nat, y: nat, ghost listed: seq<Pos>) returns (next: nat)
    requires y < Height && num + 3 <= adjacent.Length && adjacent[..num] == listed
    modifies adjacent
    ensures next == num + |Column(cx, y)|
    ensures adjacent[..next] == listed + Column(cx, y)
  {
    next := Push(adjacent, num, (cx, y), listed);
    next := PushAboveBelow(adjacent, next, cx, y, listed + [(cx, y)]);
  }

  /**
    The last two tests of each column: the position above (cx, y) and the
    one below it, each pushed only if it is on the map.
  */
  method PushAboveBelow(adjacent: array<Pos>, num: nat, cx: nat, y: nat, ghost listed: seq<Pos>) returns (next: nat)
    requires y < Height && num + 2 <= adjacent.Length && adjacent[..num] == listed
    modifies adjacent
    ensures next == num + |Above(cx, y)| + |Below(cx, y)|
    ensures adjacent[..next] == listed + Above(cx, y) + Below(cx, y)
  {
    next := num;
    if y > 0 {
      next := Push(adjacent, next, (cx, y - 1), listed);
    }
    if y < Height - 1 {
      next := Push(adjacent, next, (cx, y + 1), listed + Above(cx, y));
    }
  }

  /**
    Writes p at index num of the array, whose first num entries hold the
    positions listed so far, and moves num past it.
  */
  method Push(adjacent: array<Pos>, num: nat, p: Pos, ghost listed: seq<Pos>) returns (next: nat)
    requires num < adjacent.Length && adjacent[..num] == listed
    modifies adjacent
    ensures next == num + 1
    ensures adjacent[..next] == listed + [p]
  {
    adjacent[num] := p;
    next := num + 1;
  }

  /** Every position of ps lies on the map. */
  predicate OnMap(ps: seq<Pos>)
  {
    forall i :: 0 <= i < |ps| ==> ps[i].0 < Width && ps[i].1 < Height
  }

  /** The number of positions in ps whose cell in g holds tile t. */
  function CountAt(g: seq<Tile>, ps: seq<Pos>, t: Tile): (n: nat)
    requires |g| == Size && OnMap(ps)
    ensures n <= |ps|
  {
    if ps == [] then 0
    else CountAt(g, ps[..|ps| - 1], t) + (if TileAt(g, ps[|ps| - 1]) == t then 1 else 0)
  }

  /** Counting one more position of ps adds one exactly when its cell holds t. */
  lemma CountAtStep(g: seq<Tile>, ps: seq<Pos>, i: nat)
    requires |g| == Size && OnMap(ps) && i < |ps|
    ensures OnMap(ps[..i]) && OnMap(ps[..i + 1])
    ensures forall t :: CountAt(g, ps[..i + 1], t) == CountAt(g, ps[..i], t) + (if TileAt(g, ps[i]) == t then 1 else 0)
  {
    assert ps[..i + 1][..i] == ps[..i];
  }

  /** The number of cells around (x, y) that hold tile t. */
  function AdjacentCount(g: seq<Tile>, x: nat, y: nat, t: Tile): (n: nat)
    requires |g| == Size && x < Width && y < Height
    ensures n <= 8
  {
    CountAt(g, AdjacentPositions(x, y), t)
  }

  /** Counts of two different tiles over the same positions never exceed the positions. */
  lemma {:induction false} CountAtTwoKinds(g: seq<Tile>, ps: seq<Pos>, s: Tile, t: Tile)
    requires |g| == Size && OnMap(ps) && s != t
    ensures CountAt(g, ps, s) + CountAt(g, ps, t) <= |ps|
  {
    if ps != [] {
      CountAtTwoKinds(g, ps[..|ps| - 1], s, t);
    }
  }

  /** Two grids that agree on the positions of ps give the same counts there. */
  lemma {:induction false} CountAtAgreeing(g1: seq<Tile>, g2: seq<Tile>, ps: seq<Pos>, t: Tile)
    requires |g1| == Size && |g2| == Size && OnMap(ps)
    requires forall i :: 0 <= i < |ps| ==> TileAt(g1, ps[i]) == TileAt(g2, ps[i])
    ensures CountAt(g1, ps, t) == CountAt(g2, ps, t)
  {
    if ps != [] {
      CountAtAgreeing(g1, g2, ps[..|ps| - 1], t);
    }
  }

  /**
    The adjacent trees and lumberyards of a cell together number at most the
    cell's adjacent positions: 3 at a corner, 5 on an edge, 8 inside.
  */
  lemma AdjacentTreesAndLumberyards(g: seq<Tile>, x: nat, y: nat)
    requires |g| == Size && x < Width && y < Height
    ensures AdjacentCount(g, x, y, Tree) + AdjacentCount(g, x, y, Lumberyard)
            <= |AdjacentPositions(x, y)| <= 8
  {
    CountAtTwoKinds(g, AdjacentPositions(x, y), Tree, Lumberyard);
  }
}
