/**
  The simulation engine: a map that remembers every distinct grid it has
  seen under a numeric id, and which id follows which, so that a transition
  seen once is replayed without recomputing the grid.
*/
module Simulation {
  import opened Results
  import opened Tiles
  import opened Parsing
  import opened Neighbours
  import opened Transition
  import opened StateCache

  class Map {
    /** The id of the grid the map is at now. */
    var currentState: nat
    /** Every distinct grid seen so far, by id. */
    var states: map<nat, seq<Tile>>
    /** For each id whose successor has been computed, the id of that successor. */
    var statesTransforms: map<nat, nat>
    /** The largest id handed out so far. */
    var largestState: nat

    /** The four fields as a cache value. */
    function Snapshot(): Cache
      reads this
    {
      Cache(states, statesTransforms, largestState, currentState)
    }

    /**
      The map invariant is the cache invariant: ids are exactly 0 to
      largestState, every grid has the size of the map, the current id is
      known, and every recorded transition leads to the next generation of
      its grid.
    */
    ghost predicate Valid()
      reads this
    {
      Snapshot().Valid()
    }

    /** The current id stores a grid of the size of the map. */
    ghost predicate HasGrid()
      reads this
    {
      currentState in states && |states[currentState]| == Size
    }

    /** The grid the map is at now. */
    function Current(): (g: seq<Tile>)
      reads this
      requires HasGrid()
      ensures |g| == Size
    {
      states[currentState]
    }

    /** A map that starts at the given grid, as state 0, with no transitions. */
    constructor (tiles: seq<Tile>)
      ensures currentState == 0 && largestState == 0
      ensures states == map[0 := tiles] && statesTransforms == map[]
      ensures Snapshot() == Initial(tiles)
      ensures |tiles| == Size ==> Valid() && Current() == tiles
    {
      currentState := 0;
      states := map[0 := tiles];
      statesTransforms := map[];
      largestState := 0;
    }

    /**
      Reads a map from its text form; an unknown character is the error.
      The number of tiles read is not checked.
    */
    static method FromStr(input: string) returns (r: Result<Map, char>)
      ensures r.Err? <==> ParseTiles(input).Err?
      ensures r.Err? ==> r.error == ParseTiles(input).error
      ensures r.Ok? ==>
        && fresh(r.value)
        && r.value.currentState == 0 && r.value.largestState == 0
        && r.value.states == map[0 := ParseTiles(input).value]
        && r.value.statesTransforms == map[]
        && r.value.Snapshot() == Initial(ParseTiles(input).value)
    {
      var tiles := ReadTiles(input);
      match tiles
      case Err(c) =>
        r := Err(c);
      case Ok(ts) =>
        var m := new Map(ts);
        r := Ok(m);
    }

    /** The tile at (x, y) of the current grid. */
    function GetTile(x: nat, y: nat): (t: Tile)
      reads this
      requires HasGrid() && x < Width && y < Height
      ensures t == TileAt(Current(), (x, y))
    {
      states[currentState][Index(x, y)]
    }

    /**
      The numbers of trees and of lumberyards around (x, y) in the current
      grid: the adjacent positions are listed, then looked up one by one.
    */
    method CountAdjacentTiles(x: nat, y: nat) returns (trees: nat, lumberyards: nat)
      requires HasGrid() && x < Width && y < Height
      ensures trees == AdjacentCount(Current(), x, y, Tree)
      ensures lumberyards == AdjacentCount(Current(), x, y, Lumberyard)
      ensures trees + lumberyards <= |AdjacentPositions(x, y)|
    {
      trees, lumberyards := 0, 0;
      var adjacent, num := ListAdjacent(x, y);

      ghost var g, ps := Current(), AdjacentPositions(x, y);
      for i := 0 to num
        invariant adjacent[..num] == ps
        invariant trees == CountAt(g, ps[..i], Tree)
        invariant lumberyards == CountAt(g, ps[..i], Lumberyard)
      {
        var p := adjacent[i];
        CountAtStep(g, ps, i);
        assert p == ps[i];
        match GetTile(p.0, p.1)
        case Tree => trees := trees + 1;
        case Lumberyard => lumberyards := lumberyards + 1;
        case Ground =>
      }
      assert ps[..num] == ps;
      AdjacentTreesAndLumberyards(g, x, y);
    }

    /**
      The next generation of the current grid, cell by cell; every count is
      taken from the current grid, which stays untouched while the new grid
      is built.
    */
    method ComputeNext() returns (newTiles: seq<Tile>)
      requires HasGrid()
      ensures newTiles == Next(Current())
    {
      var currentTiles := states[currentState];
      newTiles := [];
      for index := 0 to |currentTiles|
        invariant newTiles == NextCells(currentTiles, index)
      {
        var (x, y) := Coordinates(index);
        var trees, lumberyards := CountAdjacentTiles(x, y);
        newTiles := newTiles + [Rule(currentTiles[index], trees, lumberyards)];
      }
    }

    /**
      The id that stores grid g, if any. Ids are visited from the largest
      down; when no grid is stored twice, the id found is the only one.
    */
    method FindState(g: seq<Tile>) returns (found: Option<nat>)
      requires Valid()
      ensures found == FindId(states, g, largestState + 1)
      ensures found.Some? && Snapshot().Distinct() ==> forall k :: k in states && states[k] == g ==> k == found.value
      ensures found.None? <==> !Snapshot().Known(g)
    {
      var id: nat := largestState + 1;
      while id > 0
        invariant id <= largestState + 1
        invariant FindId(states, g, id) == FindId(states, g, largestState + 1)
      {
        id := id - 1;
        if states[id] == g {
          return Some(id);
        }
      }
      return None;
    }

    /**
      Advances the map by one generation. A recorded transition is replayed;
      otherwise the next grid is computed, and it takes the id of an equal
      stored grid or, if it is new, the next free id. Either way the
      transition from the old id is recorded, and earlier transitions stay.
    */
    method Step()
      requires Valid()
      modifies this
      ensures Valid()
      ensures Snapshot() == Advance(old(Snapshot()))
      ensures old(Snapshot()).Distinct() ==> Snapshot().Distinct()
    {
      ghost var before := Snapshot();
      if currentState in statesTransforms {
        currentState := statesTransforms[currentState];
        AdvanceReplays(before);
        assert Snapshot() == before.(current := before.transforms[before.current]);
      } else {
        assert before.Grid() == Current();
        var newTiles := ComputeNext();
        assert newTiles == Next(before.Grid());
        var existing := FindState(newTiles);
        if existing.Some? {
          statesTransforms := statesTransforms[currentState := existing.value];
          currentState := existing.value;
          AdvanceReuses(before, existing.value);
          assert Snapshot() == Cache(before.states, before.transforms[before.current := existing.value], before.largest, existing.value);
        } else {
          largestState := largestState + 1;
          states := states[largestState := newTiles];
          statesTransforms := statesTransforms[currentState := largestState];
          currentState := largestState;
          AdvanceAdds(before);
          assert states == before.states[before.largest + 1 := newTiles];
          assert Snapshot() == Cache(before.states[before.largest + 1 := Next(before.Grid())], before.transforms[before.current := before.largest + 1], before.largest + 1, before.largest + 1);
        }
      }
      if before.Distinct() {
        AdvanceKeepsDistinct(before);
      }
    }

    /**
      Advances the map by n generations, one step at a time: the grid it
      ends at is the grid n generations after the one it started at.
    */
    method Run(n: nat)
      requires Valid()
      modifies this
      ensures Valid()
      ensures Snapshot() == AdvanceTimes(old(Snapshot()), n)
      ensures Current() == Iterate(old(Current()), n)
      ensures old(Snapshot()).Distinct() ==> Snapshot().Distinct()
    {
      ghost var start := Snapshot();
      for i := 0 to n
        invariant Valid()
        invariant Snapshot() == AdvanceTimes(start, i)
      {
        Step();
      }
    }

    /** The number of cells of the current grid that hold the given tile. */
    function CountTiles(tile: Tile): (n: nat)
      reads this
      requires HasGrid()
      ensures n == multiset(Current())[tile]
      ensures n <= Size
    {
      OccurrencesIsMultiplicity(Current(), tile);
      Occurrences(states[currentState], tile)
    }
  }
}
