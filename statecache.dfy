/**
  The cycle-detecting state cache as a value: every distinct grid seen so
  far under a numeric id, the recorded transitions from an id to the id of
  its next generation, the largest id handed out, and the current id.
*/
module StateCache {
  import opened Results
  import opened Tiles
  import opened Transition

  datatype Cache = Cache(
    states: map<nat, seq<Tile>>,
    transforms: map<nat, nat>,
    largest: nat,
    current: nat)
  {
    /**
      The cache invariant: ids are exactly 0 to largest, every grid has the
      size of the map, the current id is known, and every recorded transition
      leads from an id to the id of the next generation of its grid.
    */
    ghost predicate Valid()
    {
      && (forall k: nat :: k in states <==> k <= largest)
      && (forall k :: k in states ==> |states[k]| == Size)
      && current in states
      && (forall k {:trigger k in transforms} :: k in transforms ==>
            && k in states
            && transforms[k] in states
            && states[transforms[k]] == Next(states[k]))
    }

    /** No grid is stored under two ids. */
    ghost predicate Distinct()
    {
      forall a, b :: a in states && b in states && a != b ==> states[a] != states[b]
    }

    /** The grid under the current id. */
    ghost function Grid(): (g: seq<Tile>)
      requires Valid()
      ensures |g| == Size
    {
      states[current]
    }

    /** Some id stores grid g. */
    ghost predicate Known(g: seq<Tile>)
    {
      exists k :: k in states && states[k] == g
    }
  }

  /** The cache right after reading a grid: the grid is state 0 and nothing follows it yet. */
  function Initial(tiles: seq<Tile>): (c: Cache)
    ensures c.states == map[0 := tiles] && c.transforms == map[] && c.largest == 0 && c.current == 0
    ensures |tiles| == Size ==> c.Valid() && c.Distinct() && c.Grid() == tiles
  {
    var c := Cache(map[0 := tiles], map[], 0, 0);
    assert forall k: nat :: k in c.states <==> k <= 0;
    c
  }

  /**
    The id below n, searched from the highest down, under which grid g is
    stored, if any.
  */
  function FindId(states: map<nat, seq<Tile>>, g: seq<Tile>, n: nat): (r: Option<nat>)
    ensures r.Some? ==> r.value < n && r.value in states && states[r.value] == g
    ensures r.None? <==> forall k: nat :: k < n && k in states ==> states[k] != g
  {
    if n == 0 then None
    else if n - 1 in states && states[n - 1] == g then Some(n - 1)
    else FindId(states, g, n - 1)
  }

  /**
    Since no grid is stored twice, the search finds the one id that stores
    g, whatever order the ids are visited in.
  */
  lemma {:induction false} FindIdIsTheOnlyId(c: Cache, g: seq<Tile>, n: nat, k: nat)
    requires c.Distinct()
    requires k < n && k in c.states && c.states[k] == g
    ensures FindId(c.states, g, n) == Some(k)
  {
    if n - 1 != k {
      FindIdIsTheOnlyId(c, g, n - 1, k);
    }
  }

  /**
    One generation on the cache. A recorded transition from the current id
    is followed. Otherwise the next grid is computed; it takes the id of the
    grid equal to it, if one is stored, or else the next free id; and the
    transition from the old id to it is recorded.
  */
  ghost function Advance(c: Cache): (r: Cache)
    requires c.Valid()
    ensures r.Valid()
    ensures r.Grid() == Next(c.Grid())
    ensures forall k :: k in c.states ==> k in r.states && r.states[k] == c.states[k]
    ensures forall k :: k in c.transforms ==> k in r.transforms && r.transforms[k] == c.transforms[k]
    ensures c.current in r.transforms && r.transforms[c.current] == r.current
    ensures c.current in c.transforms ==>
      r.states == c.states && r.transforms == c.transforms && r.largest == c.largest
    ensures c.current !in c.transforms ==> r.transforms == c.transforms[c.current := r.current]
    ensures r.largest == c.largest + 1 <==> !c.Known(r.Grid())
    ensures c.Known(r.Grid()) ==> r.largest == c.largest && r.states == c.states
    ensures r.largest == c.largest ==> r.states == c.states
    ensures r.largest == c.largest + 1 ==> r.current == r.largest && r.states == c.states[r.largest := r.Grid()]
  {
    if c.current in c.transforms then
      c.(current := c.transforms[c.current])
    else
      var next := Next(c.Grid());
      match FindId(c.states, next, c.largest + 1)
      case Some(k) =>
        ReuseKeepsCache(c, k);
        Cache(c.states, c.transforms[c.current := k], c.largest, k)
      case None =>
        NewStateKeepsCache(c);
        Cache(c.states[c.largest + 1 := next], c.transforms[c.current := c.largest + 1], c.largest + 1, c.largest + 1)
  }

  /** A generation from an id with a recorded transition only moves to the recorded successor. */
  lemma AdvanceReplays(c: Cache)
    requires c.Valid() && c.current in c.transforms
    ensures Advance(c) == c.(current := c.transforms[c.current])
  {
  }

  /**
    A generation whose next grid is stored under id k records the transition
    to k and moves there, storing nothing.
  */
  lemma AdvanceReuses(c: Cache, k: nat)
    requires c.Valid() && c.current !in c.transforms
    requires FindId(c.states, Next(c.Grid()), c.largest + 1) == Some(k)
    ensures Advance(c) == Cache(c.states, c.transforms[c.current := k], c.largest, k)
  {
  }

  /**
    A generation whose next grid is new stores it under the next free id,
    records the transition to that id and moves there.
  */
  lemma AdvanceAdds(c: Cache)
    requires c.Valid() && c.current !in c.transforms
    requires FindId(c.states, Next(c.Grid()), c.largest + 1) == None
    ensures Advance(c) == Cache(c.states[c.largest + 1 := Next(c.Grid())], c.transforms[c.current := c.largest + 1], c.largest + 1, c.largest + 1)
  {
  }

  /**
    No grid is ever stored twice: a generation stores a grid only when no
    id holds it yet.
  */
  lemma AdvanceKeepsDistinct(c: Cache)
    requires c.Valid() && c.Distinct()
    ensures Advance(c).Distinct()
  {
    if c.current !in c.transforms {
      var next := Next(c.Grid());
      if FindId(c.states, next, c.largest + 1).None? {
        AdvanceAdds(c);
      }
    }
  }

  /**
    Recording that the current grid is followed by the grid already stored
    under `found` keeps the invariant.
  */
  lemma ReuseKeepsCache(c: Cache, found: nat)
    requires c.Valid() && c.current !in c.transforms
    requires found in c.states && c.states[found] == Next(c.Grid())
    ensures Cache(c.states, c.transforms[c.current := found], c.largest, found).Valid()
  {
  }

  /**
    Storing a grid found nowhere in the cache under the next free id, and
    recording it as the successor of the current grid, keeps the invariant.
  */
  lemma NewStateKeepsCache(c: Cache)
    requires c.Valid() && c.current !in c.transforms
    requires !c.Known(Next(c.Grid()))
    ensures var id := c.largest + 1;
      Cache(c.states[id := Next(c.Grid())], c.transforms[c.current := id], id, id).Valid()
  {
    var id := c.largest + 1;
    var states := c.states[id := Next(c.Grid())];
    assert id !in c.states;
    forall k: nat
      ensures k in states <==> k <= id
    {
    }
  }

  /**
    The cache after n generations. Cache correctness: its current grid is the
    grid n generations after the starting one, as if every generation had
    been computed; and no recorded transition is ever overwritten.
  */
  ghost function AdvanceTimes(c: Cache, n: nat): (r: Cache)
    requires c.Valid()
    ensures r.Valid()
    ensures r.Grid() == Iterate(c.Grid(), n)
    ensures forall k :: k in c.states ==> k in r.states && r.states[k] == c.states[k]
    ensures forall k :: k in c.transforms ==> k in r.transforms && r.transforms[k] == c.transforms[k]
    ensures c.Distinct() ==> r.Distinct()
  {
    if n == 0 then c
    else
      var before := AdvanceTimes(c, n - 1);
      if before.Distinct() then AdvanceKeepsDistinct(before); Advance(before)
      else Advance(before)
  }

  /**
    The ids follow the grids around the cycle: when no grid is stored twice,
    the cache is back at its current id after p generations exactly when the
    grid p generations later is the current grid again.
  */
  lemma ReturnsExactlyWithTheGrid(c: Cache, p: nat)
    requires c.Valid() && c.Distinct()
    ensures AdvanceTimes(c, p).current == c.current <==> Iterate(c.Grid(), p) == c.Grid()
  {
    var later := AdvanceTimes(c, p);
    assert c.current in c.states;
    assert later.states[c.current] == c.Grid();
  }

  /** The ids in use are exactly 0 to largest, so there are largest + 1 of them. */
  lemma StatesAreDense(c: Cache)
    requires c.Valid()
    ensures |c.states| == c.largest + 1
  {
    assert c.states.Keys == IdsUpTo(c.largest);
  }

  /** The ids 0 to n. */
  function IdsUpTo(n: nat): (ids: set<nat>)
    ensures forall k: nat :: k in ids <==> k <= n
    ensures |ids| == n + 1
  {
    if n == 0 then {0} else IdsUpTo(n - 1) + {n}
  }
}
