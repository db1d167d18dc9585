/**
  The tiles of the lumber-collection map, the fixed 50 by 50 layout of the
  grid, and counting tiles of one kind.
*/
module Tiles {
  import opened Results

  /** The three kinds of acre. */
  datatype Tile = Ground | Tree | Lumberyard

  /** Width and height of the map; the program fixes both as constants. */
  const Width: nat := 50
  const Height: nat := 50
  const Size: nat := Width * Height

  /** A position (x, y) on the map: x is the column, y the row. */
  type Pos = (nat, nat)

  /** The row-major index of position (x, y). */
  function Index(x: nat, y: nat): (i: nat)
    requires x < Width && y < Height
    ensures i < Size
    ensures i % Width == x && i / Width == y
  {
    y * Width + x
  }

  /** The position of the cell with row-major index `index`. */
  function Coordinates(index: nat): (p: Pos)
    requires index < Size
    ensures p.0 < Width && p.1 < Height
    ensures Index(p.0, p.1) == index
  {
    (index % Width, index / Width)
  }

  /** The tile at position p of grid g. */
  function TileAt(g: seq<Tile>, p: Pos): (t: Tile)
    requires |g| == Size && p.0 < Width && p.1 < Height
    ensures t in g
  {
    g[Index(p.0, p.1)]
  }

  /** The tile a character of the input text stands for, if any. */
  function TileOf(c: char): (r: Option<Tile>)
    ensures r.Some? <==> c in {'.', '|', '#'}
  {
    match c
    case '.' => Some(Ground)
    case '|' => Some(Tree)
    case '#' => Some(Lumberyard)
    case _ => None
  }

  /** The character of the input text that stands for tile t. */
  function TileChar(t: Tile): (c: char)
    ensures TileOf(c) == Some(t)
  {
    match t
    case Ground => '.'
    case Tree => '|'
    case Lumberyard => '#'
  }

  /** A character that stands for a tile is that tile's character. */
  lemma TileOfIsInverse(c: char)
    ensures TileOf(c).Some? ==> TileChar(TileOf(c).value) == c
  {
  }

  /** The number of cells of g that hold tile t. */
  function Occurrences(g: seq<Tile>, t: Tile): (n: nat)
    ensures n <= |g|
  {
    if g == [] then 0
    else Occurrences(g[..|g| - 1], t) + (if g[|g| - 1] == t then 1 else 0)
  }

  /** Counting occurrences gives the multiplicity of t in the grid. */
  lemma {:induction false} OccurrencesIsMultiplicity(g: seq<Tile>, t: Tile)
    ensures Occurrences(g, t) == multiset(g)[t]
  {
    if g != [] {
      var init := g[..|g| - 1];
      OccurrencesIsMultiplicity(init, t);
      assert g == init + [g[|g| - 1]];
      assert multiset(g) == multiset(init) + multiset{g[|g| - 1]};
    }
  }

  /** Every cell holds exactly one of the three tiles. */
  lemma {:induction false} OccurrencesPartition(g: seq<Tile>)
    ensures Occurrences(g, Ground) + Occurrences(g, Tree) + Occurrences(g, Lumberyard) == |g|
  {
    if g != [] {
      OccurrencesPartition(g[..|g| - 1]);
    }
  }
}
