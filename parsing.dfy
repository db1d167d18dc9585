/**
  Reading the map from its text form: the text is split into lines the way
  Rust's `str::lines` does, and every character of every line becomes one
  tile, in row-major order. A character other than '.', '|' and '#' stops
  the reading with that character as the error. Row widths and the number
  of rows are not checked.
*/
module Parsing {
  import opened Results
  import opened Tiles

  /** The index of the first line feed in s, or |s| when there is none. */
  function LineEnd(s: string): (k: nat)
    ensures k <= |s|
    ensures k < |s| ==> s[k] == '\n'
    ensures forall i :: 0 <= i < k ==> s[i] != '\n'
  {
    if s == [] || s[0] == '\n' then 0 else 1 + LineEnd(s[1..])
  }

  /** A line ended by "\r\n" loses its carriage return as part of the line ending. */
  function StripCarriageReturn(line: string): (r: string)
    ensures |line| - 1 <= |r| <= |line| && r == line[..|r|]
    ensures |r| < |line| <==> |line| > 0 && line[|line| - 1] == '\r'
  {
    if |line| > 0 && line[|line| - 1] == '\r' then line[..|line| - 1] else line
  }

  /**
    The lines of s: s is split at each line feed, a carriage return right
    before a line feed belongs to the line ending, and the line ending of the
    last line is optional (so a final line feed does not start an empty line).
  */
  function Lines(s: string): (ls: seq<string>)
    ensures forall l :: l in ls ==> '\n' !in l
    decreases |s|
  {
    if s == [] then []
    else
      var k := LineEnd(s);
      if k == |s| then [s]
      else [StripCarriageReturn(s[..k])] + Lines(s[k + 1..])
  }

  /** The lines joined back together without separators. */
  function Concat(ls: seq<string>): string
  {
    if ls == [] then [] else ls[0] + Concat(ls[1..])
  }

  /**
    The tiles of a run of characters, read left to right; the first character
    that stands for no tile is the error.
  */
  function ParseChars(s: string): (r: Result<seq<Tile>, char>)
    ensures r.Ok? <==> forall i :: 0 <= i < |s| ==> TileOf(s[i]).Some?
    ensures r.Ok? ==> |r.value| == |s| && forall i :: 0 <= i < |s| ==> TileOf(s[i]) == Some(r.value[i])
    ensures r.Err? ==>
      exists i :: 0 <= i < |s| && s[i] == r.error && TileOf(s[i]).None? &&
        forall j :: 0 <= j < i ==> TileOf(s[j]).Some?
  {
    if s == [] then Ok([])
    else
      var last := s[|s| - 1];
      match ParseChars(s[..|s| - 1])
      case Err(c) => Err(c)
      case Ok(ts) =>
        match TileOf(last)
        case None => Err(last)
        case Some(t) => Ok(ts + [t])
  }

  /**
    The tiles of an input text: every character of every line, in order.
    Reading can only fail on a character of the input that is not a line
    feed and stands for no tile.
  */
  function ParseTiles(input: string): (r: Result<seq<Tile>, char>)
    ensures r.Err? ==> r.error in input && r.error != '\n' && TileOf(r.error).None?
  {
    LinesKeepEveryCharacter(input);
    ParseChars(Concat(Lines(input)))
  }

  /**
    The nested loops of the program: one pass over the lines, one over the
    characters of each line, pushing one tile per character and failing on
    the first unknown character.
  */
  method ReadTiles(input: string) returns (r: Result<seq<Tile>, char>)
    ensures r == ParseTiles(input)
  {
    var tiles: seq<Tile> := [];
    var lines := Lines(input);
    for y := 0 to |lines|
      invariant ParseChars(Concat(lines[..y])) == Ok(tiles)
    {
      var line := lines[y];
      ghost var done := Concat(lines[..y]);
      assert done + line[..0] == done;
      for x := 0 to |line|
        invariant ParseChars(done + line[..x]) == Ok(tiles)
      {
        var c := line[x];
        match TileOf(c)
        case None =>
          UnknownCharacterFails(lines, y, x);
          return Err(c);
        case Some(t) =>
          OneMoreCharacter(done, line, x);
          tiles := tiles + [t];
      }
      LineDone(lines, y);
    }
    assert lines[..|lines|] == lines;
    r := Ok(tiles);
  }

  /** Reading the character at column x of a line after the ones before it. */
  lemma OneMoreCharacter(done: string, line: string, x: nat)
    requires x < |line| && ParseChars(done + line[..x]).Ok? && TileOf(line[x]).Some?
    ensures ParseChars(done + line[..x + 1]) == Ok(ParseChars(done + line[..x]).value + [TileOf(line[x]).value])
  {
    assert done + line[..x + 1] == (done + line[..x]) + [line[x]];
    ParseOneMore(done + line[..x], line[x]);
  }

  /** After the last column of line y, the text read so far is the first y + 1 lines. */
  lemma LineDone(lines: seq<string>, y: nat)
    requires y < |lines|
    ensures Concat(lines[..y]) + lines[y][..|lines[y]|] == Concat(lines[..y + 1])
  {
    assert lines[y][..|lines[y]|] == lines[y];
    ConcatSnoc(lines, y);
  }

  /** Reading one more character that stands for a tile pushes that tile. */
  lemma ParseOneMore(s: string, c: char)
    requires ParseChars(s).Ok? && TileOf(c).Some?
    ensures ParseChars(s + [c]) == Ok(ParseChars(s).value + [TileOf(c).value])
  {
    assert (s + [c])[..|s|] == s;
  }

  /**
    When every character before line y, column x stands for a tile and the
    character there does not, reading the whole text fails with that character.
  */
  lemma UnknownCharacterFails(lines: seq<string>, y: nat, x: nat)
    requires y < |lines| && x < |lines[y]|
    requires ParseChars(Concat(lines[..y]) + lines[y][..x]).Ok?
    requires TileOf(lines[y][x]).None?
    ensures ParseChars(Concat(lines)) == Err(lines[y][x])
  {
    var line, c := lines[y], lines[y][x];
    var before := Concat(lines[..y]) + line[..x];
    var after := line[x + 1..] + Concat(lines[y + 1..]);
    ParseOneFails(before, c);
    ConcatAround(lines, y);
    SplitAround(Concat(lines[..y]), line, Concat(lines[y + 1..]), x);
    ParseCharsErrorPersists(before + [c], after);
  }

  /** Reading a character that stands for no tile after a good prefix fails with it. */
  lemma ParseOneFails(s: string, c: char)
    requires ParseChars(s).Ok? && TileOf(c).None?
    ensures ParseChars(s + [c]) == Err(c)
  {
    assert (s + [c])[..|s|] == s;
  }

  /** The joined lines are the lines before line i, line i, and the lines after it. */
  lemma ConcatAround(ls: seq<string>, i: nat)
    requires i < |ls|
    ensures Concat(ls) == Concat(ls[..i]) + ls[i] + Concat(ls[i + 1..])
  {
    ConcatSplit(ls, i);
    assert ls[i..][1..] == ls[i + 1..];
  }

  /** Cutting a text around the character at column x of its middle part. */
  lemma SplitAround(a: string, line: string, b: string, x: nat)
    requires x < |line|
    ensures a + line + b == (a + line[..x] + [line[x]]) + (line[x + 1..] + b)
  {
    assert line == line[..x] + [line[x]] + line[x + 1..];
  }

  /** Once a prefix fails, appending more text does not change the error. */
  lemma {:induction false} ParseCharsErrorPersists(a: string, b: string)
    requires ParseChars(a).Err?
    ensures ParseChars(a + b) == ParseChars(a)
    decreases |b|
  {
    if b == [] {
      assert a + b == a;
    } else {
      var b' := b[..|b| - 1];
      ParseCharsErrorPersists(a, b');
      assert (a + b)[..|a + b| - 1] == a + b';
    }
  }

  /** Joining lines distributes over splitting the list of lines. */
  lemma {:induction false} ConcatSplit(ls: seq<string>, i: nat)
    requires i <= |ls|
    ensures Concat(ls) == Concat(ls[..i]) + Concat(ls[i..])
  {
    if i > 0 {
      ConcatSplit(ls[1..], i - 1);
      assert ls[1..][..i - 1] == ls[..i][1..];
      assert ls[1..][i - 1..] == ls[i..];
    }
  }

  /** Joining one more line appends that line. */
  lemma ConcatSnoc(ls: seq<string>, i: nat)
    requires i < |ls|
    ensures Concat(ls[..i + 1]) == Concat(ls[..i]) + ls[i]
  {
    ConcatSplit(ls[..i + 1], i);
    assert ls[..i + 1][..i] == ls[..i];
    assert ls[..i + 1][i..] == [ls[i]];
    assert Concat([ls[i]]) == ls[i] + Concat([]);
  }

  /**
    The characters of s without its line endings: every line feed is
    dropped, and so is a carriage return right before a line feed.
  */
  function WithoutLineEndings(s: string): (r: string)
    ensures |r| <= |s|
    ensures '\n' !in r
    ensures forall c :: c in r ==> c in s
    decreases |s|
  {
    if s == [] then []
    else if s[0] == '\n' then WithoutLineEndings(s[1..])
    else if |s| >= 2 && s[0] == '\r' && s[1] == '\n' then WithoutLineEndings(s[2..])
    else [s[0]] + WithoutLineEndings(s[1..])
  }

  /** A text without line feeds has no line endings to drop. */
  lemma {:induction false} WithoutLineEndingsNone(s: string)
    requires forall i :: 0 <= i < |s| ==> s[i] != '\n'
    ensures WithoutLineEndings(s) == s
  {
    if s != [] {
      WithoutLineEndingsNone(s[1..]);
    }
  }

  /**
    The ending of a line, a line feed with an optional carriage return
    before it, is dropped, and the rest of the line is kept.
  */
  lemma {:induction false} WithoutLineEndingsAtLineEnd(line: string, rest: string)
    requires forall i :: 0 <= i < |line| ==> line[i] != '\n'
    ensures WithoutLineEndings(line + ['\n'] + rest) == StripCarriageReturn(line) + WithoutLineEndings(rest)
    decreases |line|
  {
    var s := line + ['\n'] + rest;
    if line == [] {
      assert s == ['\n'] + rest && s[1..] == rest;
    } else if line == ['\r'] {
      assert s[2..] == rest;
    } else {
      assert s[0] == line[0] && s[1] == (line[1..] + ['\n'] + rest)[0];
      assert s[1..] == line[1..] + ['\n'] + rest;
      WithoutLineEndingsAtLineEnd(line[1..], rest);
      StripCarriageReturnTail(line);
    }
  }

  /** Stripping a carriage return from a line of two or more characters, or of one that is not '\r', keeps its first character. */
  lemma StripCarriageReturnTail(line: string)
    requires |line| > 0 && line != ['\r']
    ensures StripCarriageReturn(line) == [line[0]] + StripCarriageReturn(line[1..])
  {
    if |line| > 1 && line[|line| - 1] == '\r' {
      assert line[..|line| - 1] == [line[0]] + line[1..][..|line[1..]| - 1];
    } else {
      assert line == [line[0]] + line[1..];
    }
  }

  /**
    Joining the lines of a text gives back every character of it except
    the line endings.
  */
  lemma {:induction false} LinesKeepEveryCharacter(s: string)
    ensures Concat(Lines(s)) == WithoutLineEndings(s)
    decreases |s|
  {
    if s != [] {
      var k := LineEnd(s);
      if k == |s| {
        WithoutLineEndingsNone(s);
        assert Concat([s]) == s + Concat([]);
      } else {
        var line, rest := s[..k], s[k + 1..];
        LinesKeepEveryCharacter(rest);
        assert s == line + ['\n'] + rest;
        WithoutLineEndingsAtLineEnd(line, rest);
        var ls := Lines(s);
        assert ls == [StripCarriageReturn(line)] + Lines(rest);
        assert ls[1..] == Lines(rest);
        assert Concat(ls) == StripCarriageReturn(line) + Concat(Lines(rest));
      }
    }
  }

  /**
    One tile per character: reading succeeds exactly when every character
    other than a line ending stands for a tile, and then tile i is the tile
    of the i-th such character.
  */
  lemma OneTilePerCharacter(input: string)
    ensures var chars := WithoutLineEndings(input);
      && (ParseTiles(input).Ok? <==> forall i :: 0 <= i < |chars| ==> TileOf(chars[i]).Some?)
      && (ParseTiles(input).Ok? ==>
            |ParseTiles(input).value| == |chars| &&
            forall i :: 0 <= i < |chars| ==> TileOf(chars[i]) == Some(ParseTiles(input).value[i]))
  {
    LinesKeepEveryCharacter(input);
  }
}
