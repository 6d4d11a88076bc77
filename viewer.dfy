/** The maze player of scripts/main.js: reading a maze back from an image, and the wall test
    that movement relies on. */
module Viewer {
  import opened Grid
  import opened Colours

  /** The colour bands of loadMaze: a red pixel is a start, a green one a goal, a white one a
      passage, and everything else a wall. */
  function Classify(r: Byte, g: Byte, b: Byte): Code
  {
    if r > 200 && g < 50 && b < 50 then R
    else if r < 50 && g > 200 && b < 50 then G
    else if r > 200 && g > 200 && b > 200 then W
    else B
  }

  /** No pixel lies in two of the red, green and white bands, so the order in which loadMaze
      tests them does not change the outcome. */
  lemma BandsDisjoint(r: Byte, g: Byte, b: Byte)
    ensures !((r > 200 && g < 50 && b < 50) && (r < 50 && g > 200 && b < 50))
    ensures !((r > 200 && g < 50 && b < 50) && (r > 200 && g > 200 && b > 200))
    ensures !((r < 50 && g > 200 && b < 50) && (r > 200 && g > 200 && b > 200))
  {
  }

  /** Reading a cell colour painted by the generator gives back the cell's code. */
  lemma ClassifyColour(c: Code)
    ensures Classify(Colour(c).r, Colour(c).g, Colour(c).b) == c
  {
  }

  /** Each channel within 45 of the painted value still reads back as the painted code, so
      lossy re-encoding of the image does not change the maze. */
  lemma ClassifyNear(c: Code, r: Byte, g: Byte, b: Byte)
    requires Abs(r - Colour(c).r) <= 45 && Abs(g - Colour(c).g) <= 45 && Abs(b - Colour(c).b) <= 45
    ensures Classify(r, g, b) == c
  {
  }

  /** The maze an RGBA buffer encodes, one code per four bytes. */
  ghost function Decode(pixels: seq<Byte>): (maze: seq<Code>)
    requires |pixels| % 4 == 0
    ensures |maze| == |pixels| / 4
    ensures forall i :: 0 <= i < |maze| ==> maze[i] == Classify(pixels[4 * i], pixels[4 * i + 1], pixels[4 * i + 2])
  {
    seq(|pixels| / 4, i requires 0 <= i < |pixels| / 4 => Classify(pixels[4 * i], pixels[4 * i + 1], pixels[4 * i + 2]))
  }

  /** Decoding the image the generator painted from a grid gives back that grid. */
  lemma DecodePainted(s: seq<Code>, pixels: seq<Byte>)
    requires |pixels| == 4 * |s|
    requires forall i :: 0 <= i < |s| ==> Painted(pixels, i, Colour(s[i]))
    ensures Decode(pixels) == s
  {
    forall i | 0 <= i < |s|
      ensures Decode(pixels)[i] == s[i]
    {
      assert Painted(pixels, i, Colour(s[i]));
      ClassifyColour(s[i]);
    }
  }

  /** The address of the last entry of s equal to c, or -1 when there is none. */
  function LastIndex(s: seq<Code>, c: Code): (k: int)
    ensures -1 <= k < |s|
    ensures k >= 0 ==> s[k] == c && forall j :: k < j < |s| ==> s[j] != c
    ensures k == -1 ==> forall j :: 0 <= j < |s| ==> s[j] != c
  {
    if |s| == 0 then -1
    else if s[|s| - 1] == c then |s| - 1
    else LastIndex(s[..|s| - 1], c)
  }

  /** Appending one entry either makes it the last c or leaves the last c where it was. */
  lemma LastIndexSnoc(s: seq<Code>, x: Code, c: Code)
    ensures LastIndex(s + [x], c) == if x == c then |s| else LastIndex(s, c)
  {
    assert (s + [x])[..|s|] == s;
  }

  /** Buffer address k of a grid `width` wide lies in column k % width and row k / width. */
  lemma AddressCoords(k: int, width: int, height: int)
    requires 0 < width && 0 <= height && 0 <= k < Area(width, height)
    ensures InBounds(k % width, k / width, width, height) && Idx(k % width, k / width, width) == k
  {
    AreaValue(width, height);
    IdxValue(k % width, k / width, width);
  }

  /** The centre of the cell at buffer address k, where loadMaze places the player and goal. */
  function CentreX(k: int, width: int): real
    requires width > 0
  {
    (k % width) as real + 0.5
  }

  function CentreY(k: int, width: int): real
    requires width > 0
  {
    (k / width) as real + 0.5
  }

  /** `found` says whether s holds a c, and (x, y) is the centre of the last c in s, or
      (x0, y0) when there is none. */
  ghost predicate Placed(s: seq<Code>, c: Code, width: int, found: bool, x: real, y: real, x0: real, y0: real)
  {
    var k := LastIndex(s, c);
    && (found <==> k >= 0)
    && if k >= 0 then width > 0 && x == CentreX(k, width) && y == CentreY(k, width)
       else x == x0 && y == y0
  }

  /** Reading entry e after s moves the position to e's centre and sets the flag when e is a
      c, and keeps both otherwise. */
  lemma PlacedStep(s: seq<Code>, e: Code, c: Code, width: int, found: bool, x: real, y: real, found': bool, x': real, y': real, x0: real, y0: real)
    requires Placed(s, c, width, found, x, y, x0, y0)
    requires if e == c then found' && width > 0 && x' == CentreX(|s|, width) && y' == CentreY(|s|, width)
      else found' == found && x' == x && y' == y
    ensures Placed(s + [e], c, width, found', x', y', x0, y0)
  {
    LastIndexSnoc(s, e, c);
  }

  /** The loop of loadMaze after n pixels of the image decoding to d, on values: the first n
      entries of the buffer s are read, the found flags say whether a start and a goal were
      among them, and the player (px, py) and goal (gx, gy) stand at the last of each, or where
      they stood at (x0, y0) and (gx0, gy0). */
  ghost predicate ReadState(d: seq<Code>, n: int, s: seq<Code>, width: int, foundStart: bool, foundGoal: bool,
                            px: real, py: real, gx: real, gy: real, x0: real, y0: real, gx0: real, gy0: real)
  {
    && 0 <= n <= |d| == |s|
    && s[..n] == d[..n]
    && Placed(d[..n], R, width, foundStart, px, py, x0, y0)
    && Placed(d[..n], G, width, foundGoal, gx, gy, gx0, gy0)
  }

  /** Storing entry n and moving the player or goal to its centre when it is a start or goal
      reads one more pixel. */
  lemma ReadStep(d: seq<Code>, n: int, s: seq<Code>, width: int, foundStart: bool, foundGoal: bool,
                 px: real, py: real, gx: real, gy: real, x0: real, y0: real, gx0: real, gy0: real)
    requires ReadState(d, n, s, width, foundStart, foundGoal, px, py, gx, gy, x0, y0, gx0, gy0)
    requires n < |d| && width > 0
    ensures ReadState(d, n + 1, s[n := d[n]], width, foundStart || d[n] == R, foundGoal || d[n] == G,
                      if d[n] == R then CentreX(n, width) else px, if d[n] == R then CentreY(n, width) else py,
                      if d[n] == G then CentreX(n, width) else gx, if d[n] == G then CentreY(n, width) else gy,
                      x0, y0, gx0, gy0)
  {
    var c := d[n];
    assert d[..n + 1] == d[..n] + [c];
    assert s[n := c][..n + 1] == d[..n + 1];
    PlacedStep(d[..n], c, R, width, foundStart, px, py, foundStart || c == R,
               if c == R then CentreX(n, width) else px, if c == R then CentreY(n, width) else py, x0, y0);
    PlacedStep(d[..n], c, G, width, foundGoal, gx, gy, foundGoal || c == G,
               if c == G then CentreX(n, width) else gx, if c == G then CentreY(n, width) else gy, gx0, gy0);
  }

  /** The viewer's state: the loaded maze and its size, the player and goal positions in
      cell units, and whether the goal was reached. */
  class Viewer {
    var maze: array<Code>
    var mazeWidth: int
    var mazeHeight: int
    var playerX: real
    var playerY: real
    var goalX: real
    var goalY: real
    var won: bool

    ghost predicate Valid()
      reads this
    {
      mazeWidth >= 0 && mazeHeight >= 0 && maze.Length == Area(mazeWidth, mazeHeight)
    }

    /** The initial state before any image is loaded: an empty maze at the origin. */
    constructor ()
      ensures Valid() && mazeWidth == 0 && mazeHeight == 0 && maze.Length == 0
      ensures playerX == 0.0 && playerY == 0.0 && goalX == 0.0 && goalY == 0.0 && !won
    {
      maze := new Code[0];
      mazeWidth, mazeHeight := 0, 0;
      playerX, playerY, goalX, goalY := 0.0, 0.0, 0.0, 0.0;
      won := false;
    }

    /** scripts/main.js isWall: a point in cell units is blocked when the cell containing it
        lies off the maze or is a wall. */
    function IsWall(x: real, y: real): (wall: bool)
      reads this, maze
      requires Valid()
      ensures !(0.0 <= x < mazeWidth as real && 0.0 <= y < mazeHeight as real) ==> wall
      ensures 0.0 <= x < mazeWidth as real && 0.0 <= y < mazeHeight as real ==>
        (wall <==> At(maze[..], x.Floor, y.Floor, mazeWidth) == B)
    {
      var ix := x.Floor;
      var iy := y.Floor;
      if ix < 0 || ix >= mazeWidth || iy < 0 || iy >= mazeHeight then true
      else
        IdxRange(ix, iy, mazeWidth, mazeHeight);
        maze[Idx(ix, iy, mazeWidth)] == B
    }

    /** The centre of the cell at address k is blocked exactly when that cell is a wall. */
    lemma CentreWall(k: int)
      requires Valid() && mazeWidth > 0 && 0 <= k < maze.Length
      ensures IsWall(CentreX(k, mazeWidth), CentreY(k, mazeWidth)) <==> maze[k] == B
    {
      AddressCoords(k, mazeWidth, mazeHeight);
      assert CentreX(k, mazeWidth).Floor == k % mazeWidth;
      assert CentreY(k, mazeWidth).Floor == k / mazeWidth;
    }

    /** A position placed at the centre of a start or goal cell is not in a wall. */
    lemma PlacedClear(c: Code, x: real, y: real, x0: real, y0: real)
      requires Valid() && c != B && Placed(maze[..], c, mazeWidth, true, x, y, x0, y0)
      ensures !IsWall(x, y)
    {
      CentreWall(LastIndex(maze[..], c));
    }

    /** The loop of loadMaze after n pixels of the image decoding to d, over the viewer's
        fields. */
    ghost predicate Reading(d: seq<Code>, n: int, foundStart: bool, foundGoal: bool, x0: real, y0: real, gx0: real, gy0: real)
      reads this, maze
    {
      && Valid()
      && ReadState(d, n, maze[..], mazeWidth, foundStart, foundGoal, playerX, playerY, goalX, goalY, x0, y0, gx0, gy0)
    }

    /** One pass of the loop of loadMaze: stores the code of pixel n and, on a start or goal,
        moves the player or goal to its centre. */
    method ReadPixel(pixels: seq<Byte>, i: int, ghost n: int, foundStart: bool, foundGoal: bool, ghost x0: real, ghost y0: real, ghost gx0: real, ghost gy0: real)
      returns (foundStart': bool, foundGoal': bool)
      requires |pixels| % 4 == 0 && i == 4 * n && i < |pixels|
      requires Reading(Decode(pixels), n, foundStart, foundGoal, x0, y0, gx0, gy0)
      modifies this, maze
      ensures maze == old(maze) && mazeWidth == old(mazeWidth) && mazeHeight == old(mazeHeight) && won == old(won)
      ensures Reading(Decode(pixels), n + 1, foundStart', foundGoal', x0, y0, gx0, gy0)
    {
      ghost var d := Decode(pixels);
      var idx := i / 4;
      assert idx == n;
      assert mazeWidth > 0 by {
        AreaValue(mazeWidth, mazeHeight);
      }
      var c := Classify(pixels[i], pixels[i + 1], pixels[i + 2]);
      assert c == d[n];
      ReadStep(d, n, maze[..], mazeWidth, foundStart, foundGoal, playerX, playerY, goalX, goalY, x0, y0, gx0, gy0);
      var cx := (idx % mazeWidth) as real + 0.5;
      var cy := (idx / mazeWidth) as real + 0.5;
      foundStart', foundGoal' := foundStart || c == R, foundGoal || c == G;
      var px, py := if c == R then cx else playerX, if c == R then cy else playerY;
      var gx, gy := if c == G then cx else goalX, if c == G then cy else goalY;
      ghost var s := maze[..];
      maze[idx] := c;
      assert maze[..] == s[n := c];
      playerX, playerY, goalX, goalY := px, py, gx, gy;
    }

    /** The loop of scripts/main.js loadMaze: reads every pixel into the maze, leaving the
        player and goal at the last start and goal cell, or where they stood. */
    method ReadAll(pixels: seq<Byte>) returns (foundStart: bool, foundGoal: bool)
      requires Valid() && |pixels| == 4 * maze.Length
      modifies this, maze
      ensures maze == old(maze) && mazeWidth == old(mazeWidth) && mazeHeight == old(mazeHeight) && won == old(won)
      ensures Reading(Decode(pixels), maze.Length, foundStart, foundGoal, old(playerX), old(playerY), old(goalX), old(goalY))
    {
      foundStart, foundGoal := false, false;
      var i := 0;
      ghost var n := 0;
      while i < |pixels|
        invariant 0 <= n <= maze.Length && i == 4 * n
        invariant maze == old(maze) && mazeWidth == old(mazeWidth) && mazeHeight == old(mazeHeight) && won == old(won)
        invariant Reading(Decode(pixels), n, foundStart, foundGoal, old(playerX), old(playerY), old(goalX), old(goalY))
      {
        foundStart, foundGoal := ReadPixel(pixels, i, n, foundStart, foundGoal, old(playerX), old(playerY), old(goalX), old(goalY));
        i := i + 4;
        n := n + 1;
      }
    }

    /** scripts/main.js loadMaze, from the decoded RGBA pixels of a `width` by `height` image
        on: the maze is the decoded image; the player stands at the centre of the last red
        pixel and the goal at the centre of the last green one, each left where it was when
        there is none; the game starts, not yet won, exactly when both exist, and then neither
        position is in a wall. */
    method LoadMaze(pixels: seq<Byte>, width: int, height: int) returns (started: bool)
      requires width >= 0 && height >= 0 && |pixels| == 4 * Area(width, height)
      modifies this
      ensures Valid() && mazeWidth == width && mazeHeight == height && fresh(maze)
      ensures maze[..] == Decode(pixels)
      ensures started <==> LastIndex(maze[..], R) >= 0 && LastIndex(maze[..], G) >= 0
      ensures Placed(maze[..], R, width, LastIndex(maze[..], R) >= 0, playerX, playerY, old(playerX), old(playerY))
      ensures Placed(maze[..], G, width, LastIndex(maze[..], G) >= 0, goalX, goalY, old(goalX), old(goalY))
      ensures won == if started then false else old(won)
      ensures started ==> !IsWall(playerX, playerY) && !IsWall(goalX, goalY)
    {
      mazeWidth := width;
      mazeHeight := height;
      maze := new Code[Area(width, height)](_ => B);
      var foundStart, foundGoal := ReadAll(pixels);
      ghost var d := Decode(pixels);
      assert maze[..] == maze[..maze.Length] && d[..maze.Length] == d;
      started := foundStart && foundGoal;
      if started {
        won := false;
        PlacedClear(R, playerX, playerY, old(playerX), old(playerY));
        PlacedClear(G, goalX, goalY, old(goalX), old(goalY));
      }
    }
  }
}
