/** The cell colours of the generated image: renderMaze paints each cell code as an RGBA
    pixel, and main.py's COLOR_MAP uses the same table. */
module Colours {
  import opened Grid

  /** One channel of an image buffer (Uint8ClampedArray, numpy uint8). */
  type Byte = b: int | 0 <= b < 256

  datatype Rgb = Rgb(r: Byte, g: Byte, b: Byte)

  /** The colour of a cell code: black wall, white passage, red start, green goal. */
  function Colour(c: Code): Rgb
  {
    match c
    case 0 => Rgb(0, 0, 0)
    case 1 => Rgb(255, 255, 255)
    case 2 => Rgb(255, 0, 0)
    case 3 => Rgb(0, 255, 0)
  }

  /** Distinct codes get distinct colours, so the image determines the grid. */
  lemma ColourInjective(c: Code, d: Code)
    requires Colour(c) == Colour(d)
    ensures c == d
  {
  }

  /** Pixel i of an RGBA buffer carries colour rgb at full opacity. */
  ghost predicate Painted(data: seq<Byte>, i: int, rgb: Rgb)
    requires 0 <= i && 4 * i + 3 < |data|
  {
    data[4 * i] == rgb.r && data[4 * i + 1] == rgb.g && data[4 * i + 2] == rgb.b && data[4 * i + 3] == 255
  }

  /** The pixel loop of scripts/gen.js renderMaze over a fresh, zero-filled RGBA buffer of four
      bytes per cell: pixel i gets the colour of cell i at full opacity. The canvas itself is
      not modelled. */
  method RenderMaze(maze: array<Code>) returns (data: array<Byte>)
    ensures data.Length == 4 * maze.Length
    ensures forall i :: 0 <= i < maze.Length ==> Painted(data[..], i, Colour(maze[i]))
  {
    data := new Byte[4 * maze.Length](_ => 0);
    for i := 0 to maze.Length
      invariant forall j :: 0 <= j < i ==> Painted(data[..], j, Colour(maze[j]))
    {
      var idx := i * 4;
      var rgb := Colour(maze[i]);
      data[idx] := rgb.r;
      data[idx + 1] := rgb.g;
      data[idx + 2] := rgb.b;
      data[idx + 3] := 255;
    }
  }
}
