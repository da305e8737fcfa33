/** The box drawer: a rectangle of rounded corners and straight edges, every
    cell wrapped in one colour. */
module Box {
  import opened Colors
  import opened Layers

  const TopLeft: string := "\U{256D}"
  const TopRight: string := "\U{256E}"
  const BottomRight: string := "\U{256F}"
  const BottomLeft: string := "\U{2570}"
  const Vertical: string := "\U{2502}"
  const Horizontal: string := "\U{2500}"

  /** Number of values in `range(n)`. */
  function Count(n: int): (r: nat)
    ensures n >= 0 ==> r == n
    ensures n < 0 ==> r == 0
  {
    if n > 0 then n else 0
  }

  /** Glyph of cell (x, y), where `mw` and `mh` are the last column and row:
      the source's chain of tests, first match wins. */
  function BoxGlyph(x: int, y: int, mw: int, mh: int): string
  {
    if x == 0 && y == 0 then TopLeft
    else if x == mw && y == mh then BottomRight
    else if x == 0 && y == mh then BottomLeft
    else if x == mw && y == 0 then TopRight
    else if x == 0 || x == mw then Vertical
    else if y == 0 || y == mh then Horizontal
    else " "
  }

  /** `create_box`: `height` rows of `width` coloured cells. */
  function CreateBox(width: int, height: int, color: string): (r: Grid)
    ensures Rect(r, Count(height), Count(width))
    ensures forall y, x :: 0 <= y < |r| && 0 <= x < |r[y]| ==> r[y][x] == Wrap(color, BoxGlyph(x, y, width - 1, height - 1))
  {
    seq(Count(height), y requires 0 <= y < Count(height) =>
      seq(Count(width), x requires 0 <= x < Count(width) => Wrap(color, BoxGlyph(x, y, width - 1, height - 1))))
  }

  /** The frame of a w x h rectangle read row by row: the top row runs from
      the top-left to the top-right corner, the bottom row likewise, and the
      rows between have a vertical bar at both ends and spaces inside. */
  function Frame(x: int, y: int, w: int, h: int): string
  {
    if y == 0 then (if x == 0 then TopLeft else if x == w - 1 then TopRight else Horizontal)
    else if y == h - 1 then (if x == 0 then BottomLeft else if x == w - 1 then BottomRight else Horizontal)
    else if x == 0 || x == w - 1 then Vertical
    else " "
  }

  /** For boxes at least 2 x 2, the chain of tests draws exactly the frame. */
  lemma BoxIsFrame(width: int, height: int, color: string)
    requires width >= 2 && height >= 2
    ensures forall y, x :: 0 <= y < height && 0 <= x < width ==>
              CreateBox(width, height, color)[y][x] == Wrap(color, Frame(x, y, width, height))
  {
  }

  /** Every box cell carries the colour prefix and the reset sequence, so no
      box cell is transparent: the box is a fully opaque base layer. */
  lemma BoxOpaque(width: int, height: int, color: string)
    ensures forall y, x :: 0 <= y < Count(height) && 0 <= x < Count(width) ==> OpaqueAt(CreateBox(width, height, color), y, x)
  {
    var b := CreateBox(width, height, color);
    forall y, x | 0 <= y < Count(height) && 0 <= x < Count(width)
      ensures OpaqueAt(b, y, x)
    {
      WrapIsLong(color, BoxGlyph(x, y, width - 1, height - 1));
    }
  }
}
