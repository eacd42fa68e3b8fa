/**
  * The pure part of the pixel-buffer simulator (src/game_of_life.rs): a board
  * is a flat RGBA byte buffer of `width * height` cells, cell `(x, y)` being the
  * four bytes at offset `(y * width + x) * 4`. A cell is alive exactly when its
  * four bytes equal the configured alive colour.
  */
module PixelBoard {
  import opened Options
  import opened Life

  newtype byte = x: int | 0 <= x < 256

  /** An RGBA colour, one byte per channel. */
  type Color = c: seq<byte> | |c| == 4 witness [0, 0, 0, 0]

  datatype SeedKind = Random | Spaceship | GosperGliderGun | SimkinGliderGun

  /** The game settings the core reads (the tick interval, a float, is not modelled). */
  datatype Settings = Settings(cellSize: byte, aliveColor: Color, deadColor: Color, seed: SeedKind)

  const DefaultSettings: Settings := Settings(3, [64, 64, 243, 255], [0, 0, 0, 255], Random)

  // ---------------------------------------------------------------------
  // Index arithmetic
  // ---------------------------------------------------------------------

  lemma MulLe(a: nat, b: nat, k: nat)
    requires a <= b
    ensures a * k <= b * k
  {
  }

  lemma MulSucc(a: nat, k: nat)
    ensures (a + 1) * k == a * k + k
  {
  }

  /** Cell `(x, y)` of a `width` x `height` board has cell index below `width * height`. */
  lemma CellIndexBound(width: nat, height: nat, x: int, y: int)
    requires 0 <= x < width && 0 <= y < height
    ensures 0 <= y * width + x < width * height
  {
    assert (y + 1) * width == y * width + width;
    MulLe(y + 1, height, width);
  }

  /** Distinct cells have distinct cell indices. */
  lemma CellIndexInjective(width: nat, x: int, y: int, x': int, y': int)
    requires 0 <= x < width && 0 <= x' < width && 0 <= y && 0 <= y'
    requires y * width + x == y' * width + x'
    ensures x == x' && y == y'
  {
    if y < y' {
      assert (y + 1) * width == y * width + width;
      MulLe(y + 1, y', width);
    } else if y' < y {
      assert (y' + 1) * width == y' * width + width;
      MulLe(y' + 1, y, width);
    }
  }

  /** A buffer of `width * height` cells, four bytes each, holds `width * height` cells. */
  lemma CellCount(width: nat, height: nat, length: nat)
    requires length == width * height * 4
    ensures length / 4 == width * height
  {
  }

  /** Two buffers that agree below `lo` and on the four bytes from `lo` agree below `lo + 4`. */
  lemma PrefixGrows(a: seq<byte>, b: seq<byte>, lo: nat)
    requires lo + 4 <= |a| && lo + 4 <= |b|
    requires forall j :: 0 <= j < lo ==> a[j] == b[j]
    requires a[lo..lo + 4] == b[lo..lo + 4]
    ensures forall j :: 0 <= j < lo + 4 ==> a[j] == b[j]
  {
    forall j | lo <= j < lo + 4 ensures a[j] == b[j] {
      assert a[j] == a[lo..lo + 4][j - lo];
    }
  }

  /** Cell index `i` splits into row `i / width` and column `i - (i / width) * width`. */
  lemma SplitIndex(width: nat, height: nat, i: int)
    requires 0 <= i < width * height
    ensures width > 0
    ensures 0 <= i / width < height
    ensures 0 <= i - (i / width) * width < width
  {
    var y := i / width;
    if y >= height {
      MulLe(height, y, width);
    }
  }

  // ---------------------------------------------------------------------
  // Bounds-checked access: `Pixel::get_pixel` / `get_pixel_mut`
  // ---------------------------------------------------------------------

  predicate InBoard(width: nat, height: nat, x: int, y: int) {
    0 <= x < width && 0 <= y < height
  }

  /** The byte offset that `get_pixel` and `get_pixel_mut` address, or `None` off the board.
      The four bytes from the offset lie inside a buffer of `width * height * 4` bytes. */
  function CellOffset(width: nat, height: nat, x: int, y: int): (offset: Option<nat>)
    ensures offset.None? <==> (x >= width || x < 0 || y >= height || y < 0)
    ensures offset.Some? ==> offset.value == (y * width + x) * 4
    ensures offset.Some? ==> offset.value + 4 <= width * height * 4
  {
    if x >= width || x < 0 || y >= height || y < 0 then None
    else
      CellIndexBound(width, height, x, y);
      Some((y * width + x) * 4)
  }

  /** The four bytes of the cell with index `i`. */
  function CellBytes(data: seq<byte>, i: nat): Color
    requires i * 4 + 4 <= |data|
  {
    data[i * 4..i * 4 + 4]
  }

  /** `get_pixel`: the colour of cell `(x, y)`, or `None` when the cell is off the board. */
  function GetPixel(data: seq<byte>, width: nat, height: nat, x: int, y: int): (pixel: Option<Color>)
    requires |data| == width * height * 4
    ensures pixel.None? <==> !InBoard(width, height, x, y)
    ensures pixel.Some? ==> y * width + x < width * height && pixel.value == CellBytes(data, y * width + x)
  {
    match CellOffset(width, height, x, y)
    case None => None
    case Some(p) => Some(data[p..p + 4])
  }

  /** Two different on-board cells never share a byte. */
  lemma CellOffsetsDisjoint(width: nat, height: nat, x: int, y: int, x': int, y': int)
    requires InBoard(width, height, x, y) && InBoard(width, height, x', y')
    requires (x, y) != (x', y')
    ensures CellOffset(width, height, x, y).value + 4 <= CellOffset(width, height, x', y').value ||
            CellOffset(width, height, x', y').value + 4 <= CellOffset(width, height, x, y).value
  {
    if y * width + x == y' * width + x' {
      CellIndexInjective(width, x, y, x', y');
    }
  }

  /** Every byte of a well-sized buffer belongs to some cell, so two buffers that agree on
      every pixel are equal. */
  lemma {:induction false} SamePixelsSameBuffer(d1: seq<byte>, d2: seq<byte>, width: nat, height: nat)
    requires |d1| == width * height * 4 && |d2| == width * height * 4
    requires forall x, y :: InBoard(width, height, x, y) ==>
      GetPixel(d1, width, height, x, y) == GetPixel(d2, width, height, x, y)
    ensures d1 == d2
  {
    forall j | 0 <= j < |d1| ensures d1[j] == d2[j] {
      var i := j / 4;
      SplitIndex(width, height, i);
      var y := i / width;
      var x := i - y * width;
      assert InBoard(width, height, x, y);
      assert CellBytes(d1, i)[j - i * 4] == CellBytes(d2, i)[j - i * 4];
    }
  }

  // ---------------------------------------------------------------------
  // Repainting a buffer
  // ---------------------------------------------------------------------

  /** `d1` is `d0` with every on-board cell of `s` set to `color` and every other cell as it was. */
  ghost predicate Repainted(d0: seq<byte>, d1: seq<byte>, width: nat, height: nat, s: set<(int, int)>, color: Color) {
    |d0| == width * height * 4 && |d1| == width * height * 4 &&
    forall x, y :: InBoard(width, height, x, y) ==>
      GetPixel(d1, width, height, x, y) == if (x, y) in s then Some(color) else GetPixel(d0, width, height, x, y)
  }

  /** A cell that is off the board may be counted as repainted or not: it is never looked at. */
  lemma RepaintedOffBoard(d0: seq<byte>, d1: seq<byte>, width: nat, height: nat, s: set<(int, int)>,
                          x: int, y: int, found: bool, color: Color)
    requires found <==> InBoard(width, height, x, y)
    requires Repainted(d0, d1, width, height, s + if found then {(x, y)} else {}, color)
    ensures Repainted(d0, d1, width, height, s + {(x, y)}, color)
  {
  }

  /** A buffer whose bytes repeat `color` holds `color` in every cell. */
  lemma FilledPixels(d: seq<byte>, width: nat, height: nat, color: Color)
    requires |d| == width * height * 4
    requires forall j :: 0 <= j < |d| ==> d[j] == color[j % 4]
    ensures forall x, y :: InBoard(width, height, x, y) ==> GetPixel(d, width, height, x, y) == Some(color)
  {
    forall x, y | InBoard(width, height, x, y) ensures GetPixel(d, width, height, x, y) == Some(color) {
      var i := y * width + x;
      CellIndexBound(width, height, x, y);
      assert CellBytes(d, i) == color;
    }
  }

  /** Writing `color` over the four bytes of on-board cell `(x, y)` repaints that cell alone. */
  lemma WrittenPixel(d0: seq<byte>, d1: seq<byte>, width: nat, height: nat, x: int, y: int, color: Color)
    requires |d0| == width * height * 4 && |d1| == |d0| && InBoard(width, height, x, y)
    requires d1[CellOffset(width, height, x, y).value..CellOffset(width, height, x, y).value + 4] == color
    requires forall j :: 0 <= j < |d1| && !(CellOffset(width, height, x, y).value <= j < CellOffset(width, height, x, y).value + 4) ==>
      d1[j] == d0[j]
    ensures Repainted(d0, d1, width, height, {(x, y)}, color)
  {
    forall x', y' | InBoard(width, height, x', y')
      ensures GetPixel(d1, width, height, x', y') ==
        if (x', y') in {(x, y)} then Some(color) else GetPixel(d0, width, height, x', y')
    {
      if x' == x && y' == y {
        assert CellBytes(d1, y * width + x) == color;
      } else {
        CellOffsetsDisjoint(width, height, x, y, x', y');
        var i := y' * width + x';
        assert CellBytes(d1, i) == CellBytes(d0, i);
      }
    }
  }

  /** Repainting `s1` and then `s2` repaints `s1 + s2`. */
  lemma RepaintedTwice(d0: seq<byte>, d1: seq<byte>, d2: seq<byte>, width: nat, height: nat,
                       s1: set<(int, int)>, s2: set<(int, int)>, color: Color)
    requires Repainted(d0, d1, width, height, s1, color) && Repainted(d1, d2, width, height, s2, color)
    ensures Repainted(d0, d2, width, height, s1 + s2, color)
  {
  }

  /** Repainting nothing leaves every cell as it was. */
  lemma RepaintedNothing(d: seq<byte>, width: nat, height: nat, color: Color)
    requires |d| == width * height * 4
    ensures Repainted(d, d, width, height, {}, color)
  {
  }

  // ---------------------------------------------------------------------
  // The brush disc
  // ---------------------------------------------------------------------

  /** The brush test `sqrt(dx^2 + dy^2) <= radius`, stated exactly on integers. */
  predicate InBrush(dx: int, dy: int, radius: int) {
    dx * dx + dy * dy <= radius * radius
  }

  /** The cells the brush covers around `(cx, cy)`: those whose offsets pass the brush test. */
  function Disc(cx: int, cy: int, radius: int): set<(int, int)> {
    set x, y | cx - radius <= x <= cx + radius && cy - radius <= y <= cy + radius && InBrush(x - cx, y - cy, radius) :: (x, y)
  }

  lemma SquareAbove(a: int, r: int)
    requires r >= 0 && (a > r || a < -r)
    ensures a * a > r * r
  {
    var b := if a < 0 then -a else a;
    assert b * b == a * a;
    assert r + 1 <= b;
    MulLe(r + 1, b, b);
    assert (r + 1) * b <= b * b;
    MulLe(r + 1, b, r + 1);
    assert (r + 1) * (r + 1) <= b * (r + 1);
    assert (r + 1) * (r + 1) == r * r + 2 * r + 1;
  }

  lemma SquareNonNegative(a: int)
    ensures a * a >= 0
  {
    if a < 0 {
      MulLe(0, -a, -a);
    } else {
      MulLe(0, a, a);
    }
  }

  /** The disc lies inside the square `[-radius, radius]^2` that the brush loops walk. */
  lemma BrushBounds(dx: int, dy: int, radius: int)
    requires radius >= 0 && InBrush(dx, dy, radius)
    ensures -radius <= dx <= radius && -radius <= dy <= radius
  {
    SquareNonNegative(dx);
    SquareNonNegative(dy);
    if dx > radius || dx < -radius {
      SquareAbove(dx, radius);
    }
    if dy > radius || dy < -radius {
      SquareAbove(dy, radius);
    }
  }

  /** The disc holds exactly the cells that pass the brush test: no such cell lies outside
      the square of side `2 * radius + 1` that the brush loops scan. */
  lemma DiscMembers(cx: int, cy: int, radius: int)
    requires radius >= 0
    ensures forall x, y :: (x, y) in Disc(cx, cy, radius) <==> InBrush(x - cx, y - cy, radius)
  {
    forall x, y | InBrush(x - cx, y - cy, radius) ensures (x, y) in Disc(cx, cy, radius) {
      BrushBounds(x - cx, y - cy, radius);
    }
  }

  // ---------------------------------------------------------------------
  // Aliveness: `State::cell_state`
  // ---------------------------------------------------------------------

  /** A colour is alive exactly when it equals the alive colour byte for byte; any other
      colour, the dead colour or garbage alike, is dead. */
  function ColorState(c: Color, alive: Color): (s: State)
    ensures s == Alive <==> c == alive
  {
    if c[0] == alive[0] && c[1] == alive[1] && c[2] == alive[2] && c[3] == alive[3]
    then Alive
    else Dead
  }

  /** A neighbour lookup of `cell_state`: on the board and alive. */
  predicate PixelAlive(data: seq<byte>, width: nat, height: nat, x: int, y: int, alive: Color)
    requires |data| == width * height * 4
  {
    match GetPixel(data, width, height, x, y)
    case None => false
    case Some(c) => ColorState(c, alive) == Alive
  }

  /** The board as a grid of alive flags, row `y`, column `x`. */
  function Decode(data: seq<byte>, width: nat, height: nat, alive: Color): (g: Grid)
    requires |data| == width * height * 4
    ensures |g| == height && Rectangular(g, width)
  {
    seq(height, y requires 0 <= y < height =>
      seq(width, x requires 0 <= x < width => PixelAlive(data, width, height, x, y, alive)))
  }

  lemma DecodeOccupied(data: seq<byte>, width: nat, height: nat, alive: Color, x: int, y: int)
    requires |data| == width * height * 4
    ensures Occupied(Decode(data, width, height, alive), y, x) == Hit(data, width, height, x, y, alive)
  {
  }

  // ---------------------------------------------------------------------
  // The rule: `cell_state`
  // ---------------------------------------------------------------------

  /** 1 when the cell at `(x, y)` is on the board and alive. */
  function Hit(data: seq<byte>, width: nat, height: nat, x: int, y: int, alive: Color): nat
    requires |data| == width * height * 4
  {
    if PixelAlive(data, width, height, x, y, alive) then 1 else 0
  }

  /** The inner loop of the neighbour count: the alive cells at offsets `(nx, -1)` up to
      `(nx, ny - 1)`, the centre skipped. */
  function CountColumn(data: seq<byte>, width: nat, height: nat, x: int, y: int, alive: Color, nx: int, ny: int): (n: nat)
    requires |data| == width * height * 4
    requires -1 <= ny <= 2
    decreases ny + 1
    ensures n <= ny + 1
  {
    if ny == -1 then 0
    else
      var here := if nx == 0 && ny - 1 == 0 then 0 else Hit(data, width, height, x + nx, y + ny - 1, alive);
      CountColumn(data, width, height, x, y, alive, nx, ny - 1) + here
  }

  /** The outer loop of the neighbour count: the alive cells in the columns of offsets
      `-1` up to `nx - 1`. */
  function CountColumns(data: seq<byte>, width: nat, height: nat, x: int, y: int, alive: Color, nx: int): (n: nat)
    requires |data| == width * height * 4
    requires -1 <= nx <= 2
    decreases nx + 1
    ensures n <= 3 * (nx + 1)
  {
    if nx == -1 then 0
    else CountColumns(data, width, height, x, y, alive, nx - 1) + CountColumn(data, width, height, x, y, alive, nx - 1, 2)
  }

  /** The nine steps of the count, written out. */
  lemma CountAliveUnrolled(data: seq<byte>, width: nat, height: nat, x: int, y: int, alive: Color)
    requires |data| == width * height * 4
    ensures CountColumns(data, width, height, x, y, alive, 2) ==
      Hit(data, width, height, x - 1, y - 1, alive) + Hit(data, width, height, x - 1, y, alive) +
      Hit(data, width, height, x - 1, y + 1, alive) + Hit(data, width, height, x, y - 1, alive) +
      Hit(data, width, height, x, y + 1, alive) + Hit(data, width, height, x + 1, y - 1, alive) +
      Hit(data, width, height, x + 1, y, alive) + Hit(data, width, height, x + 1, y + 1, alive)
  {
    assert CountColumn(data, width, height, x, y, alive, -1, 2) ==
      Hit(data, width, height, x - 1, y - 1, alive) + Hit(data, width, height, x - 1, y, alive) +
      Hit(data, width, height, x - 1, y + 1, alive);
    assert CountColumn(data, width, height, x, y, alive, 0, 2) ==
      Hit(data, width, height, x, y - 1, alive) + Hit(data, width, height, x, y + 1, alive);
    assert CountColumn(data, width, height, x, y, alive, 1, 2) ==
      Hit(data, width, height, x + 1, y - 1, alive) + Hit(data, width, height, x + 1, y, alive) +
      Hit(data, width, height, x + 1, y + 1, alive);
  }

  /** The full count is exactly the number of alive cells among the eight on-board neighbours. */
  lemma CountAliveIsNeighbours(data: seq<byte>, width: nat, height: nat, alive: Color, x: int, y: int)
    requires |data| == width * height * 4
    ensures CountColumns(data, width, height, x, y, alive, 2) == Neighbours(Decode(data, width, height, alive), y, x)
  {
    CountAliveUnrolled(data, width, height, x, y, alive);
    DecodeOccupied(data, width, height, alive, x - 1, y - 1);
    DecodeOccupied(data, width, height, alive, x - 1, y);
    DecodeOccupied(data, width, height, alive, x - 1, y + 1);
    DecodeOccupied(data, width, height, alive, x, y - 1);
    DecodeOccupied(data, width, height, alive, x, y + 1);
    DecodeOccupied(data, width, height, alive, x + 1, y - 1);
    DecodeOccupied(data, width, height, alive, x + 1, y);
    DecodeOccupied(data, width, height, alive, x + 1, y + 1);
  }

  /** The neighbour-count loops of `cell_state`: visits the eight offsets around `(x, y)`
      (outer loop over x, inner over y, skipping the centre), reads each with `get_pixel` and
      counts those on the board and alive. The count is the cell's number of alive neighbours
      in the decoded board. */
  method CountNeighbours(data: seq<byte>, width: nat, height: nat, x: int, y: int, alive: Color)
    returns (neighboursAlive: nat)
    requires |data| == width * height * 4
    ensures neighboursAlive == Neighbours(Decode(data, width, height, alive), y, x)
  {
    neighboursAlive := 0;
    for nx := -1 to 2
      invariant neighboursAlive == CountColumns(data, width, height, x, y, alive, nx)
    {
      for ny := -1 to 2
        invariant neighboursAlive ==
          CountColumns(data, width, height, x, y, alive, nx) + CountColumn(data, width, height, x, y, alive, nx, ny)
      {
        assert CountColumn(data, width, height, x, y, alive, nx, ny + 1) ==
          CountColumn(data, width, height, x, y, alive, nx, ny) +
          if nx == 0 && ny == 0 then 0 else Hit(data, width, height, x + nx, y + ny, alive);
        if nx == 0 && ny == 0 {
          continue;
        }
        match GetPixel(data, width, height, x + nx, y + ny) {
          case Some(n) =>
            match ColorState(n, alive) {
              case Alive => neighboursAlive := neighboursAlive + 1;
              case Dead =>
            }
          case None =>
        }
      }
    }
    CountAliveIsNeighbours(data, width, height, alive, x, y);
  }

  /** `cell_state`: the state of on-board cell `(x, y)` of the image in the next generation,
      from its own colour and its count of alive neighbours (an off-board neighbour counts as
      dead). A cell of any colour other than the alive colour is dead. */
  method CellState(data: seq<byte>, width: nat, height: nat, x: int, y: int, settings: Settings) returns (s: State)
    requires |data| == width * height * 4 && InBoard(width, height, x, y)
    ensures s == Alive <==>
      Rule(GetPixel(data, width, height, x, y).value == settings.aliveColor,
           Neighbours(Decode(data, width, height, settings.aliveColor), y, x))
    ensures s == Alive <==> NextGen(Decode(data, width, height, settings.aliveColor))[y][x]
  {
    var neighboursAlive := CountNeighbours(data, width, height, x, y, settings.aliveColor);
    NextGenAt(Decode(data, width, height, settings.aliveColor), y, x);
    match ColorState(GetPixel(data, width, height, x, y).value, settings.aliveColor) {
      case Alive =>
        if neighboursAlive < 2 {
          return Dead;
        }
        if neighboursAlive == 2 || neighboursAlive == 3 {
          return Alive;
        } else {
          return Dead;
        }
      case Dead =>
        if neighboursAlive == 3 {
          return Alive;
        } else {
          return Dead;
        }
    }
  }

  // ---------------------------------------------------------------------
  // Encoding a generation back into bytes
  // ---------------------------------------------------------------------

  /** The colour that stands for an alive flag. */
  function Shade(alive: bool, aliveColor: Color, deadColor: Color): Color {
    if alive then aliveColor else deadColor
  }

  function EncodeRow(row: seq<bool>, aliveColor: Color, deadColor: Color): (bytes: seq<byte>)
    ensures |bytes| == |row| * 4
  {
    if row == [] then []
    else Shade(row[0], aliveColor, deadColor) + EncodeRow(row[1..], aliveColor, deadColor)
  }

  /** The byte buffer holding grid `g` row after row, each cell in the alive or the dead colour. */
  function Encode(g: Grid, aliveColor: Color, deadColor: Color): seq<byte> {
    if g == [] then []
    else EncodeRow(g[0], aliveColor, deadColor) + Encode(g[1..], aliveColor, deadColor)
  }

  lemma {:induction false} EncodeRowAt(row: seq<bool>, aliveColor: Color, deadColor: Color, x: int, k: int)
    requires 0 <= x < |row| && 0 <= k < 4
    ensures EncodeRow(row, aliveColor, deadColor)[x * 4 + k] == Shade(row[x], aliveColor, deadColor)[k]
  {
    if x > 0 {
      EncodeRowAt(row[1..], aliveColor, deadColor, x - 1, k);
    }
  }

  lemma {:induction false} EncodeLength(g: Grid, width: nat, aliveColor: Color, deadColor: Color)
    requires Rectangular(g, width)
    ensures |Encode(g, aliveColor, deadColor)| == |g| * width * 4
  {
    if g != [] {
      EncodeLength(g[1..], width, aliveColor, deadColor);
      MulSucc(|g| - 1, width);
    }
  }

  /** Byte `k` of cell `(x, y)`, number `i = y * width + x`, in the encoding of `g`. */
  lemma {:induction false} EncodeAt(g: Grid, width: nat, aliveColor: Color, deadColor: Color, x: int, y: int, i: int, k: int)
    requires Rectangular(g, width)
    requires 0 <= x < width && 0 <= y < |g| && 0 <= k < 4 && i == y * width + x
    ensures 0 <= i * 4 + k < |Encode(g, aliveColor, deadColor)|
    ensures Encode(g, aliveColor, deadColor)[i * 4 + k] == Shade(g[y][x], aliveColor, deadColor)[k]
  {
    if y == 0 {
      EncodeRowAt(g[0], aliveColor, deadColor, x, k);
    } else {
      MulSucc(y - 1, width);
      EncodeAt(g[1..], width, aliveColor, deadColor, x, y - 1, i - width, k);
    }
  }

  /** The encoded next generation of a `width` x `height` board is a buffer of the same size. */
  lemma NextGenLength(data: seq<byte>, width: nat, height: nat, aliveColor: Color, deadColor: Color)
    requires |data| == width * height * 4
    ensures |Encode(NextGen(Decode(data, width, height, aliveColor)), aliveColor, deadColor)| == width * height * 4
  {
    EncodeLength(NextGen(Decode(data, width, height, aliveColor)), width, aliveColor, deadColor);
    assert height * width == width * height;
  }

  /** Cell `(x, y)`, number `i = y * width + x` of the buffer: in the encoded next generation
      its four bytes are the alive or the dead colour, as the cell's next state says. */
  lemma NextGenBytes(data: seq<byte>, width: nat, height: nat, aliveColor: Color, deadColor: Color, x: int, y: int, i: nat)
    requires |data| == width * height * 4 && InBoard(width, height, x, y)
    requires i == y * width + x && i < width * height
    ensures |Encode(NextGen(Decode(data, width, height, aliveColor)), aliveColor, deadColor)| == width * height * 4
    ensures Encode(NextGen(Decode(data, width, height, aliveColor)), aliveColor, deadColor)[i * 4..i * 4 + 4] ==
            Shade(NextGen(Decode(data, width, height, aliveColor))[y][x], aliveColor, deadColor)
  {
    var g := NextGen(Decode(data, width, height, aliveColor));
    NextGenLength(data, width, height, aliveColor, deadColor);
    EncodePixel(g, width, height, aliveColor, deadColor, x, y);
  }

  /** In an encoded board every cell is exactly the alive colour or exactly the dead colour,
      as its flag says. */
  lemma EncodePixel(g: Grid, width: nat, height: nat, aliveColor: Color, deadColor: Color, x: int, y: int)
    requires |g| == height && Rectangular(g, width)
    requires InBoard(width, height, x, y)
    ensures |Encode(g, aliveColor, deadColor)| == width * height * 4
    ensures GetPixel(Encode(g, aliveColor, deadColor), width, height, x, y) == Some(Shade(g[y][x], aliveColor, deadColor))
  {
    var e := Encode(g, aliveColor, deadColor);
    EncodeLength(g, width, aliveColor, deadColor);
    var i := y * width + x;
    EncodeAt(g, width, aliveColor, deadColor, x, y, i, 0);
    EncodeAt(g, width, aliveColor, deadColor, x, y, i, 1);
    EncodeAt(g, width, aliveColor, deadColor, x, y, i, 2);
    EncodeAt(g, width, aliveColor, deadColor, x, y, i, 3);
    assert CellBytes(e, i) == Shade(g[y][x], aliveColor, deadColor);
  }

  /** With distinct alive and dead colours, decoding an encoded grid gives the grid back. */
  lemma DecodeEncode(g: Grid, width: nat, height: nat, aliveColor: Color, deadColor: Color)
    requires |g| == height && Rectangular(g, width)
    requires aliveColor != deadColor
    ensures |Encode(g, aliveColor, deadColor)| == width * height * 4
    ensures Decode(Encode(g, aliveColor, deadColor), width, height, aliveColor) == g
  {
    EncodeLength(g, width, aliveColor, deadColor);
    var d := Decode(Encode(g, aliveColor, deadColor), width, height, aliveColor);
    forall y | 0 <= y < height ensures d[y] == g[y] {
      forall x | 0 <= x < width ensures d[y][x] == g[y][x] {
        EncodePixel(g, width, height, aliveColor, deadColor, x, y);
      }
    }
  }
}
