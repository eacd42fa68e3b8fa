/**
  * The systems of the pixel-buffer simulator (src/game_of_life.rs) that change
  * the board in place: `setup`'s board allocation, `process_cells`, `seed` and
  * the brush handling of `handle_events`.
  */
module GameOfLife {
  import opened Options
  import opened Life
  import opened PixelBoard

  /** Four consecutive writes into an RGBA buffer: bytes `c` to `c + 3` of `a` become
      `color`; no other byte changes. */
  method WriteColor(a: array<byte>, c: nat, color: Color)
    requires c + 4 <= a.Length
    modifies a
    ensures a[c..c + 4] == color
    ensures forall j :: 0 <= j < a.Length && !(c <= j < c + 4) ==> a[j] == old(a[j])
  {
    a[c] := color[0];
    a[c + 1] := color[1];
    a[c + 2] := color[2];
    a[c + 3] := color[3];
  }

  /** The board image: its size, its RGBA buffer, and the `next_state` buffer that
      `process_cells` keeps from one tick to the next. */
  class Board {
    const width: nat
    const height: nat
    var data: array<byte>
    var next: array<byte>

    ghost predicate Valid()
      reads this
    {
      data.Length == width * height * 4 && data != next
    }

    /** `setup`: a `width` x `height` image filled with the dead colour; `next_state`
        starts empty. */
    constructor Setup(width: nat, height: nat, settings: Settings)
      ensures Valid() && this.width == width && this.height == height
      ensures fresh(data) && fresh(next)
      ensures forall x, y :: InBoard(width, height, x, y) ==>
        GetPixel(data[..], width, height, x, y) == Some(settings.deadColor)
    {
      this.width := width;
      this.height := height;
      var dead := settings.deadColor;
      data := new byte[width * height * 4](j => dead[j % 4]);
      next := new byte[0];
      new;
      FilledPixels(data[..], width, height, dead);
    }

    /** `get_pixel_mut` followed by the four writes: sets on-board cell `(x, y)` to `color`
        and reports whether the cell was on the board; every other cell keeps its colour. */
    method PutPixel(x: int, y: int, color: Color) returns (found: bool)
      requires Valid()
      modifies data
      ensures found <==> InBoard(width, height, x, y)
      ensures Repainted(old(data[..]), data[..], width, height, if found then {(x, y)} else {}, color)
    {
      match CellOffset(width, height, x, y) {
        case None =>
          found := false;
          RepaintedNothing(data[..], width, height, color);
        case Some(p) =>
          ghost var before := data[..];
          WriteColor(data, p, color);
          found := true;
          WrittenPixel(before, data[..], width, height, x, y, color);
      }
    }

    /** `process_cells`: computes every cell of the next generation from the current buffer
        into `next_state`, then replaces the board's buffer with a copy of it. The new buffer
        is the next generation of the old one, each cell in the alive or the dead colour
        (`EncodePixel` and `DecodeEncode` say what that buffer holds). */
    method ProcessCells(settings: Settings)
      requires Valid()
      modifies this, next
      ensures Valid() && fresh(data)
      ensures data[..] == Encode(NextGen(Decode(old(data[..]), width, height, settings.aliveColor)),
                                 settings.aliveColor, settings.deadColor)
    {
      var image := data[..];
      if next.Length != data.Length {
        next := new byte[data.Length](j requires 0 <= j < data.Length reads this, data => data[j]);
      }
      ComputeNext(image, settings);
      data := new byte[next.Length](j requires 0 <= j < next.Length reads this, next => next[j]);
      assert data[..] == next[..];
    }

    /** The loop of `process_cells`: every cell of `image`, in index order, is decided and its
        colour written into `next_state`, which then holds the encoded next generation. */
    method ComputeNext(image: seq<byte>, settings: Settings)
      requires |image| == width * height * 4 && next.Length == |image|
      modifies next
      ensures next[..] == Encode(NextGen(Decode(image, width, height, settings.aliveColor)), settings.aliveColor, settings.deadColor)
    {
      ghost var e := Encode(NextGen(Decode(image, width, height, settings.aliveColor)), settings.aliveColor, settings.deadColor);
      NextGenLength(image, width, height, settings.aliveColor, settings.deadColor);
      CellCount(width, height, |image|);
      var cells := |image| / 4;
      for i := 0 to cells
        invariant forall j :: 0 <= j < i * 4 ==> next[j] == e[j]
      {
        ProcessCell(image, i, settings);
        PrefixGrows(next[..], e, i * 4);
      }
      assert next[..] == e;
    }

    /** The body of the `process_cells` loop for cell `i` of `image`: finds its coordinates
        `y = i / width` and `x = i - y * width`, decides it with `cell_state` and writes the
        alive or the dead colour into bytes `i * 4` to `i * 4 + 3` of `next_state`. Those bytes
        then hold the cell's bytes in the encoded next generation; no other byte changes. */
    method ProcessCell(image: seq<byte>, i: nat, settings: Settings)
      requires |image| == width * height * 4 && i < width * height
      requires next.Length == |image|
      modifies next
      ensures |Encode(NextGen(Decode(image, width, height, settings.aliveColor)), settings.aliveColor, settings.deadColor)|
              == next.Length
      ensures next[i * 4..i * 4 + 4] ==
        Encode(NextGen(Decode(image, width, height, settings.aliveColor)), settings.aliveColor, settings.deadColor)
          [i * 4..i * 4 + 4]
      ensures forall j :: 0 <= j < next.Length && !(i * 4 <= j < i * 4 + 4) ==> next[j] == old(next[j])
    {
      var c := i * 4;
      SplitIndex(width, height, i);
      var y := i / width;
      var x := i - y * width;
      var state := CellState(image, width, height, x, y, settings);
      assert
        var next' := Encode(NextGen(Decode(image, width, height, settings.aliveColor)), settings.aliveColor, settings.deadColor);
        |next'| == next.Length && next'[c..c + 4] == Shade(state == Alive, settings.aliveColor, settings.deadColor)
      by {
        NextGenBytes(image, width, height, settings.aliveColor, settings.deadColor, x, y, i);
      }
      match state {
        case Alive =>
          WriteColor(next, c, settings.aliveColor);
        case Dead =>
          WriteColor(next, c, settings.deadColor);
      }
    }

    /** `seed`: each cell, on its own coin flip, is set to the alive colour or left as it is;
        no cell that was alive becomes dead. */
    method Seed(settings: Settings)
      requires Valid()
      modifies data
      ensures forall x, y :: InBoard(width, height, x, y) ==>
        GetPixel(data[..], width, height, x, y) == GetPixel(old(data[..]), width, height, x, y) ||
        GetPixel(data[..], width, height, x, y) == Some(settings.aliveColor)
      ensures forall x, y :: InBoard(width, height, x, y) ==>
        (Decode(old(data[..]), width, height, settings.aliveColor)[y][x] ==>
         Decode(data[..], width, height, settings.aliveColor)[y][x])
    {
      CellCount(width, height, data.Length);
      var cells := data.Length / 4;
      for i := 0 to cells
        invariant forall c :: 0 <= c < i ==>
          CellBytes(data[..], c) == CellBytes(old(data[..]), c) || CellBytes(data[..], c) == settings.aliveColor
        invariant forall j :: i * 4 <= j < data.Length ==> data[j] == old(data[j])
      {
        var heads: bool :| true;  // the coin flip `rand >= 0.5`
        if heads {
          ghost var before := data[..];
          WriteColor(data, i * 4, settings.aliveColor);
          forall c | 0 <= c < i ensures CellBytes(data[..], c) == CellBytes(before, c) {
          }
        }
      }
      forall x, y | InBoard(width, height, x, y)
        ensures GetPixel(data[..], width, height, x, y) == GetPixel(old(data[..]), width, height, x, y) ||
                GetPixel(data[..], width, height, x, y) == Some(settings.aliveColor)
      {
        CellIndexBound(width, height, x, y);
      }
    }

    /** The brush stroke of `handle_events`: every on-board cell within distance `radius` of
        `(posx, posy)` is set to `color`; every other cell keeps its colour. */
    method Paint(posx: int, posy: int, radius: byte, color: Color)
      requires Valid()
      modifies data
      ensures Repainted(old(data[..]), data[..], width, height, Disc(posx, posy, radius as int), color)
    {
      var size := radius as int;
      // The cells painted so far.
      ghost var stamped: set<(int, int)> := {};
      RepaintedNothing(data[..], width, height, color);
      var dx := -size;
      while dx <= size
        invariant -size <= dx <= size + 1
        invariant forall x, y :: (x, y) in stamped <==> InBrush(x - posx, y - posy, size) && -size <= x - posx < dx
        invariant Repainted(old(data[..]), data[..], width, height, stamped, color)
      {
        ghost var before := data[..];
        var column := PaintColumn(posx, posy, size, dx, color, stamped);
        RepaintedTwice(old(data[..]), before, data[..], width, height, stamped, column, color);
        stamped := stamped + column;
        dx := dx + 1;
      }
      StrokeComplete(posx, posy, size, dx, stamped);
    }

    /** The inner brush loop: for offset `dx`, paints every cell `(posx + dx, posy + dy)` with
        `dy` in `[-size, size]` that lies in the disc, and returns the set of those cells. */
    method PaintColumn(posx: int, posy: int, size: int, dx: int, color: Color, ghost stamped: set<(int, int)>)
      returns (ghost column: set<(int, int)>)
      requires Valid() && size >= 0
      modifies data
      ensures forall x, y :: (x, y) in column <==> x - posx == dx && InBrush(x - posx, y - posy, size)
      ensures Repainted(old(data[..]), data[..], width, height, column, color)
    {
      column := {};
      RepaintedNothing(data[..], width, height, color);
      var dy := -size;
      while dy <= size
        invariant -size <= dy <= size + 1
        invariant forall x, y :: (x, y) in column <==> x - posx == dx && InBrush(x - posx, y - posy, size) && -size <= y - posy < dy
        invariant Repainted(old(data[..]), data[..], width, height, column, color)
      {
        var x := posx + dx;
        var y := posy + dy;
        if InBrush(x - posx, y - posy, size) {
          ghost var before := data[..];
          var found := PutPixel(x, y, color);
          RepaintedTwice(old(data[..]), before, data[..], width, height, column, if found then {(x, y)} else {}, color);
          RepaintedOffBoard(old(data[..]), data[..], width, height, column, x, y, found, color);
          column := column + {(x, y)};
        }
        dy := dy + 1;
      }
      ColumnComplete(posx, posy, size, dx, dy, column);
    }
  }

  /** Once the x offsets have run past `size`, the cells painted are the whole disc. */
  lemma StrokeComplete(posx: int, posy: int, size: int, dx: int, stamped: set<(int, int)>)
    requires size >= 0 && dx > size
    requires forall x, y :: (x, y) in stamped <==> InBrush(x - posx, y - posy, size) && -size <= x - posx < dx
    ensures stamped == Disc(posx, posy, size)
  {
    DiscMembers(posx, posy, size);
    forall p ensures p in stamped <==> p in Disc(posx, posy, size) {
      if InBrush(p.0 - posx, p.1 - posy, size) {
        BrushBounds(p.0 - posx, p.1 - posy, size);
      }
      assert p == (p.0, p.1);
    }
  }

  /** Once the y offsets have run past `size`, the cells painted in column `dx` are the
      column's whole share of the disc. */
  lemma ColumnComplete(posx: int, posy: int, size: int, dx: int, dy: int, column: set<(int, int)>)
    requires size >= 0 && dy > size
    requires forall x, y :: (x, y) in column <==> x - posx == dx && InBrush(x - posx, y - posy, size) && -size <= y - posy < dy
    ensures forall x, y :: (x, y) in column <==> x - posx == dx && InBrush(x - posx, y - posy, size)
  {
    forall x, y ensures (x, y) in column <==> x - posx == dx && InBrush(x - posx, y - posy, size) {
      if InBrush(x - posx, y - posy, size) {
        BrushBounds(x - posx, y - posy, size);
      }
    }
  }

  /** The brush resource: its radius in cells. */
  class Brush {
    var size: byte

    ghost predicate Valid()
      reads this
    {
      size >= 1
    }

    constructor ()
      ensures Valid() && size == 1
    {
      size := 1;
    }

    /** Key J: one smaller, but never below 1. */
    method Shrink()
      requires Valid()
      modifies this
      ensures Valid()
      ensures size == if old(size) > 1 then old(size) - 1 else old(size)
    {
      if size > 1 {
        size := size - 1;
      }
    }

    /** Key K: one larger, but never above 255. */
    method Grow()
      requires Valid()
      modifies this
      ensures Valid()
      ensures size == if old(size) < 255 then old(size) + 1 else old(size)
    {
      if size < 255 {
        size := size + 1;
      }
    }
  }

  /** The brush radius after a frame in which J (`shrink`) and K (`grow`) may be held:
      it stays within 1..255 and moves by at most one step per key. */
  function BrushStep(size: byte, shrink: bool, grow: bool): (r: byte)
    requires size >= 1
    ensures 1 <= r
    ensures !shrink && !grow ==> r == size
    ensures shrink && !grow ==> r == if size == 1 then 1 else size - 1
    ensures grow && !shrink ==> r == if size == 255 then 255 else size + 1
    ensures shrink && grow ==> r == if size == 1 then 2 else size
  {
    var s := if shrink && size > 1 then size - 1 else size;
    if grow && s < 255 then s + 1 else s
  }

  /** The brush part of `handle_events`: J and K step the brush radius, then, while the left
      button is held over the window (`paintAt` is the board cell under the cursor), the
      brush paints a disc of the alive colour around that cell. */
  method HandleEvents(board: Board, brush: Brush, shrink: bool, grow: bool,
                      paintAt: Option<(int, int)>, settings: Settings)
    requires board.Valid() && brush.Valid()
    modifies board.data, brush
    ensures board.Valid() && brush.Valid()
    ensures brush.size == BrushStep(old(brush.size), shrink, grow)
    ensures paintAt.None? ==> board.data[..] == old(board.data[..])
    ensures paintAt.Some? ==>
      Repainted(old(board.data[..]), board.data[..], board.width, board.height,
                Disc(paintAt.value.0, paintAt.value.1, brush.size as int), settings.aliveColor)
  {
    if shrink {
      brush.Shrink();
    }
    if grow {
      brush.Grow();
    }
    match paintAt {
      case None =>
      case Some(p) =>
        board.Paint(p.0, p.1, brush.size, settings.aliveColor);
    }
  }
}
