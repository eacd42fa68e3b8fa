# Game of Life, two ways

This project models the simulation core of a Rust/Bevy Game of Life, which exists in two
variants, and proves that both compute one generation step exactly as the same pure
specification does.

- **`life.dfy`** holds that specification.
  - `Life.NextGen` is Conway's rule B3/S23 on a bounded grid.
  - A neighbour that falls off the grid is absent; there is no wraparound.
  - The module also states the rule's case analysis, that the count skips the centre, the
    corner bound and the period-2 blinker.
  - `Options` holds `Option` and `Vec::get`-style bounds-checked lookup.
- **`pixels.dfy`** holds the pure parts of the pixel-buffer variant (`src/game_of_life.rs`).
  - The board is a flat RGBA byte buffer of `width * height * 4` bytes, and cell `(x, y)` is
    the four bytes at offset `(y * width + x) * 4`.
  - `GetPixel`/`CellOffset` model `get_pixel`/`get_pixel_mut`.
  - `ColorState` models `State::cell_state`.
  - `CountNeighbours` and `CellState` model `cell_state`.
  - `Decode` and `Encode` read the buffer as a grid and write a grid as a buffer.
- **`board.dfy`** holds the systems that change that buffer in place, in class `Board`.
  - `process_cells` is modelled with its `next_state` double buffer. The board afterwards
    holds `Encode(NextGen(Decode(old board)))`.
  - `seed` only ever writes the alive colour.
  - The brush of `handle_events` paints exactly the disc around the cursor cell. The brush
    radius is stepped by J and K and stays within 1..255.
- **`entities.dfy`** holds the entity-grid variant (`src/main.rs`).
  - Every cell is an ECS entity with a `Cell` component, and the `EntityMap` resource lists
    the entities row by row.
  - `IsCellAlive` models `is_cell_alive`.
  - `World.ProcessCells` models the two-pass `process_cells`. The world afterwards holds
    `NextGen` of the world before.
  - `World.Seed` and `World.Setup` model `seed` and the grid part of `setup`.

How the model maps the source:
- In the pixel variant a grid is read row `y`, column `x`.
- In the entity variant, row `r` of the grid is `EntityMap.v[r]`.
- The ECS world is a map from entity ids to `Cell` values. `World.Valid` requires every slot
  of the entity map to hold an entity whose `Cell` position is that slot, and every `Cell`
  to sit at its position. The source's `setup` establishes exactly this, and it is why no
  entity appears in two slots.

## Model

| member | source | states |
|---|---|---|
| Options.Get | src/main.rs:108-109 | `v.get(i)` is `Some(v[i])` exactly when `0 <= i < len`, so row `-1` (cast to a huge `usize`) and row `len` are absent |
| Life.Neighbours | src/game_of_life.rs:302-321 | the neighbour count of any cell lies in 0..8 |
| Life.NextGenAt | src/game_of_life.rs:323-343 | each cell of the next generation is the rule applied to the cell and its neighbour count in the current generation only |
| Life.NextGenCell | src/main.rs:80-97 | an alive cell lives on iff it has 2 or 3 neighbours and dies with fewer than 2 or more than 3; a dead cell is born iff it has exactly 3 |
| Life.NeighboursIgnoreCentre | src/game_of_life.rs:308-311 | the count skips offset (0, 0): changing the cell itself never changes its own count |
| Life.CornerNeighbours | src/game_of_life.rs:302-321 | off-grid offsets add nothing, so each of the four corner cells has at most 3 neighbours |
| Life.BlinkerPeriodTwo | src/game_of_life.rs:323-343 | under the rule a bar of three turns horizontal and back: the blinker has period 2 |
| PixelBoard.CellIndexBound | src/game_of_life.rs:381 | an on-board cell's index `y * width + x` is below `width * height` |
| PixelBoard.CellIndexInjective | src/game_of_life.rs:381 | distinct on-board cells have distinct indices |
| PixelBoard.SplitIndex | src/game_of_life.rs:197-202 | for every cell index `i` of the loop, `y = i / width` and `x = i - y * width` are on the board |
| PixelBoard.CellCount | src/game_of_life.rs:197 | a buffer of `width * height * 4` bytes holds `len / 4 = width * height` cells |
| PixelBoard.CellOffset | src/game_of_life.rs:390-405 | `None` exactly when `x >= width`, `x < 0`, `y >= height` or `y < 0`; otherwise offset `(y * width + x) * 4`, whose four bytes lie inside the buffer |
| PixelBoard.GetPixel | src/game_of_life.rs:374-389 | `None` exactly off the board; on the board, the four bytes of cell `y * width + x` |
| PixelBoard.CellOffsetsDisjoint | src/game_of_life.rs:390-405 | two different on-board cells never share a byte |
| PixelBoard.SamePixelsSameBuffer | src/game_of_life.rs:374-389 | every byte belongs to some cell, so two buffers with the same pixels are equal |
| PixelBoard.FilledPixels | src/game_of_life.rs:143-152 | a buffer filled with a colour holds that colour in every cell |
| PixelBoard.WrittenPixel | src/game_of_life.rs:279-286 | writing a colour over the four bytes of an on-board cell repaints that cell and no other |
| PixelBoard.DiscMembers | src/game_of_life.rs:271-277 | the brush disc holds exactly the cells whose offsets satisfy `dx² + dy² <= size²` |
| PixelBoard.BrushBounds | src/game_of_life.rs:271-272 | every offset that passes the brush test lies within `[-size, size]²`, the square the loops scan |
| PixelBoard.ColorState | src/game_of_life.rs:408-419 | a colour is alive iff all four bytes equal the alive colour; every other colour, garbage included, is dead |
| PixelBoard.DecodeOccupied | src/game_of_life.rs:311-319 | a neighbour lookup counts 1 exactly when the cell is on the board and alive, and counts 0 off the board |
| PixelBoard.CountAliveIsNeighbours | src/game_of_life.rs:302-321 | the two nested offset loops, with the centre skipped, add up to the cell's neighbour count in the decoded board |
| PixelBoard.CountNeighbours | src/game_of_life.rs:302-321 | the counting loops return the cell's number of alive neighbours in the decoded board |
| PixelBoard.CellState | src/game_of_life.rs:299-344 | the returned state is alive iff the rule holds for the cell's colour and count, which is iff the cell is alive in `NextGen` of the decoded board |
| PixelBoard.EncodeRowAt | src/game_of_life.rs:205-218 | byte `x * 4 + k` of an encoded row is byte `k` of cell `x`'s colour |
| PixelBoard.EncodeLength | src/game_of_life.rs:220 | the encoding of a grid of `height` rows of `width` cells is `height * width * 4` bytes long |
| PixelBoard.EncodeAt | src/game_of_life.rs:198-218 | byte `(y * width + x) * 4 + k` of an encoded grid is byte `k` of the alive or the dead colour, as cell `(x, y)` is alive or dead |
| PixelBoard.NextGenLength | src/game_of_life.rs:193-220 | the encoded next generation has the buffer's length, so the step never resizes the board |
| PixelBoard.NextGenBytes | src/game_of_life.rs:198-218 | the four bytes of cell `i` in the encoded next generation are the colour of that cell's next state |
| PixelBoard.EncodePixel | src/game_of_life.rs:205-218 | after a step every cell is exactly the alive colour or exactly the dead colour, as its next state says |
| PixelBoard.DecodeEncode | src/game_of_life.rs:205-220 | with distinct alive and dead colours, decoding the stepped buffer gives back the next generation |
| GameOfLife.WriteColor | src/game_of_life.rs:205-216 | four writes set bytes `c .. c + 3` to the colour and leave every other byte alone |
| GameOfLife.Board.Setup | src/game_of_life.rs:134-160 | a `width` x `height` image whose every cell is the dead colour |
| GameOfLife.Board.PutPixel | src/game_of_life.rs:390-405 | reports whether `(x, y)` is on the board; sets exactly that cell to the colour if so and changes nothing otherwise |
| GameOfLife.Board.ProcessCells | src/game_of_life.rs:183-222 | the buffer length is kept, and the new buffer is the next generation of the old buffer, encoded |
| GameOfLife.Board.ComputeNext | src/game_of_life.rs:197-218 | after the loop `next_state` holds the encoded next generation of the frozen image |
| GameOfLife.Board.ProcessCell | src/game_of_life.rs:198-217 | one loop step writes cell `i`'s bytes of the encoded next generation into `next_state` and no other byte |
| GameOfLife.Board.Seed | src/game_of_life.rs:347-367 | each cell keeps its colour or becomes the alive colour, so no alive cell becomes dead |
| GameOfLife.Board.Paint | src/game_of_life.rs:271-289 | exactly the on-board cells of the disc around `(posx, posy)` are set to the colour; every other cell keeps its colour |
| GameOfLife.Board.PaintColumn | src/game_of_life.rs:272-288 | one column of the brush square paints exactly that column's share of the disc |
| GameOfLife.StrokeComplete | src/game_of_life.rs:271-272 | once the x offsets have run from `-size` to `size`, the cells painted are the whole disc |
| GameOfLife.ColumnComplete | src/game_of_life.rs:272 | once the y offsets have run from `-size` to `size`, the column's whole share of the disc is painted |
| GameOfLife.Brush.constructor | src/game_of_life.rs:159 | the brush starts with radius 1 |
| GameOfLife.Brush.Shrink | src/game_of_life.rs:243-247 | J decreases the radius by one, but never below 1 |
| GameOfLife.Brush.Grow | src/game_of_life.rs:249-253 | K increases the radius by one, but never above 255 |
| GameOfLife.BrushStep | src/game_of_life.rs:243-253 | with J and K in either combination the radius stays within 1..255 and moves by at most one step per key |
| GameOfLife.HandleEvents | src/game_of_life.rs:224-292 | the brush radius follows the keys, and a click repaints exactly the disc of the new radius in the alive colour |
| EntityLife.CountAlive | src/main.rs:68-78 | the count of alive neighbours never exceeds the number of neighbours |
| EntityLife.IsCellAlive | src/main.rs:65-99 | the loop counts only entries that are present and alive, and the result is the rule applied to the cell's state and that count |
| EntityLife.RowLookup | src/main.rs:111-134 | a neighbour is present exactly when its row exists, the column is inside that row and the entity has a `Cell` |
| EntityLife.LookupOccupied | src/main.rs:111-134 | a lookup adds to the count exactly as the grid slot it reads: alive and on the grid |
| EntityLife.NeighbourhoodCount | src/main.rs:107-144 | the eight neighbours gathered in the source's order count exactly as the slot's neighbours in the world's generation, rows and columns past either end being absent |
| EntityLife.GridOfStates | src/main.rs:146-152 | writing `next_state` never changes the generation that later lookups read |
| EntityLife.SpawnConsistent | src/main.rs:217-252 | spawning a fresh entity at the end of the current row, with its position set to that slot, keeps map and components consistent |
| EntityLife.GridOfDecided | src/main.rs:156-159 | when every cell has committed the state decided for its slot, the world holds that generation |
| EntityLife.World.Setup | src/main.rs:217-252 | `rows` rows of `columns` entities each, every cell dead with no next state, at its own slot |
| EntityLife.World.DecideCell | src/main.rs:105-152 | only the slot's own cell changes, and only its `next_state`, which becomes what the rule decides for the slot |
| EntityLife.World.DecideRow | src/main.rs:104-153 | after a row, every cell in that row and the rows above has its next state decided; no state and no position changes |
| EntityLife.World.DecideNextStates | src/main.rs:102-154 | the first pass leaves every state alone and gives every cell the next state `NextGen` decides for its slot |
| EntityLife.World.CommitNextStates | src/main.rs:156-159 | the second pass sets every cell's state to its next state and changes nothing else |
| EntityLife.World.ProcessCells | src/main.rs:101-160 | the world holds the next generation of the world before. Every next state is present and equals the state, and the entity map, the set of cells and their positions are unchanged |
| EntityLife.World.Seed | src/main.rs:163-171 | each cell stays as it was or becomes alive, so no alive cell becomes dead, and nothing else changes |

## Left out

- Bevy plumbing is not modelled because it has no logic of its own. This covers:
  - app and plugin construction, the camera, sprites, meshes and materials;
  - `update_colors`;
  - window resizing, the Esc exit and the wasm entry point.
- The UI file (`src/ui.rs`) and the empty plugin module are not modelled, for the same reason.
- `should_next_tick` is not modelled because it is a floating-point timer. Each call of a `ProcessCells` is one tick that happens.
- The cursor-to-cell mapping of `handle_events` (`round(pos / win_width * rows)`) is floating point. `HandleEvents` takes the resulting cell `(posx, posy)` as an input, or `None` when the button is not pressed.
- In the two `setup`s, the board size derived from the window size, the window offsets and the sprite positions are floating point. The sizes are parameters of `Board.Setup` and `World.Setup`.
- Seed patterns, colour and seed change requests and cell-size rebuilds are not modelled: no code implements them.
- Randomness is modelled as a nondeterministic per-cell coin (`:|`) in both `seed`s, so only "cells only ever become alive" is proved.
- The iteration order of ECS queries is modelled as an arbitrary choice of the next entity.
- PixelBoard.SplitIndex: `process_cells` derives `y` with an `f32` division and floor. The model uses exact integer division. The two agree while the cell index fits the float's 24-bit mantissa; larger boards are not modelled.
- PixelBoard.InBrush: the brush test `sqrt(dx² + dy²) <= size` in `f32` is modelled as `dx² + dy² <= size²`. For radii up to 255 the two agree, because a correctly rounded square root of `size² + 1` or more stays above `size`.
- PixelBoard.GetPixel: the `i32` and `usize` arithmetic of the offsets is unbounded here. Overflow for images too large for `i32` offsets is not modelled.
- PixelBoard.CellState: requires the cell to be on the board, because the source unwraps `get_pixel(x, y)` and would panic otherwise. `process_cells` only asks for on-board cells.
- GameOfLife.Board.ProcessCells: requires the buffer to have `width * height * 4` bytes, where `width` is the `rows` value that `process_cells` divides by. `setup` creates the image that way.
- EntityLife.Cell: `position` is an `f32` `Vec2` in the source and a pair of integers here. It holds the slot `(i, j)` exactly, and the simulation never reads it.
- EntityLife.World.Valid: the source never checks that the entity map and the `Cell` components agree. The model requires it and proves that `setup`, `process_cells` and `seed` keep it. In the source, the `unwrap`s on the cell's own lookup and on `next_state` depend on it.
