/** Optional values, as Rust's `Option`, and bounds-checked lookup, as `Vec::get`. */
module Options {

  datatype Option<+T> = None | Some(value: T)

  /** `s.get(i)`: the element at `i`, or `None` when `i` is negative or past the end. */
  function Get<T>(s: seq<T>, i: int): (r: Option<T>)
    ensures r.Some? <==> 0 <= i < |s|
    ensures r.Some? ==> r.value == s[i]
  {
    if 0 <= i < |s| then Some(s[i]) else None
  }
}

/**
  * The rule both variants of the simulator implement: Conway's Game of Life
  * (birth on 3, survival on 2 or 3) on a bounded grid, where a neighbour
  * that falls outside the grid is absent and never wraps around.
  */
module Life {

  /** A generation: `g[r][c]` is true when the cell in row `r`, column `c` is alive.
      Rows are allowed to differ in length; a position past a row's end is off the grid. */
  type Grid = seq<seq<bool>>

  /** The two states a cell can be in. */
  datatype State = Alive | Dead

  predicate OnGrid(g: Grid, r: int, c: int) {
    0 <= r < |g| && 0 <= c < |g[r]|
  }

  /** Every row has `w` cells. */
  predicate Rectangular(g: Grid, w: nat) {
    forall r :: 0 <= r < |g| ==> |g[r]| == w
  }

  /** 1 when position `(r, c)` is on the grid and alive, 0 otherwise (off the grid counts as dead). */
  function Occupied(g: Grid, r: int, c: int): nat {
    if OnGrid(g, r, c) && g[r][c] then 1 else 0
  }

  /** The number of alive cells among the eight that surround `(r, c)`; the cell itself is not among them. */
  function Neighbours(g: Grid, r: int, c: int): (n: nat)
    ensures n <= 8
  {
    Occupied(g, r - 1, c - 1) + Occupied(g, r - 1, c) + Occupied(g, r - 1, c + 1) +
    Occupied(g, r, c - 1) + Occupied(g, r, c + 1) +
    Occupied(g, r + 1, c - 1) + Occupied(g, r + 1, c) + Occupied(g, r + 1, c + 1)
  }

  /** B3/S23: alive next exactly when there are 3 neighbours, or 2 and the cell is alive now. */
  predicate Rule(alive: bool, n: nat) {
    n == 3 || (alive && n == 2)
  }

  /** The next generation: every cell is decided from the current generation only. */
  function NextGen(g: Grid): (h: Grid)
    ensures |h| == |g|
    ensures forall r :: 0 <= r < |g| ==> |h[r]| == |g[r]|
  {
    seq(|g|, r requires 0 <= r < |g| =>
      seq(|g[r]|, c requires 0 <= c < |g[r]| => Rule(g[r][c], Neighbours(g, r, c))))
  }

  lemma NextGenAt(g: Grid, r: int, c: int)
    requires OnGrid(g, r, c)
    ensures NextGen(g)[r][c] == Rule(g[r][c], Neighbours(g, r, c))
  {
  }

  /** An alive cell survives iff it has 2 or 3 neighbours; a dead cell is born iff it has exactly 3. */
  lemma NextGenCell(g: Grid, r: int, c: int)
    requires OnGrid(g, r, c)
    ensures g[r][c] ==> (NextGen(g)[r][c] <==> Neighbours(g, r, c) == 2 || Neighbours(g, r, c) == 3)
    ensures g[r][c] ==> (Neighbours(g, r, c) < 2 || Neighbours(g, r, c) > 3 ==> !NextGen(g)[r][c])
    ensures !g[r][c] ==> (NextGen(g)[r][c] <==> Neighbours(g, r, c) == 3)
  {
  }

  /** The count never looks at the centre: changing the cell itself leaves its count alone. */
  lemma NeighboursIgnoreCentre(g: Grid, r: int, c: int, b: bool)
    requires OnGrid(g, r, c)
    ensures Neighbours(g[r := g[r][c := b]], r, c) == Neighbours(g, r, c)
  {
    var g' := g[r := g[r][c := b]];
    forall dr, dc | -1 <= dr <= 1 && -1 <= dc <= 1 && (dr, dc) != (0, 0)
      ensures Occupied(g', r + dr, c + dc) == Occupied(g, r + dr, c + dc)
    {
    }
  }

  /** Off-grid positions are never counted, so a corner cell sees at most three neighbours. */
  lemma CornerNeighbours(g: Grid, w: nat)
    requires |g| > 0 && w > 0 && Rectangular(g, w)
    ensures Neighbours(g, 0, 0) <= 3
    ensures Neighbours(g, 0, w - 1) <= 3
    ensures Neighbours(g, |g| - 1, 0) <= 3
    ensures Neighbours(g, |g| - 1, w - 1) <= 3
  {
  }

  /** A 3x3 board holding a vertical bar of three cells. */
  const BlinkerV: Grid := [
    [false, true,  false],
    [false, true,  false],
    [false, true,  false]]

  /** The same board with the bar turned horizontal. */
  const BlinkerH: Grid := [
    [false, false, false],
    [true,  true,  true],
    [false, false, false]]

  /** The blinker oscillates with period 2. */
  lemma BlinkerPeriodTwo()
    ensures NextGen(BlinkerV) == BlinkerH
    ensures NextGen(BlinkerH) == BlinkerV
    ensures NextGen(NextGen(BlinkerV)) == BlinkerV
  {
    var n := NextGen(BlinkerV);
    VerticalStep();
    assert forall r | 0 <= r < 3 :: n[r] == BlinkerH[r];
    var m := NextGen(BlinkerH);
    HorizontalStep();
    assert forall r | 0 <= r < 3 :: m[r] == BlinkerV[r];
  }

  lemma VerticalStep()
    ensures forall r, c :: 0 <= r < 3 && 0 <= c < 3 ==> NextGen(BlinkerV)[r][c] == BlinkerH[r][c]
  {
    NextGenAt(BlinkerV, 0, 0); NextGenAt(BlinkerV, 0, 1); NextGenAt(BlinkerV, 0, 2);
    NextGenAt(BlinkerV, 1, 0); NextGenAt(BlinkerV, 1, 1); NextGenAt(BlinkerV, 1, 2);
    NextGenAt(BlinkerV, 2, 0); NextGenAt(BlinkerV, 2, 1); NextGenAt(BlinkerV, 2, 2);
  }

  lemma HorizontalStep()
    ensures forall r, c :: 0 <= r < 3 && 0 <= c < 3 ==> NextGen(BlinkerH)[r][c] == BlinkerV[r][c]
  {
    NextGenAt(BlinkerH, 0, 0); NextGenAt(BlinkerH, 0, 1); NextGenAt(BlinkerH, 0, 2);
    NextGenAt(BlinkerH, 1, 0); NextGenAt(BlinkerH, 1, 1); NextGenAt(BlinkerH, 1, 2);
    NextGenAt(BlinkerH, 2, 0); NextGenAt(BlinkerH, 2, 1); NextGenAt(BlinkerH, 2, 2);
  }
}
