/**
  * The entity-grid simulator (src/main.rs): every cell is an entity carrying a `Cell`
  * component, and a resource `EntityMap` keeps the entities in a vector of rows so that a
  * cell's neighbours can be found by index. The ECS world is modelled as a map from entity
  * ids to their `Cell` components.
  */
module EntityLife {
  import opened Options
  import opened Life

  /** An entity id of the ECS world. */
  type Entity = nat

  /** The `Cell` component: the current state, the state decided for the next tick (absent
      until the first tick) and the cell's (row, column) slot in the entity map. */
  datatype Cell = Cell(state: State, nextState: Option<State>, position: (int, int))

  function ToState(alive: bool): State {
    if alive then Alive else Dead
  }

  // ---------------------------------------------------------------------
  // The rule: `is_cell_alive`
  // ---------------------------------------------------------------------

  /** What one neighbour adds to the count: 1 when it is present and alive, 0 when it is
      dead or missing. */
  function AliveCount(n: Option<Cell>): nat {
    if n.Some? && n.value.state == Alive then 1 else 0
  }

  /** The number of present, alive cells among `ns`. */
  function CountAlive(ns: seq<Option<Cell>>): (n: nat)
    ensures n <= |ns|
  {
    if ns == [] then 0 else CountAlive(ns[..|ns| - 1]) + AliveCount(ns[|ns| - 1])
  }

  lemma CountAlivePrefix(ns: seq<Option<Cell>>, k: int)
    requires 0 < k <= |ns|
    ensures CountAlive(ns[..k]) == CountAlive(ns[..k - 1]) + AliveCount(ns[k - 1])
  {
    assert ns[..k][..k - 1] == ns[..k - 1];
  }

  /** `is_cell_alive`: counts the neighbours that are present and alive, then applies the
      rule to the cell's own state. */
  method IsCellAlive(cell: Cell, neighbours: seq<Option<Cell>>) returns (alive: bool)
    requires |neighbours| == 8
    ensures alive <==> Rule(cell.state == Alive, CountAlive(neighbours))
  {
    var neighboursAlive := 0;
    for k := 0 to |neighbours|
      invariant neighboursAlive == CountAlive(neighbours[..k])
    {
      CountAlivePrefix(neighbours, k + 1);
      match neighbours[k] {
        case Some(neighbourCell) =>
          match neighbourCell.state {
            case Alive => neighboursAlive := neighboursAlive + 1;
            case Dead =>
          }
        case None =>
      }
    }
    assert neighbours[..|neighbours|] == neighbours;
    match cell.state {
      case Alive =>
        if neighboursAlive < 2 {
          return false;
        }
        if neighboursAlive == 2 || neighboursAlive == 3 {
          return true;
        } else {
          return false;
        }
      case Dead =>
        if neighboursAlive == 3 {
          return true;
        } else {
          return false;
        }
    }
  }

  // ---------------------------------------------------------------------
  // The entity map and its neighbours
  // ---------------------------------------------------------------------

  /** `row.and_then(|f| f.get(c).and_then(|f| cells.get(f).ok()))`: the `Cell` of the entity
      in column `c` of a row that may be missing. A negative column is past the end, as
      `(c as i32 - 1) as usize` wraps around to a huge index. */
  function RowLookup(row: Option<seq<Entity>>, cells: map<Entity, Cell>, c: int): (n: Option<Cell>)
    ensures n.Some? <==> row.Some? && 0 <= c < |row.value| && row.value[c] in cells
    ensures n.Some? ==> n.value == cells[row.value[c]]
  {
    match row
    case None => None
    case Some(r) =>
      match Get(r, c)
      case None => None
      case Some(e) => if e in cells then Some(cells[e]) else None
  }

  /** The eight neighbours of slot `(r, c)` in the order `process_cells` passes them:
      the row above, the two sides, the row below, each left to right. */
  function Neighbourhood(m: seq<seq<Entity>>, cells: map<Entity, Cell>, r: int, c: int): (ns: seq<Option<Cell>>)
    ensures |ns| == 8
  {
    var prevRow := Get(m, r - 1);
    var row := Get(m, r);
    var nextRow := Get(m, r + 1);
    [RowLookup(prevRow, cells, c - 1), RowLookup(prevRow, cells, c), RowLookup(prevRow, cells, c + 1),
     RowLookup(row, cells, c - 1), RowLookup(row, cells, c + 1),
     RowLookup(nextRow, cells, c - 1), RowLookup(nextRow, cells, c), RowLookup(nextRow, cells, c + 1)]
  }

  /** The generation the world holds: slot `(r, c)` is alive when its entity has a `Cell`
      whose state is alive. */
  function GridOf(m: seq<seq<Entity>>, cells: map<Entity, Cell>): (g: Grid)
    ensures |g| == |m|
    ensures forall r :: 0 <= r < |m| ==> |g[r]| == |m[r]|
  {
    seq(|m|, r requires 0 <= r < |m| =>
      seq(|m[r]|, c requires 0 <= c < |m[r]| => m[r][c] in cells && cells[m[r][c]].state == Alive))
  }

  /** A lookup counts exactly as the slot it reads: off the map, or an entity without a
      `Cell`, is a dead slot. */
  lemma LookupOccupied(m: seq<seq<Entity>>, cells: map<Entity, Cell>, r: int, c: int)
    ensures AliveCount(RowLookup(Get(m, r), cells, c)) == Occupied(GridOf(m, cells), r, c)
  {
  }

  /** Eight neighbours count as the sum of what each adds. */
  lemma CountAliveEight(ns: seq<Option<Cell>>)
    requires |ns| == 8
    ensures CountAlive(ns) ==
      AliveCount(ns[0]) + AliveCount(ns[1]) + AliveCount(ns[2]) + AliveCount(ns[3]) +
      AliveCount(ns[4]) + AliveCount(ns[5]) + AliveCount(ns[6]) + AliveCount(ns[7])
  {
    CountAlivePrefix(ns, 1);
    CountAlivePrefix(ns, 2);
    CountAlivePrefix(ns, 3);
    CountAlivePrefix(ns, 4);
    CountAlivePrefix(ns, 5);
    CountAlivePrefix(ns, 6);
    CountAlivePrefix(ns, 7);
    CountAlivePrefix(ns, 8);
    assert ns[..8] == ns;
  }

  /** The neighbours `process_cells` gathers count exactly as the neighbours of the slot in
      the world's generation: rows and columns past either end are absent, never wrapped. */
  lemma NeighbourhoodCount(m: seq<seq<Entity>>, cells: map<Entity, Cell>, r: int, c: int)
    ensures CountAlive(Neighbourhood(m, cells, r, c)) == Neighbours(GridOf(m, cells), r, c)
  {
    var ns := Neighbourhood(m, cells, r, c);
    var g := GridOf(m, cells);
    CountAliveEight(ns);
    assert AliveCount(ns[0]) == Occupied(g, r - 1, c - 1) by { LookupOccupied(m, cells, r - 1, c - 1); }
    assert AliveCount(ns[1]) == Occupied(g, r - 1, c) by { LookupOccupied(m, cells, r - 1, c); }
    assert AliveCount(ns[2]) == Occupied(g, r - 1, c + 1) by { LookupOccupied(m, cells, r - 1, c + 1); }
    assert AliveCount(ns[3]) == Occupied(g, r, c - 1) by { LookupOccupied(m, cells, r, c - 1); }
    assert AliveCount(ns[4]) == Occupied(g, r, c + 1) by { LookupOccupied(m, cells, r, c + 1); }
    assert AliveCount(ns[5]) == Occupied(g, r + 1, c - 1) by { LookupOccupied(m, cells, r + 1, c - 1); }
    assert AliveCount(ns[6]) == Occupied(g, r + 1, c) by { LookupOccupied(m, cells, r + 1, c); }
    assert AliveCount(ns[7]) == Occupied(g, r + 1, c + 1) by { LookupOccupied(m, cells, r + 1, c + 1); }
  }

  /** Two worlds with the same cells in the same states hold the same generation, whatever
      their `next_state`s: writing `next_state` never changes what a neighbour count reads. */
  lemma GridOfStates(m: seq<seq<Entity>>, c1: map<Entity, Cell>, c2: map<Entity, Cell>)
    requires c1.Keys == c2.Keys
    requires forall e :: e in c1 ==> c1[e].state == c2[e].state
    ensures GridOf(m, c1) == GridOf(m, c2)
  {
    var g1, g2 := GridOf(m, c1), GridOf(m, c2);
    forall r | 0 <= r < |m| ensures g1[r] == g2[r] {
    }
  }

  // ---------------------------------------------------------------------
  // The world
  // ---------------------------------------------------------------------

  /** Entity `e` sits in slot `p` of the entity map. */
  predicate Placed(m: seq<seq<Entity>>, e: Entity, p: (int, int)) {
    0 <= p.0 < |m| && 0 <= p.1 < |m[p.0]| && m[p.0][p.1] == e
  }

  /** The entity map and the `Cell` components agree: every slot holds an entity with a
      `Cell` whose position is that slot, and every `Cell` sits in the slot its position names.
      So no entity sits in two slots. */
  ghost predicate Consistent(m: seq<seq<Entity>>, cells: map<Entity, Cell>) {
    (forall r, c :: 0 <= r < |m| && 0 <= c < |m[r]| ==> m[r][c] in cells && cells[m[r][c]].position == (r, c)) &&
    (forall e :: e in cells ==> Placed(m, e, cells[e].position))
  }

  /** Changing states and next states keeps the map and the components consistent. */
  lemma ConsistentFrame(m: seq<seq<Entity>>, c1: map<Entity, Cell>, c2: map<Entity, Cell>)
    requires Consistent(m, c1)
    requires c1.Keys == c2.Keys
    requires forall e :: e in c1 ==> c1[e].position == c2[e].position
    ensures Consistent(m, c2)
  {
  }

  /** Appending an empty row keeps the map and the components consistent. */
  lemma EmptyRowConsistent(m: seq<seq<Entity>>, cells: map<Entity, Cell>)
    requires Consistent(m, cells)
    ensures Consistent(m + [[]], cells)
  {
    forall e | e in cells ensures Placed(m + [[]], e, cells[e].position) {
      assert Placed(m, e, cells[e].position);
    }
  }

  /** Spawning a fresh entity at the end of the last row, with its position set to that
      slot, keeps the map and the components consistent. */
  lemma SpawnConsistent(m: seq<seq<Entity>>, cells: map<Entity, Cell>, id: Entity, i: nat, j: nat)
    requires Consistent(m, cells) && id !in cells
    requires |m| == i + 1 && |m[i]| == j
    ensures Consistent(m[i := m[i] + [id]], cells[id := Cell(Dead, None, (i, j))])
  {
    var m', cells' := m[i := m[i] + [id]], cells[id := Cell(Dead, None, (i, j))];
    forall e | e in cells' ensures Placed(m', e, cells'[e].position) {
      if e != id {
        assert Placed(m, e, cells[e].position);
      }
    }
  }

  /** Cell `cell` has its next state decided as generation `h` says for its slot. */
  predicate Decided(h: Grid, cell: Cell) {
    OnGrid(h, cell.position.0, cell.position.1) &&
    cell.nextState == Some(ToState(h[cell.position.0][cell.position.1]))
  }

  /** Slot `p` comes before column `c` of row `r` in row-major order. */
  predicate Before(p: (int, int), r: int, c: int) {
    p.0 < r || (p.0 == r && p.1 < c)
  }

  /** Cell `cell` holds in its state the state decided for it. */
  predicate Committed(cell: Cell) {
    Some(cell.state) == cell.nextState
  }

  /** Two component maps hold the same cells in the same states at the same positions;
      only their next states may differ. */
  ghost predicate SameCells(a: map<Entity, Cell>, b: map<Entity, Cell>) {
    a.Keys == b.Keys && forall e :: e in a ==> a[e].state == b[e].state && a[e].position == b[e].position
  }

  lemma SameCellsTrans(a: map<Entity, Cell>, b: map<Entity, Cell>, c: map<Entity, Cell>)
    requires SameCells(a, b) && SameCells(b, c)
    ensures SameCells(a, c)
  {
  }

  /** Every cell placed before column `c` of row `r` has its next state decided as `h` says. */
  ghost predicate DecidedUpTo(cells: map<Entity, Cell>, h: Grid, r: int, c: int) {
    forall e :: e in cells && Before(cells[e].position, r, c) ==> Decided(h, cells[e])
  }

  /** Deciding the cell in slot `(r, c)` extends the decided cells by that slot. */
  lemma DecidedStep(m: seq<seq<Entity>>, before: map<Entity, Cell>, after: map<Entity, Cell>, h: Grid, r: nat, c: nat)
    requires Consistent(m, before)
    requires r < |m| && c < |m[r]| && |h| == |m| && |h[r]| == |m[r]|
    requires after == before[m[r][c] := before[m[r][c]].(nextState := Some(ToState(h[r][c])))]
    requires DecidedUpTo(before, h, r, c)
    ensures SameCells(before, after)
    ensures DecidedUpTo(after, h, r, c + 1)
  {
    forall e | e in after && Before(after[e].position, r, c + 1) ensures Decided(h, after[e]) {
      if e != m[r][c] {
        assert Placed(m, e, before[e].position);
      }
    }
  }

  /** Deciding every slot of row `r` decides every cell placed in rows up to `r`. */
  lemma DecidedRow(m: seq<seq<Entity>>, cells: map<Entity, Cell>, h: Grid, r: nat)
    requires Consistent(m, cells) && r < |m|
    requires DecidedUpTo(cells, h, r, |m[r]|)
    ensures DecidedUpTo(cells, h, r + 1, 0)
  {
    forall e | e in cells && Before(cells[e].position, r + 1, 0) ensures Decided(h, cells[e]) {
      assert Placed(m, e, cells[e].position);
    }
  }

  /** Deciding every row decides every cell. */
  lemma DecidedAll(m: seq<seq<Entity>>, cells: map<Entity, Cell>, h: Grid)
    requires Consistent(m, cells)
    requires DecidedUpTo(cells, h, |m|, 0)
    ensures forall e :: e in cells ==> Decided(h, cells[e])
  {
    forall e | e in cells ensures Decided(h, cells[e]) {
      assert Placed(m, e, cells[e].position);
    }
  }

  /** A world whose every `Cell` holds, in its state, what generation `h` says for its slot
      holds generation `h`. */
  lemma GridOfDecided(m: seq<seq<Entity>>, cells: map<Entity, Cell>, h: Grid)
    requires Consistent(m, cells)
    requires |h| == |m| && forall r :: 0 <= r < |m| ==> |h[r]| == |m[r]|
    requires forall e :: e in cells ==> Decided(h, cells[e]) && Committed(cells[e])
    ensures GridOf(m, cells) == h
  {
    var g := GridOf(m, cells);
    forall r | 0 <= r < |m| ensures g[r] == h[r] {
      forall c | 0 <= c < |m[r]| ensures g[r][c] == h[r][c] {
        var e := m[r][c];
        assert cells[e].position == (r, c);
      }
    }
  }

  /** The ECS world: the `EntityMap` resource and the `Cell` components of all entities. */
  class World {
    var entityMap: seq<seq<Entity>>
    var cells: map<Entity, Cell>

    ghost predicate Valid()
      reads this
    {
      Consistent(entityMap, cells)
    }

    /** The grid part of `setup`: `rows` rows of `columns` fresh entities each, every cell
        dead, with no next state, at its own slot. */
    constructor Setup(rows: nat, columns: nat)
      ensures Valid()
      ensures |entityMap| == rows && forall r :: 0 <= r < rows ==> |entityMap[r]| == columns
      ensures forall e :: e in cells ==> cells[e].state == Dead && cells[e].nextState == None
      ensures forall r, c :: 0 <= r < rows && 0 <= c < columns ==> !GridOf(entityMap, cells)[r][c]
    {
      var m: seq<seq<Entity>> := [];
      var cs: map<Entity, Cell> := map[];
      var unused: Entity := 0;  // the next entity id `spawn` hands out
      for i := 0 to rows
        invariant |m| == i && forall r :: 0 <= r < i ==> |m[r]| == columns
        invariant Consistent(m, cs)
        invariant forall e :: e in cs ==> e < unused && cs[e].state == Dead && cs[e].nextState == None
      {
        EmptyRowConsistent(m, cs);
        m := m + [[]];
        for j := 0 to columns
          invariant |m| == i + 1 && |m[i]| == j && forall r :: 0 <= r < i ==> |m[r]| == columns
          invariant Consistent(m, cs)
          invariant forall e :: e in cs ==> e < unused && cs[e].state == Dead && cs[e].nextState == None
        {
          var id := unused;
          unused := unused + 1;
          SpawnConsistent(m, cs, id, i, j);
          cs := cs[id := Cell(Dead, None, (i, j))];
          m := m[i := m[i] + [id]];
        }
      }
      entityMap := m;
      cells := cs;
    }

    /** `process_cells`: the first pass decides every cell's next state from the neighbour
        states, writing only `next_state`; the second commits `state = next_state` for every
        cell. The world then holds the next generation, every next state is present, and the
        entity map, the set of cells and their positions are unchanged. */
    method ProcessCells()
      requires Valid()
      modifies this
      ensures Valid()
      ensures entityMap == old(entityMap) && cells.Keys == old(cells.Keys)
      ensures forall e :: e in cells ==> cells[e].position == old(cells[e].position)
      ensures forall e :: e in cells ==> cells[e].nextState == Some(cells[e].state)
      ensures GridOf(entityMap, cells) == NextGen(old(GridOf(entityMap, cells)))
    {
      ghost var start := cells;
      ghost var g := GridOf(entityMap, cells);
      ghost var h := NextGen(g);
      DecideNextStates(g, h);
      ghost var decided := cells;
      CommitNextStates();
      forall e | e in cells ensures Decided(h, cells[e]) && Committed(cells[e]) {
        assert Decided(h, decided[e]);
      }
      ConsistentFrame(entityMap, start, cells);
      GridOfDecided(entityMap, cells, h);
    }

    /** The first pass of `process_cells`, row by row and column by column: every cell gets
        as its next state what the rule decides for its slot, while every state is left as
        it was, so each decision reads generation `g` alone. */
    method DecideNextStates(ghost g: Grid, ghost h: Grid)
      requires Valid() && g == GridOf(entityMap, cells) && h == NextGen(g)
      modifies this
      ensures Valid()
      ensures entityMap == old(entityMap) && cells.Keys == old(cells.Keys)
      ensures forall e :: e in cells ==> cells[e].state == old(cells[e].state) && cells[e].position == old(cells[e].position)
      ensures forall e :: e in cells ==> Decided(h, cells[e])
    {
      ghost var start := cells;
      for rowIndex := 0 to |entityMap|
        invariant entityMap == old(entityMap) && SameCells(start, cells)
        invariant DecidedUpTo(cells, h, rowIndex, 0)
      {
        ghost var before := cells;
        assert Valid() && g == GridOf(entityMap, cells) by {
          ConsistentFrame(entityMap, start, cells);
          GridOfStates(entityMap, cells, start);
        }
        DecideRow(rowIndex, g, h);
        SameCellsTrans(start, before, cells);
      }
      ConsistentFrame(entityMap, start, cells);
      DecidedAll(entityMap, cells, h);
    }

    /** The cells of row `rowIndex`, left to right, get their next states decided. */
    method DecideRow(rowIndex: nat, ghost g: Grid, ghost h: Grid)
      requires Valid() && g == GridOf(entityMap, cells) && h == NextGen(g)
      requires rowIndex < |entityMap|
      requires DecidedUpTo(cells, h, rowIndex, 0)
      modifies this
      ensures entityMap == old(entityMap) && SameCells(old(cells), cells)
      ensures DecidedUpTo(cells, h, rowIndex + 1, 0)
    {
      ghost var start := cells;
      for colIndex := 0 to |entityMap[rowIndex]|
        invariant entityMap == old(entityMap) && SameCells(start, cells)
        invariant DecidedUpTo(cells, h, rowIndex, colIndex)
      {
        ghost var before := cells;
        assert Valid() && g == GridOf(entityMap, cells) by {
          ConsistentFrame(entityMap, start, cells);
          GridOfStates(entityMap, cells, start);
        }
        DecideCell(rowIndex, colIndex, g);
        DecidedStep(entityMap, before, cells, h, rowIndex, colIndex);
        SameCellsTrans(start, before, cells);
      }
      ConsistentFrame(entityMap, start, cells);
      DecidedRow(entityMap, cells, h, rowIndex);
    }

    /** The second pass of `process_cells`: every cell, in no particular order, takes its
        next state as its state; a cell without one would make `unwrap` panic. */
    method CommitNextStates()
      requires forall e :: e in cells ==> cells[e].nextState.Some?
      modifies this
      ensures entityMap == old(entityMap) && cells.Keys == old(cells.Keys)
      ensures forall e :: e in cells ==> cells[e] == old(cells[e]).(state := old(cells[e]).nextState.value)
    {
      var remaining := cells.Keys;
      while remaining != {}
        invariant remaining <= cells.Keys
        invariant entityMap == old(entityMap) && cells.Keys == old(cells.Keys)
        invariant forall e :: e in cells && e in remaining ==> cells[e] == old(cells[e])
        invariant forall e :: e in cells && e !in remaining ==> cells[e] == old(cells[e]).(state := old(cells[e]).nextState.value)
        decreases remaining
      {
        var e :| e in remaining;
        var cell := cells[e];
        cells := cells[e := cell.(state := cell.nextState.value)];
        remaining := remaining - {e};
      }
    }

    /** One step of the first pass of `process_cells`: gathers the eight neighbours of the
        entity in slot `(rowIndex, colIndex)`, missing ones as absent, and records in its
        `next_state` what the rule decides for that slot in generation `g`. */
    method DecideCell(rowIndex: nat, colIndex: nat, ghost g: Grid)
      requires Valid() && g == GridOf(entityMap, cells)
      requires rowIndex < |entityMap| && colIndex < |entityMap[rowIndex]|
      modifies this
      ensures entityMap == old(entityMap)
      ensures var entity := entityMap[rowIndex][colIndex];
        cells == old(cells)[entity := old(cells[entity]).(nextState := Some(ToState(NextGen(g)[rowIndex][colIndex])))]
    {
      var row := entityMap[rowIndex];
      var entity := row[colIndex];
      var prevRow := Get(entityMap, rowIndex - 1);
      var nextRow := Get(entityMap, rowIndex + 1);
      var neighbours0 := RowLookup(prevRow, cells, colIndex - 1);
      var neighbours1 := RowLookup(prevRow, cells, colIndex);
      var neighbours2 := RowLookup(prevRow, cells, colIndex + 1);
      var neighbours3 := RowLookup(Some(row), cells, colIndex - 1);
      var neighbours5 := RowLookup(Some(row), cells, colIndex + 1);
      var neighbours6 := RowLookup(nextRow, cells, colIndex - 1);
      var neighbours7 := RowLookup(nextRow, cells, colIndex);
      var neighbours8 := RowLookup(nextRow, cells, colIndex + 1);
      var cell := cells[entity];
      var isAlive := IsCellAlive(cell, [neighbours0, neighbours1, neighbours2, neighbours3,
                                        neighbours5, neighbours6, neighbours7, neighbours8]);
      assert isAlive == NextGen(g)[rowIndex][colIndex] by {
        assert Get(entityMap, rowIndex) == Some(row);
        NeighbourhoodCount(entityMap, cells, rowIndex, colIndex);
        NextGenAt(g, rowIndex, colIndex);
      }
      if isAlive {
        cells := cells[entity := cell.(nextState := Some(Alive))];
      } else {
        cells := cells[entity := cell.(nextState := Some(Dead))];
      }
    }

    /** `seed`: each cell, on its own coin flip, becomes alive or keeps its state; no alive
        cell becomes dead, and nothing else about a cell changes. */
    method Seed()
      requires Valid()
      modifies this
      ensures Valid()
      ensures entityMap == old(entityMap) && cells.Keys == old(cells.Keys)
      ensures forall e :: e in cells ==>
        cells[e].position == old(cells[e].position) && cells[e].nextState == old(cells[e].nextState) &&
        (cells[e].state == old(cells[e].state) || cells[e].state == Alive)
      ensures forall r, c :: OnGrid(old(GridOf(entityMap, cells)), r, c) ==>
        (old(GridOf(entityMap, cells))[r][c] ==> GridOf(entityMap, cells)[r][c])
    {
      ghost var start := cells;
      var remaining := cells.Keys;
      while remaining != {}
        invariant remaining <= cells.Keys
        invariant entityMap == old(entityMap) && cells.Keys == start.Keys
        invariant forall e :: e in cells ==>
          cells[e].position == start[e].position && cells[e].nextState == start[e].nextState &&
          (cells[e].state == start[e].state || cells[e].state == Alive)
        decreases remaining
      {
        var e :| e in remaining;
        var heads: bool :| true;  // the coin flip `rand >= 0.5`
        if heads {
          cells := cells[e := cells[e].(state := Alive)];
        }
        remaining := remaining - {e};
      }
      ConsistentFrame(entityMap, start, cells);
    }
  }
}
