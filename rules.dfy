/**
  The simulation rule of the Game of Life: Conway's B3/S23 rule on the
  unbounded integer plane, with no wrap-around at any border.

  The alive set is a finite set of (row, column) pairs; nothing here refers to
  the grid's bounds, which only decide what gets painted (see Rendered).
 */
module Rules {

  /** A cell coordinate (row, column). Any pair of integers is a valid cell. */
  datatype Cell = Cell(row: int, col: int)

  /** Number of rows and columns of the rendered grid. */
  const WidthCount: int := 20
  const HeightCount: int := 20

  /** b lies in the Moore neighbourhood of a: a different cell, at most one
      step away along each axis. */
  predicate Adjacent(a: Cell, b: Cell)
  {
    a != b && -1 <= b.row - a.row <= 1 && -1 <= b.col - a.col <= 1
  }

  /** The eight neighbours of (i, j), listed as get_neighbours lists them. */
  function Neighbours(c: Cell): set<Cell>
  {
    var i, j := c.row, c.col;
    {Cell(i, j - 1), Cell(i, j + 1), Cell(i - 1, j - 1), Cell(i + 1, j - 1), Cell(i - 1, j + 1), Cell(i + 1, j + 1), Cell(i + 1, j),
     Cell(i - 1, j)}
  }

  /** The neighbourhood is the Moore neighbourhood: eight distinct cells, the
      centre excluded, each at most one step away along each axis. */
  lemma NeighboursShape(c: Cell)
    ensures |Neighbours(c)| == 8
    ensures c !in Neighbours(c)
    ensures forall n :: n in Neighbours(c) <==> Adjacent(c, n)
  {
    var i, j := c.row, c.col;
    forall n | Adjacent(c, n) ensures n in Neighbours(c) {
      assert n == Cell(i + (n.row - i), j + (n.col - j));
    }
  }

  /** Neighbourhood is symmetric: b neighbours a exactly when a neighbours b. */
  lemma NeighbourSymmetric(a: Cell, b: Cell)
    ensures b in Neighbours(a) <==> a in Neighbours(b)
  {
    NeighboursShape(a);
    NeighboursShape(b);
  }

  /** 1 when c is alive, 0 otherwise. */
  function Indicator(alive: set<Cell>, c: Cell): nat
  {
    if c in alive then 1 else 0
  }

  /** Number of alive cells among the eight neighbours of c: the size of the
      intersection of the neighbourhood with the alive set. */
  function CountNeighbours(alive: set<Cell>, c: Cell): nat
  {
    |Neighbours(c) * alive|
  }

  /** A cell has at most eight alive neighbours. */
  lemma CountNeighboursBound(alive: set<Cell>, c: Cell)
    ensures CountNeighbours(alive, c) <= 8
  {
    NeighboursShape(c);
    SubsetCard(Neighbours(c) * alive, Neighbours(c));
  }

  /** The alive cells among (r, j - 1), (r, j), (r, j + 1). */
  function RowCount(alive: set<Cell>, r: int, j: int): nat
  {
    Indicator(alive, Cell(r, j - 1)) + Indicator(alive, Cell(r, j)) + Indicator(alive, Cell(r, j + 1))
  }

  /** A reference count, independent of set intersection: the alive cells of
      the 3x3 window centred on c, row by row, less c itself. */
  function WindowCount(alive: set<Cell>, c: Cell): nat
  {
    RowCount(alive, c.row - 1, c.col) + RowCount(alive, c.row, c.col) + RowCount(alive, c.row + 1, c.col)
      - Indicator(alive, c)
  }

  lemma SubsetCard(a: set<Cell>, b: set<Cell>)
    requires a <= b
    ensures |a| <= |b|
  {
    assert b == a + (b - a);
  }

  /** Alive cells of a disjoint union are counted part by part. */
  lemma CountUnion(s: set<Cell>, t: set<Cell>, alive: set<Cell>)
    requires s !! t
    ensures |(s + t) * alive| == |s * alive| + |t * alive|
  {
    assert (s + t) * alive == (s * alive) + (t * alive);
    assert (s * alive) !! (t * alive);
  }

  lemma CountSingle(x: Cell, alive: set<Cell>)
    ensures |{x} * alive| == Indicator(alive, x)
  {
    if x in alive {
      assert {x} * alive == {x};
    } else {
      assert {x} * alive == {};
    }
  }

  /** The three cells (r, j - 1), (r, j), (r, j + 1) of row r. */
  function Row(r: int, j: int): set<Cell>
  {
    {Cell(r, j - 1)} + {Cell(r, j)} + {Cell(r, j + 1)}
  }

  lemma CountRow(r: int, j: int, alive: set<Cell>)
    ensures |Row(r, j) * alive| == RowCount(alive, r, j)
  {
    CountSingle(Cell(r, j - 1), alive);
    CountSingle(Cell(r, j), alive);
    CountSingle(Cell(r, j + 1), alive);
    CountUnion({Cell(r, j - 1)}, {Cell(r, j)}, alive);
    CountUnion({Cell(r, j - 1)} + {Cell(r, j)}, {Cell(r, j + 1)}, alive);
  }

  /** The 3x3 window centred on (i, j). */
  function Window(i: int, j: int): set<Cell>
  {
    Row(i - 1, j) + Row(i, j) + Row(i + 1, j)
  }

  /** The window is the neighbourhood plus the centre. */
  lemma WindowSplit(i: int, j: int)
    ensures Window(i, j) == Neighbours(Cell(i, j)) + {Cell(i, j)}
  {
  }

  /** The three rows of a window are pairwise disjoint. */
  lemma WindowRowsDisjoint(i: int, j: int)
    ensures Row(i - 1, j) !! Row(i, j)
    ensures Row(i - 1, j) + Row(i, j) !! Row(i + 1, j)
  {
  }

  /** Counting the window row by row. */
  lemma WindowByRows(alive: set<Cell>, i: int, j: int)
    ensures |Window(i, j) * alive| == RowCount(alive, i - 1, j) + RowCount(alive, i, j) + RowCount(alive, i + 1, j)
  {
    WindowRowsDisjoint(i, j);
    CountUnion(Row(i - 1, j), Row(i, j), alive);
    CountUnion(Row(i - 1, j) + Row(i, j), Row(i + 1, j), alive);
    CountRow(i - 1, j, alive);
    CountRow(i, j, alive);
    CountRow(i + 1, j, alive);
  }

  /** Counting the window as the neighbourhood and the centre. */
  lemma WindowByCentre(alive: set<Cell>, i: int, j: int)
    ensures |Window(i, j) * alive| == CountNeighbours(alive, Cell(i, j)) + Indicator(alive, Cell(i, j))
  {
    WindowSplit(i, j);
    NeighboursShape(Cell(i, j));
    CountUnion(Neighbours(Cell(i, j)), {Cell(i, j)}, alive);
    CountSingle(Cell(i, j), alive);
  }

  /** The neighbour count of (i, j) is its window count less the centre. */
  lemma CountNeighboursAt(alive: set<Cell>, i: int, j: int)
    ensures CountNeighbours(alive, Cell(i, j))
         == RowCount(alive, i - 1, j) + RowCount(alive, i, j) + RowCount(alive, i + 1, j) - Indicator(alive, Cell(i, j))
  {
    WindowByRows(alive, i, j);
    WindowByCentre(alive, i, j);
  }

  /** count_neighbours counts exactly the alive cells among the eight
      neighbours, each once. */
  lemma CountNeighboursByWindow(alive: set<Cell>, c: Cell)
    ensures CountNeighbours(alive, c) == WindowCount(alive, c)
  {
    assert c == Cell(c.row, c.col);
    CountNeighboursAt(alive, c.row, c.col);
  }

  /** is_dead: the cell is not in the alive set. */
  predicate IsDead(alive: set<Cell>, c: Cell)
  {
    c !in alive
  }

  /** survives_check: two or three alive neighbours. */
  predicate Survives(alive: set<Cell>, c: Cell)
  {
    CountNeighbours(alive, c) in {2, 3}
  }

  /** reproduction_check: exactly three alive neighbours. */
  predicate Reproduces(alive: set<Cell>, c: Cell)
  {
    CountNeighbours(alive, c) == 3
  }

  /** The cells of `alive` that fail the survival rule. */
  function Deaths(alive: set<Cell>): (r: set<Cell>)
    ensures r <= alive
  {
    set c | c in alive && !Survives(alive, c)
  }

  /** The dead cells that neighbour one of `parents` and satisfy the
      reproduction rule against `alive`. */
  function BirthsAround(alive: set<Cell>, parents: set<Cell>): (r: set<Cell>)
    ensures r !! alive
  {
    set a, n | a in parents && n in Neighbours(a) && IsDead(alive, n) && Reproduces(alive, n) :: n
  }

  /** Dead neighbours of alive cells that are born in the next generation. */
  function Births(alive: set<Cell>): set<Cell>
  {
    BirthsAround(alive, alive)
  }

  /** The births are exactly the dead cells with three alive neighbours:
      such a cell has an alive neighbour, and it is a neighbour of that cell. */
  lemma BirthsRule(alive: set<Cell>)
    ensures forall c :: c in Births(alive) <==> c !in alive && CountNeighbours(alive, c) == 3
  {
    forall c | c !in alive && CountNeighbours(alive, c) == 3
      ensures c in Births(alive)
    {
      var a :| a in Neighbours(c) * alive;
      NeighbourSymmetric(a, c);
      assert a in alive && c in Neighbours(a) && IsDead(alive, c) && Reproduces(alive, c);
    }
  }

  /** Python's set.symmetric_difference. */
  function SymmetricDifference(a: set<Cell>, b: set<Cell>): (r: set<Cell>)
    ensures forall c :: c in r <==> (c in a) != (c in b)
  {
    (a - b) + (b - a)
  }

  /** When the removed cells are all present, symmetric difference is plain
      set subtraction. */
  lemma SymmetricDifferenceOfSubset(a: set<Cell>, b: set<Cell>)
    requires b <= a
    ensures SymmetricDifference(a, b) == a - b
  {
  }

  /** The closed form of one generation: the surviving alive cells plus the
      dead neighbours of alive cells that have exactly three alive neighbours. */
  function NextGeneration(alive: set<Cell>): set<Cell>
  {
    (set c | c in alive && Survives(alive, c)) + Births(alive)
  }

  /** Conway's B3/S23 rule, cell by cell: an alive cell stays alive iff it has
      two or three alive neighbours; a dead cell becomes alive iff it has
      exactly three; a dead cell without alive neighbours stays dead. */
  lemma NextGenerationRule(alive: set<Cell>, c: Cell)
    ensures c in alive ==> (c in NextGeneration(alive) <==> CountNeighbours(alive, c) in {2, 3})
    ensures c !in alive ==> (c in NextGeneration(alive) <==> CountNeighbours(alive, c) == 3)
    ensures c !in alive && Neighbours(c) * alive == {} ==> c !in NextGeneration(alive)
  {
    BirthsRule(alive);
  }

  /** The B3/S23 rule with the count read off the 3x3 window. */
  lemma NextGenerationByWindow(alive: set<Cell>, c: Cell)
    ensures c in NextGeneration(alive) <==>
            if c in alive then WindowCount(alive, c) in {2, 3} else WindowCount(alive, c) == 3
  {
    NextGenerationRule(alive, c);
    CountNeighboursByWindow(alive, c);
  }

  /** Committing the accumulated sets as tick does (union with the
      births, then symmetric difference with the deaths) yields the closed
      form. */
  lemma CommitIsNextGeneration(alive: set<Cell>)
    ensures SymmetricDifference(alive + Births(alive), Deaths(alive)) == NextGeneration(alive)
  {
    SymmetricDifferenceOfSubset(alive + Births(alive), Deaths(alive));
  }

  /** The dead neighbours of c that satisfy the reproduction rule. */
  function BornAround(alive: set<Cell>, c: Cell): (r: set<Cell>)
    ensures r <= Neighbours(c) && r !! alive
  {
    set n | n in Neighbours(c) && IsDead(alive, n) && Reproduces(alive, n)
  }

  /** Taking one more cell n off the to-do list: the part of k already
      visited grows by n exactly when n belongs to k. */
  lemma TakeOne(k: set<Cell>, todo: set<Cell>, n: Cell)
    requires n in todo
    ensures (k - todo) + (if n in k then {n} else {}) == k - (todo - {n})
  {
  }

  /** Visiting one more parent c adds the births around c. */
  lemma BirthsAroundStep(alive: set<Cell>, rest: set<Cell>, c: Cell)
    requires c in rest && rest <= alive
    ensures BirthsAround(alive, alive - (rest - {c})) == BirthsAround(alive, alive - rest) + BornAround(alive, c)
  {
    assert alive - (rest - {c}) == (alive - rest) + {c};
  }

  /** The inner loop of tick: add to `toAdd` each neighbour of c that is dead
      and satisfies the reproduction rule. */
  method AddBirthsAround(alive: set<Cell>, c: Cell, toAdd: set<Cell>) returns (r: set<Cell>)
    ensures r == toAdd + BornAround(alive, c)
  {
    r := toAdd;
    var todo := Neighbours(c);
    while todo != {}
      invariant todo <= Neighbours(c)
      invariant r == toAdd + (BornAround(alive, c) - todo)
      decreases |todo|
    {
      var n :| n in todo;
      TakeOne(BornAround(alive, c), todo, n);
      if IsDead(alive, n) && Reproduces(alive, n) {
        r := r + {n};
      }
      todo := todo - {n};
    }
  }

  /** The loop of tick: visit every alive cell, mark it for removal when it
      fails the survival rule, and mark each of its dead neighbours that
      satisfies the reproduction rule for addition. All counts are taken
      against the set as it was before the loop. */
  method Accumulate(alive: set<Cell>) returns (toAdd: set<Cell>, toRemove: set<Cell>)
    ensures toRemove <= alive && toAdd !! alive
    ensures forall c :: c in toRemove <==> c in alive && CountNeighbours(alive, c) !in {2, 3}
    ensures forall c :: c in toAdd <==> c !in alive && CountNeighbours(alive, c) == 3
    ensures toAdd == Births(alive)
  {
    toAdd, toRemove := {}, {};
    var rest := alive;
    while rest != {}
      invariant rest <= alive
      invariant toRemove == Deaths(alive) - rest
      invariant toAdd == BirthsAround(alive, alive - rest)
      decreases |rest|
    {
      var c :| c in rest;
      TakeOne(Deaths(alive), rest, c);
      if !Survives(alive, c) {
        toRemove := toRemove + {c};
      }
      BirthsAroundStep(alive, rest, c);
      toAdd := AddBirthsAround(alive, c, toAdd);
      rest := rest - {c};
    }
    BirthsRule(alive);
  }

  /** The alive cells the renderer paints: those inside the configured rows
      and columns. The others stay alive but unseen. */
  function Rendered(alive: set<Cell>): (r: set<Cell>)
    ensures r <= alive
    ensures forall c :: c in r ==> 0 <= c.row < HeightCount && 0 <= c.col < WidthCount
    ensures forall c :: c in alive && 0 <= c.row < HeightCount && 0 <= c.col < WidthCount ==> c in r
  {
    set c | c in alive && 0 <= c.row < HeightCount && 0 <= c.col < WidthCount
  }
}
