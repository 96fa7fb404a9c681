/**
  Known patterns of the Game of Life, proved against the closed-form
  generation step: the blinker oscillates with period two, the block is a
  still life, a lone cell dies, and cells leave the rendered grid instead of
  wrapping around. Patterns are placed anywhere on the plane, by the
  coordinates of one of their cells.
 */
module Patterns {
  import opened Rules

  /** Three cells in a row, centred on (i, j). */
  function HorizontalBlinker(i: int, j: int): set<Cell>
  {
    {Cell(i, j - 1), Cell(i, j), Cell(i, j + 1)}
  }

  /** Three cells in a column, centred on (i, j). */
  function VerticalBlinker(i: int, j: int): set<Cell>
  {
    {Cell(i - 1, j), Cell(i, j), Cell(i + 1, j)}
  }

  /** A 2x2 square whose top-left cell is (i, j). */
  function Block(i: int, j: int): set<Cell>
  {
    {Cell(i, j), Cell(i, j + 1), Cell(i + 1, j), Cell(i + 1, j + 1)}
  }

  /** The alive set after n generations. */
  function Generations(alive: set<Cell>, n: nat): set<Cell>
    decreases n
  {
    if n == 0 then alive else NextGeneration(Generations(alive, n - 1))
  }

  /** Neighbour counts around a horizontal triple: the centre has two, the
      ends one, and exactly the cells above and below the centre have three. */
  lemma HorizontalBlinkerCounts(i: int, j: int, c: Cell)
    ensures c in HorizontalBlinker(i, j) ==>
              (WindowCount(HorizontalBlinker(i, j), c) in {2, 3} <==> c in VerticalBlinker(i, j))
    ensures c !in HorizontalBlinker(i, j) ==>
              (WindowCount(HorizontalBlinker(i, j), c) == 3 <==> c in VerticalBlinker(i, j))
  {
  }

  /** The same counts around a vertical triple. */
  lemma VerticalBlinkerCounts(i: int, j: int, c: Cell)
    ensures c in VerticalBlinker(i, j) ==>
              (WindowCount(VerticalBlinker(i, j), c) in {2, 3} <==> c in HorizontalBlinker(i, j))
    ensures c !in VerticalBlinker(i, j) ==>
              (WindowCount(VerticalBlinker(i, j), c) == 3 <==> c in HorizontalBlinker(i, j))
  {
  }

  /** A horizontal triple becomes a vertical one through the same centre. */
  lemma BlinkerTurns(i: int, j: int)
    ensures NextGeneration(HorizontalBlinker(i, j)) == VerticalBlinker(i, j)
  {
    var h := HorizontalBlinker(i, j);
    forall c ensures c in NextGeneration(h) <==> c in VerticalBlinker(i, j) {
      NextGenerationByWindow(h, c);
      HorizontalBlinkerCounts(i, j, c);
    }
  }

  /** A vertical triple becomes a horizontal one through the same centre. */
  lemma BlinkerTurnsBack(i: int, j: int)
    ensures NextGeneration(VerticalBlinker(i, j)) == HorizontalBlinker(i, j)
  {
    var v := VerticalBlinker(i, j);
    forall c ensures c in NextGeneration(v) <==> c in HorizontalBlinker(i, j) {
      NextGenerationByWindow(v, c);
      VerticalBlinkerCounts(i, j, c);
    }
  }

  /** The blinker is an oscillator of period two. */
  lemma BlinkerPeriodTwo(i: int, j: int)
    ensures Generations(HorizontalBlinker(i, j), 2) == HorizontalBlinker(i, j)
    ensures Generations(HorizontalBlinker(i, j), 1) != HorizontalBlinker(i, j)
  {
    BlinkerTurns(i, j);
    BlinkerTurnsBack(i, j);
    assert Cell(i - 1, j) !in HorizontalBlinker(i, j);
  }

  /** The horizontal triple on row 1 turns into the vertical triple on
      column 1, and back. */
  lemma BlinkerExample()
    ensures NextGeneration({Cell(1, 0), Cell(1, 1), Cell(1, 2)}) == {Cell(0, 1), Cell(1, 1), Cell(2, 1)}
    ensures NextGeneration({Cell(0, 1), Cell(1, 1), Cell(2, 1)}) == {Cell(1, 0), Cell(1, 1), Cell(1, 2)}
  {
    BlinkerTurns(1, 1);
    BlinkerTurnsBack(1, 1);
  }

  /** Neighbour counts around a block: each of its cells has three, every
      other cell at most two. */
  lemma BlockCounts(i: int, j: int, c: Cell)
    ensures c in Block(i, j) ==> WindowCount(Block(i, j), c) == 3
    ensures c !in Block(i, j) ==> WindowCount(Block(i, j), c) <= 2
  {
  }

  /** The block does not change in one generation. */
  lemma BlockIsStill(i: int, j: int)
    ensures NextGeneration(Block(i, j)) == Block(i, j)
  {
    var b := Block(i, j);
    forall c ensures c in NextGeneration(b) <==> c in b {
      NextGenerationByWindow(b, c);
      BlockCounts(i, j, c);
    }
  }

  /** A set that one generation leaves unchanged stays unchanged for ever. */
  lemma StillLifeStays(alive: set<Cell>, n: nat)
    requires NextGeneration(alive) == alive
    ensures Generations(alive, n) == alive
    decreases n
  {
    if n > 0 {
      StillLifeStays(alive, n - 1);
    }
  }

  /** The block does not change in any number of generations. */
  lemma BlockStaysForever(i: int, j: int, n: nat)
    ensures Generations(Block(i, j), n) == Block(i, j)
  {
    BlockIsStill(i, j);
    StillLifeStays(Block(i, j), n);
  }

  /** A cell with no alive neighbour dies, leaving the population extinct. */
  lemma LoneCellDies(c: Cell)
    ensures NextGeneration({c}) == {}
  {
    forall d ensures d !in NextGeneration({c}) {
      NextGenerationByWindow({c}, d);
    }
  }

  /** A blinker on the top row grows a cell at row -1: the plane has no border
      and no wrap-around, and that cell stays alive but is not rendered. */
  lemma TopRowBlinkerLeavesGrid()
    ensures NextGeneration({Cell(0, 0), Cell(0, 1), Cell(0, 2)}) == {Cell(-1, 1), Cell(0, 1), Cell(1, 1)}
    ensures Rendered({Cell(-1, 1), Cell(0, 1), Cell(1, 1)}) == {Cell(0, 1), Cell(1, 1)}
  {
    BlinkerTurns(0, 1);
  }
}
