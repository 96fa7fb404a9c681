# Game of Life: simulation rule and run/edit lifecycle

A Dafny model of the `GameOfLife` class of a small Tk Game of Life
(`main.py`): the neighbour rule, one generation step as `tick` computes it, and the window's lifecycle of drawing cells with the mouse, running the
simulation and resetting or clearing it with the keyboard.

- `rules.dfy` (`module Rules`): cells are pairs of integers on the unbounded
  plane. `Neighbours`, `CountNeighbours`, `IsDead`, `Survives` and
  `Reproduces` are `get_neighbours`, `count_neighbours`, `is_dead`,
  `survives_check` and `reproduction_check`. `Accumulate` and
  `AddBirthsAround` are the loops of `tick`, proved equal to a closed form
  (`Deaths`, `Births`). `NextGeneration` is that closed form, and
  `NextGenerationRule` shows it is Conway's B3/S23 rule cell by cell.
  `WindowCount` is an independent count of the 3x3 window, and
  `CountNeighboursByWindow` ties the set-intersection count to it.
  `Rendered` is the bounds test `refresh` applies when painting.
- `game.dfy` (`module Game`): the class `GameOfLife` with fields `alive`,
  `saved`, `running` and `selected`. Python sets are shared by reference, so
  each set is a heap object (`CellSet`). After `Reset` both fields hold the
  same object, and `Stop` or a mouse edit then changes both. `Tick` rebinds
  `alive` to a new object, and `Run` always stores a fresh copy.
  `Valid()` is the class invariant: while running, the two sets are distinct
  objects.
- `patterns.dfy` (`module Patterns`): known patterns proved against the
  closed form. The blinker has period two, the block is a still life, a lone
  cell dies, and a blinker on the top row grows a cell outside the painted
  grid.

The code's `&` between `is_dead` and `reproduction_check` (`main.py:176`) is
a bitwise and of two booleans. It is modelled as `&&`, which gives the same
value because both operands are side-effect free.

## Model

| member | source | states |
|---|---|---|
| Rules.Neighbours | main.py:156-158 | the eight cells around the centre, in get_neighbours' order; its size, its exclusion of the centre and its one-step characterisation are proved in `NeighboursShape` |
| Rules.NeighboursShape | main.py:156-158 | get_neighbours has exactly 8 members, excludes the cell itself, and a cell is a member iff it differs from the centre by at most 1 along each axis |
| Rules.NeighbourSymmetric | main.py:156-158 | b is a neighbour of a iff a is a neighbour of b |
| Rules.CountNeighbours | main.py:151-153 | the number of alive cells among the neighbours; `CountNeighboursBound` and `CountNeighboursByWindow` state its bound and its value |
| Rules.CountNeighboursBound | main.py:151-153 | count_neighbours is at most 8 |
| Rules.CountNeighboursAt | main.py:151-158 | the count at (i, j) is the number of alive cells in the 3x3 window, counted row by row, minus the centre's own indicator |
| Rules.CountNeighboursByWindow | main.py:151-158 | count_neighbours equals the reference count `WindowCount`: each of the eight neighbouring positions is counted exactly once when alive |
| Rules.IsDead | main.py:160-161 | a cell is dead iff it is not in the alive set; used by `NextGenerationRule` for the birth case |
| Rules.Survives | main.py:163-164 | a cell survives iff its count is 2 or 3; `NextGenerationRule` states the survival rule with it |
| Rules.Reproduces | main.py:166-167 | a cell is born iff its count is exactly 3; `NextGenerationRule` and `BirthsRule` state the birth rule with it |
| Rules.Deaths | main.py:172-174 | the cells marked for removal are a subset of the alive set |
| Rules.BirthsAround | main.py:175-177 | cells marked for addition are never already alive |
| Rules.BornAround | main.py:175-177 | what one alive cell contributes to `to_add` is among its neighbours and contains no alive cell |
| Rules.Births | main.py:169-177 | `to_add` after the loop: the dead neighbours of alive cells that reproduce; `BirthsRule` characterises it |
| Rules.BirthsRule | main.py:169-177 | a cell is in `to_add` iff it is dead and has exactly three alive neighbours; every such cell is reached, because one of its alive neighbours has it as a neighbour |
| Rules.AddBirthsAround | main.py:175-177 | the inner loop adds to `to_add` exactly the dead neighbours of the cell that have three alive neighbours |
| Rules.Accumulate | main.py:169-177 | after the loop, `to_remove` holds exactly the alive cells whose count is not 2 or 3, `to_add` holds exactly the dead cells whose count is 3 and equals `Births`, `to_remove` is within the alive set, and `to_add` is disjoint from it; every count is taken against the set before the step |
| Rules.SymmetricDifference | main.py:179 | a cell is in the result iff it is in exactly one of the two sets |
| Rules.SymmetricDifferenceOfSubset | main.py:179 | when every removed cell is present, symmetric difference is set subtraction |
| Rules.NextGeneration | main.py:178-179 | the set `tick` assigns: the alive cells minus the deaths, plus the births; `CommitIsNextGeneration` and `NextGenerationRule` state what it is |
| Rules.CommitIsNextGeneration | main.py:178-179 | union with the births followed by symmetric difference with the deaths yields the closed form |
| Rules.NextGenerationRule | main.py:163-179 | an alive cell is in the next generation iff it has 2 or 3 alive neighbours; a dead cell iff it has exactly 3; a dead cell with no alive neighbour stays dead |
| Rules.NextGenerationByWindow | main.py:163-179 | the same rule, with the count taken from the 3x3 window |
| Rules.Rendered | main.py:201-203 | the painted cells are exactly the alive cells in rows 0..HeightCount-1 and columns 0..WidthCount-1 (20 each); the others are skipped, not removed |
| Game.Toggle | main.py:120-125 | a click flips the clicked cell's membership and leaves every other cell as it was |
| Game.ToggleTwice | main.py:122-125 | flipping the same cell twice gives back the original set |
| Game.GameOfLife.constructor | main.py:46-69 | the game starts with two distinct empty sets, not running, and no drag in progress |
| Game.GameOfLife.Run | main.py:76-79 | the saved set becomes a new copy of the alive set, the alive set is unchanged, and the simulation is running |
| Game.GameOfLife.Stop | main.py:81-84 | the alive set is emptied in place and the simulation stops; the saved set is emptied as well exactly when it is the same object, which cannot be the case while running, so stopping a run keeps the saved drawing |
| Game.GameOfLife.Reset | main.py:86-89 | the alive field becomes the saved object itself, so its contents are the saved contents, and the simulation stops |
| Game.GameOfLife.KeyPressed | main.py:105-113 | Space resets when running and runs otherwise; Backspace stops and clears; any other key changes nothing |
| Game.GameOfLife.MouseClicked | main.py:115-125 | while running nothing changes; otherwise the drag remembers whether the cell was alive, the cell is flipped, and a shared saved set sees the same edit |
| Game.GameOfLife.MouseMoved | main.py:127-136 | while running nothing changes; a drag that began on an alive cell only removes the cell, any other drag only adds it; a shared saved set sees the same edit |
| Game.GameOfLife.MouseReleased | main.py:138-139 | the drag state returns to none and nothing else changes |
| Game.GameOfLife.Tick | main.py:169-179 | the alive field is rebound to a new object holding `NextGeneration` of the old set; the saved set is untouched even when it was shared |
| Game.GameOfLife.RefreshStep | main.py:194-199 | while running, one generation is computed; if it is empty, the game resets to the saved set and stops running; when not running nothing changes |
| Game.RunThenReset | main.py:76-79 | pressing Space twice from the editing state gives back the drawn set and leaves the game stopped |
| Game.RunGenerationsThenReset | main.py:76-199 | after a run of any number of generations, pressing Space (or the reset that follows extinction) gives back the set drawn before the run |
| Game.ClickTwice | main.py:115-125 | clicking the same cell twice while editing leaves the drawing unchanged |
| Patterns.BlinkerTurns | main.py:163-179 | a horizontal line of three becomes the vertical line of three through the same centre |
| Patterns.BlinkerTurnsBack | main.py:163-179 | a vertical line of three becomes the horizontal line of three through the same centre |
| Patterns.BlinkerPeriodTwo | main.py:163-179 | the blinker returns after two generations and differs after one |
| Patterns.BlinkerExample | main.py:163-179 | the blinker centred at (1, 1) alternates between its two concrete cell sets |
| Patterns.BlockIsStill | main.py:163-179 | a 2x2 block is unchanged by one generation |
| Patterns.StillLifeStays | main.py:169-179 | a set unchanged by one generation is unchanged by any number of generations |
| Patterns.BlockStaysForever | main.py:163-179 | a 2x2 block is unchanged by any number of generations |
| Patterns.LoneCellDies | main.py:163-179 | a single alive cell dies, leaving an empty set |
| Patterns.TopRowBlinkerLeavesGrid | main.py:201-203 | a blinker on row 0 grows a cell at row -1 that stays alive but is not painted; the plane does not wrap around |

## Left out

- Tk: the resizing canvas (`main.py:8-24`), window and event binding (`main.py:49-64`), `init_cells`, `clear`, colours and `itemconfig` painting, and the `root.after` scheduling in `refresh` are GUI output with no state of the model.
- `cell_coord` (`main.py:144-149`) divides pixel coordinates by floating-point cell sizes and truncates. The mouse handlers take the resulting cell instead of a pixel event.
- `mouse_wheel_callback` (`main.py:141-142`) only prints.
- Frame rate and delays (`main.py:44`, `main.py:73-74`) only time the scheduler.
- Periodic boundary conditions are not implemented by the code (`main.py:3`), so the plane is unbounded and nothing wraps around.
- The order in which `tick` visits the alive set and the neighbours is arbitrary in the code and in the model; the result does not depend on it.
