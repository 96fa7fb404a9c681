/**
  The run/edit lifecycle of the Game of Life window: the alive set, the copy
  saved when the simulation starts, the running flag and the state of a
  mouse drag, with the keyboard and mouse handlers and the simulation step
  that the refresh timer performs while running.

  Python sets are shared by reference, so both sets are heap objects: after
  a reset the alive set and the saved set are one object, and clearing or
  editing the one then clears or edits the other.
 */
module Game {
  import opened Rules

  /** A mutable set of cells, shared by reference like a Python set. */
  class CellSet {
    var cells: set<Cell>

    constructor(s: set<Cell>)
      ensures cells == s
    {
      cells := s;
    }
  }

  /** The drag state: no button held, or held after a click that landed on an
      alive cell (true) or on a dead one (false). */
  datatype Selection = NoSelection | Selected(wasAlive: bool)

  /** The key that toggles between running and resetting. */
  const Space: char := ' '
  /** The key that stops and clears, as the window system reports Backspace. */
  const Backspace: char := '\U{7F}'

  /** A click flips the membership of the clicked cell. */
  function Toggle(s: set<Cell>, c: Cell): (r: set<Cell>)
    ensures c in r <==> c !in s
    ensures forall d :: d != c ==> (d in r <==> d in s)
  {
    if c in s then s - {c} else s + {c}
  }

  /** Clicking the same cell twice leaves the set as it was. */
  lemma ToggleTwice(s: set<Cell>, c: Cell)
    ensures Toggle(Toggle(s, c), c) == s
  {
  }

  class GameOfLife {
    /** alive_cells: the current population. */
    var alive: CellSet
    /** save_alive_cells: the population when the simulation last started. */
    var saved: CellSet
    var running: bool
    /** alive_cell_selected. */
    var selected: Selection

    /** The two sets are shared only while editing: whenever the simulation
        runs, the alive set is an object of its own. */
    predicate Valid()
      reads this
    {
      running ==> alive != saved
    }

    /** Two distinct empty sets, not running, no drag in progress. */
    constructor()
      ensures Valid()
      ensures fresh(alive) && fresh(saved) && alive != saved
      ensures alive.cells == {} && saved.cells == {}
      ensures !running && selected == NoSelection
    {
      saved := new CellSet({});
      alive := new CellSet({});
      running := false;
      selected := NoSelection;
    }

    /** run: save a copy of the alive set and start the simulation. */
    method Run()
      requires Valid()
      modifies this
      ensures Valid()
      ensures fresh(saved) && saved.cells == old(alive.cells)
      ensures alive == old(alive) && alive.cells == old(alive.cells)
      ensures running && selected == old(selected)
    {
      saved := new CellSet(alive.cells);
      running := true;
    }

    /** stop: empty the alive set in place and stop the simulation. When the
        saved set is the same object, it is emptied too; that cannot happen
        while running, so stopping a run keeps the saved drawing. */
    method Stop()
      requires Valid()
      modifies this, alive
      ensures Valid()
      ensures alive == old(alive) && saved == old(saved)
      ensures alive.cells == {}
      ensures saved.cells == if old(alive) == old(saved) then {} else old(saved.cells)
      ensures old(running) ==> saved.cells == old(saved.cells)
      ensures !running && selected == old(selected)
    {
      alive.cells := {};
      running := false;
    }

    /** reset: make the saved set the alive set (the very same object) and
        stop the simulation. */
    method Reset()
      requires Valid()
      modifies this
      ensures Valid()
      ensures alive == old(saved) && saved == old(saved)
      ensures alive.cells == old(saved.cells) && saved.cells == old(saved.cells)
      ensures !running && selected == old(selected)
    {
      alive := saved;
      running := false;
    }

    /** key_pressed: Space resets a running simulation and starts a stopped
        one; Backspace stops and clears; any other key does nothing. */
    method KeyPressed(ch: char)
      requires Valid()
      modifies this, alive
      ensures Valid()
      ensures selected == old(selected)
      ensures ch == Space && old(running) ==>
                !running && alive == old(saved) && alive.cells == old(saved.cells) && saved == old(saved)
      ensures ch == Space && !old(running) ==>
                running && alive == old(alive) && alive.cells == old(alive.cells)
                && fresh(saved) && saved.cells == old(alive.cells)
      ensures ch == Backspace ==>
                !running && alive == old(alive) && alive.cells == {} && saved == old(saved)
                && saved.cells == (if old(alive) == old(saved) then {} else old(saved.cells))
      ensures ch == Backspace && old(running) ==> saved.cells == old(saved.cells)
      ensures ch != Space && ch != Backspace ==>
                running == old(running) && alive == old(alive) && saved == old(saved)
                && alive.cells == old(alive.cells) && saved.cells == old(saved.cells)
    {
      if ch == Space {
        if running {
          Reset();
        } else {
          Run();
        }
      } else if ch == Backspace {
        Stop();
      }
    }

    /** mouse_clicked on cell c: ignored while running; otherwise remember
        whether c was alive and flip it. An edit through a shared alive set
        also edits the saved set. */
    method MouseClicked(c: Cell)
      requires Valid()
      modifies this, alive
      ensures Valid()
      ensures alive == old(alive) && saved == old(saved) && running == old(running)
      ensures old(running) ==>
                selected == old(selected) && alive.cells == old(alive.cells) && saved.cells == old(saved.cells)
      ensures !old(running) ==>
                selected == Selected(c in old(alive.cells))
                && alive.cells == Toggle(old(alive.cells), c)
                && saved.cells == if old(alive) == old(saved) then alive.cells else old(saved.cells)
    {
      if running {
        return;
      }
      selected := Selected(c in alive.cells);
      if c in alive.cells {
        alive.cells := alive.cells - {c};
      } else {
        alive.cells := alive.cells + {c};
      }
    }

    /** mouse_moved over cell c while the button is held: ignored while
        running; a drag that began on an alive cell erases c, any other
        paints it. */
    method MouseMoved(c: Cell)
      requires Valid()
      modifies alive
      ensures Valid()
      ensures old(running) ==> alive.cells == old(alive.cells) && saved.cells == old(saved.cells)
      ensures !old(running) && selected == Selected(true) ==> alive.cells == old(alive.cells) - {c}
      ensures !old(running) && selected != Selected(true) ==> alive.cells == old(alive.cells) + {c}
      ensures saved.cells == if alive == saved then alive.cells else old(saved.cells)
    {
      if running {
        return;
      }
      if selected == Selected(true) {
        if c in alive.cells {
          alive.cells := alive.cells - {c};
        }
      } else {
        alive.cells := alive.cells + {c};
      }
    }

    /** mouse_released: the drag is over. */
    method MouseReleased()
      requires Valid()
      modifies this
      ensures Valid()
      ensures selected == NoSelection
      ensures alive == old(alive) && saved == old(saved) && running == old(running)
    {
      selected := NoSelection;
    }

    /** tick: compute the next generation against the current set and rebind
        the alive set to a new object holding it. The saved set is untouched,
        even when it was shared with the alive set. */
    method Tick()
      requires Valid()
      modifies this
      ensures Valid()
      ensures fresh(alive) && alive.cells == NextGeneration(old(alive.cells))
      ensures saved == old(saved) && saved.cells == old(saved.cells)
      ensures running == old(running) && selected == old(selected)
    {
      var toAdd, toRemove := Accumulate(alive.cells);
      CommitIsNextGeneration(alive.cells);
      alive := new CellSet(alive.cells + toAdd);
      alive := new CellSet(SymmetricDifference(alive.cells, toRemove));
    }

    /** The simulation part of refresh: while running, advance one generation,
        and when the population has died out, reset to the saved set. */
    method RefreshStep()
      requires Valid()
      modifies this
      ensures Valid()
      ensures saved == old(saved) && saved.cells == old(saved.cells) && selected == old(selected)
      ensures !old(running) ==> running == old(running) && alive == old(alive) && alive.cells == old(alive.cells)
      ensures old(running) && NextGeneration(old(alive.cells)) != {} ==>
                running && fresh(alive) && alive.cells == NextGeneration(old(alive.cells))
      ensures old(running) && NextGeneration(old(alive.cells)) == {} ==>
                !running && alive == saved && alive.cells == old(saved.cells)
    {
      if running {
        Tick();
        if |alive.cells| == 0 {
          Reset();
        }
      }
    }
  }

  /** Starting the simulation and resetting it straight away gives back the
      drawing, and the simulation is no longer running. */
  method RunThenReset(g: GameOfLife)
    requires g.Valid() && !g.running
    modifies g, g.alive
    ensures g.Valid() && !g.running
    ensures g.alive.cells == old(g.alive.cells)
  {
    g.KeyPressed(Space);
    g.KeyPressed(Space);
  }

  /** However many generations run, pressing Space afterwards (or the reset
      that follows extinction) brings the drawing back. */
  method RunGenerationsThenReset(g: GameOfLife, n: nat)
    requires g.Valid() && !g.running
    modifies g, g.alive
    ensures g.Valid() && !g.running
    ensures g.alive.cells == old(g.alive.cells)
  {
    g.Run();
    var i := 0;
    while i < n && g.running
      invariant g.Valid()
      invariant fresh(g.saved) && g.saved.cells == old(g.alive.cells)
      invariant g.running ==> g.alive == old(g.alive) || fresh(g.alive)
      invariant !g.running ==> g.alive.cells == old(g.alive.cells)
      decreases n - i
    {
      g.RefreshStep();
      i := i + 1;
    }
    if g.running {
      g.KeyPressed(Space);
    }
  }

  /** Clicking the same cell twice while editing leaves the drawing as it
      was. */
  method ClickTwice(g: GameOfLife, c: Cell)
    requires g.Valid() && !g.running
    modifies g, g.alive
    ensures g.alive.cells == old(g.alive.cells)
    ensures g.selected == Selected(c !in old(g.alive.cells))
  {
    g.MouseClicked(c);
    g.MouseClicked(c);
    ToggleTwice(old(g.alive.cells), c);
  }
}
