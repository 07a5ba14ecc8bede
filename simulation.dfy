/** The running simulation: the grid array and the flags that the main loop
    updates in place, event by event and tick by tick. Each method is tied to
    the pure state machine of module Controls through `Model()`. */
module Simulation {
  import opened Grids
  import Life
  import opened Controls

  class Game {
    var grid: array2<int>
    var running: bool
    var simulationRunning: bool
    var showInstructions: bool

    /** The state as a value. */
    ghost function Model(): State
      reads this, grid
    {
      State(Cells(grid), running, simulationRunning, showInstructions)
    }

    /** The grid array is GridSize x GridSize and every cell holds 0 or 1. */
    ghost predicate Valid()
      reads this, grid
    {
      grid.Length0 == GridSize && grid.Length1 == GridSize && Controls.Valid(Model())
    }

    /** Start-up: an all-dead grid, the main loop running, the simulation paused
        and the overlay hidden. */
    constructor ()
      ensures Valid() && fresh(grid)
      ensures Model() == Initial()
    {
      grid := new int[GridSize, GridSize]((_, _) => 0);
      running := true;
      simulationRunning := false;
      showInstructions := false;
      new;
      GridsEqual(Cells(grid), Zeros(GridSize));
    }

    /** One event: Quit ends the main loop; a mouse-down toggles the simulation,
        edits the cell under the pointer or toggles the overlay; Enter replaces
        the grid by the next generation. */
    method HandleEvent(e: Event)
      requires Valid()
      modifies this, grid
      ensures Valid() && (grid == old(grid) || fresh(grid))
      ensures Model() == OnEvent(old(Model()), e)
    {
      match e
      case Quit =>
        running := false;
      case MouseButtonDown(button, x, y) =>
        var cellX, cellY := CellIndex(x), CellIndex(y);
        if OnStartButton(x, y) {
          if button == LeftButton || button == RightButton {
            simulationRunning := !simulationRunning;
          }
        } else if 0 <= cellX < GridSize && 0 <= cellY < GridSize {
          if button == LeftButton {
            WriteCell(cellY, cellX, 1);
          } else if button == RightButton {
            WriteCell(cellY, cellX, 0);
          }
        } else if OnInstructionsButton(x, y) {
          if button == LeftButton || button == RightButton {
            showInstructions := !showInstructions;
          }
        }
      case KeyDown(key) =>
        if key == ReturnKey {
          grid := Life.UpdateGrid(grid);
        }
      case OtherEvent =>
    }

    /** Writes the single cell (row, col) of the grid array in place. */
    method WriteCell(row: nat, col: nat, v: int)
      requires Valid() && row < GridSize && col < GridSize && (v == 0 || v == 1)
      modifies grid
      ensures Valid()
      ensures Model() == old(Model()).(grid := SetCell(old(Cells(grid)), row, col, v))
    {
      ghost var before := Cells(grid);
      grid[row, col] := v;
      GridsEqual(Cells(grid), SetCell(before, row, col, v));
    }

    /** The tick after a frame's events: one generation while the simulation runs. */
    method Tick()
      requires Valid()
      modifies this
      ensures Valid() && (grid == old(grid) || fresh(grid))
      ensures Model() == Controls.Tick(old(Model()))
    {
      if simulationRunning {
        grid := Life.UpdateGrid(grid);
      }
    }

    /** One pass of the main loop without the drawing: every queued event in
        order, then the tick. */
    method RunFrame(events: seq<Event>)
      requires Valid()
      modifies this, grid
      ensures Valid() && (grid == old(grid) || fresh(grid))
      ensures Model() == Frame(old(Model()), events)
    {
      for k := 0 to |events|
        invariant Valid() && (grid == old(grid) || fresh(grid))
        invariant Model() == OnEvents(old(Model()), events[..k])
      {
        assert events[..k + 1][..k] == events[..k];
        HandleEvent(events[k]);
      }
      assert events[..|events|] == events;
      Tick();
    }

    /** The main loop: one frame per batch of events while `running` holds. */
    method Run(frames: seq<seq<Event>>)
      requires Valid()
      modifies this, grid
      ensures Valid()
      ensures Model() == Session(old(Model()), frames)
    {
      var k := 0;
      while k < |frames| && running
        invariant 0 <= k <= |frames|
        invariant Valid() && (grid == old(grid) || fresh(grid))
        invariant Session(old(Model()), frames) == Session(Model(), frames[k..])
      {
        assert frames[k..][1..] == frames[k + 1..];
        RunFrame(frames[k]);
        k := k + 1;
      }
    }
  }
}
