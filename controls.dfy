/** The screen layout and the input dispatch of the simulation, as a pure
    state machine over (grid, running, simulation running, instructions shown).

    The window is GridSize * CellSize = 900 pixels wide and 1000 high. The grid
    fills the top 900 x 900 pixels; below it a strip 50 pixels high holds the
    Start/Pause button on the left and the Instructions button on the right-most
    150 pixels. */
module Controls {
  import opened Grids
  import Life

  const GridSize: nat := 60
  const CellSize: nat := 15
  const WindowWidth: nat := GridSize * CellSize
  const WindowHeight: nat := GridSize * CellSize + 100
  /** Width of the Instructions button, at the right end of the button strip. */
  const InstructionsWidth: nat := 150
  /** Height of the button strip below the grid. */
  const StripHeight: nat := 50

  /** Mouse button numbers as the windowing library reports them. */
  const LeftButton: int := 1
  const RightButton: int := 3
  /** Key code of the Enter (Return) key. */
  const ReturnKey: int := 13

  /** An input event; a mouse-down carries the button and the pointer's pixel. */
  datatype Event =
    | Quit
    | MouseButtonDown(button: int, x: int, y: int)
    | KeyDown(key: int)
    | OtherEvent

  /** Pixel coordinate to cell index: floor division by the cell size, so the
      pixel lies in the cell that starts at CellOrigin of the result. */
  function CellIndex(p: int): (k: int)
    ensures k * CellSize <= p < k * CellSize + CellSize
  {
    p / CellSize
  }

  /** The pixel coordinate where cell index k begins, as the cells are drawn. */
  function CellOrigin(k: int): int
  {
    k * CellSize
  }

  /** The Start/Pause button region (both bounds on y inclusive). */
  predicate OnStartButton(x: int, y: int)
  {
    0 <= x < WindowWidth - InstructionsWidth &&
    GridSize * CellSize <= y <= GridSize * CellSize + StripHeight
  }

  /** The pixel falls on a cell of the grid. */
  predicate OnGrid(x: int, y: int)
  {
    0 <= CellIndex(x) < GridSize && 0 <= CellIndex(y) < GridSize
  }

  /** The Instructions button region (all four bounds inclusive). */
  predicate OnInstructionsButton(x: int, y: int)
  {
    WindowWidth - InstructionsWidth <= x <= WindowWidth &&
    GridSize * CellSize <= y <= GridSize * CellSize + StripHeight
  }

  predicate IsToggleButton(button: int)
  {
    button == LeftButton || button == RightButton
  }

  /** The whole simulation state: the grid, the main loop's `running` flag,
      whether generations advance on every tick, and whether the instructions
      overlay is shown. */
  datatype State = State(grid: Grid, running: bool, simulationRunning: bool, showInstructions: bool)

  /** The grid keeps its GridSize x GridSize shape and every cell is 0 or 1. */
  predicate Valid(s: State)
  {
    |s.grid| == GridSize && IsSquare(s.grid) && IsBinary(s.grid)
  }

  /** The state at start-up: an all-dead grid, paused, no overlay. */
  function Initial(): (s: State)
    ensures Valid(s)
  {
    State(Zeros(GridSize), true, false, false)
  }

  /** A mouse-down: the Start/Pause button is tested first, then the grid, then
      the Instructions button; anything else is ignored. */
  function MouseDown(s: State, button: int, x: int, y: int): State
    requires Valid(s)
  {
    if OnStartButton(x, y) then
      if IsToggleButton(button) then s.(simulationRunning := !s.simulationRunning) else s
    else if OnGrid(x, y) then
      if button == LeftButton then s.(grid := SetCell(s.grid, CellIndex(y), CellIndex(x), 1))
      else if button == RightButton then s.(grid := SetCell(s.grid, CellIndex(y), CellIndex(x), 0))
      else s
    else if OnInstructionsButton(x, y) then
      if IsToggleButton(button) then s.(showInstructions := !s.showInstructions) else s
    else
      s
  }

  /** One event of the main loop's event queue. */
  function OnEvent(s: State, e: Event): (t: State)
    requires Valid(s)
    ensures Valid(t)
  {
    match e
    case Quit => s.(running := false)
    case MouseButtonDown(button, x, y) => MouseDown(s, button, x, y)
    case KeyDown(key) => if key == ReturnKey then s.(grid := Life.Step(s.grid)) else s
    case OtherEvent => s
  }

  /** The events of one frame, handled in order. */
  function OnEvents(s: State, events: seq<Event>): (t: State)
    requires Valid(s)
    ensures Valid(t)
    decreases |events|
  {
    if events == [] then s
    else OnEvent(OnEvents(s, events[..|events| - 1]), events[|events| - 1])
  }

  /** The end of the event handling of a frame: one generation when running. */
  function Tick(s: State): (t: State)
    requires Valid(s)
    ensures Valid(t)
  {
    if s.simulationRunning then s.(grid := Life.Step(s.grid)) else s
  }

  /** One pass of the main loop, leaving out drawing: its events, then the tick. */
  function Frame(s: State, events: seq<Event>): (t: State)
    requires Valid(s)
    ensures Valid(t)
  {
    Tick(OnEvents(s, events))
  }

  /** The main loop over the event batches of successive frames: it runs while
      `running` holds and stops after the frame in which it was cleared. */
  function Session(s: State, frames: seq<seq<Event>>): (t: State)
    requires Valid(s)
    ensures Valid(t)
    decreases |frames|
  {
    if frames == [] || !s.running then s
    else Session(Frame(s, frames[0]), frames[1..])
  }

  /** A pixel belongs to cell k exactly when it lies in the cell drawn at
      CellOrigin(k): input and drawing use the same mapping. */
  lemma CellOfPixel(p: int, k: int)
    ensures CellIndex(p) == k <==> CellOrigin(k) <= p < CellOrigin(k) + CellSize
  {
  }

  /** A pixel falls on the grid exactly when it lies in the 900 x 900 grid area. */
  lemma OnGridArea(x: int, y: int)
    ensures OnGrid(x, y) <==> 0 <= x < GridSize * CellSize && 0 <= y < GridSize * CellSize
  {
  }

  /** No pixel is in two of the three regions, so the order of the tests
      decides nothing. */
  lemma RegionsDisjoint(x: int, y: int)
    ensures !(OnStartButton(x, y) && OnGrid(x, y))
    ensures !(OnStartButton(x, y) && OnInstructionsButton(x, y))
    ensures !(OnGrid(x, y) && OnInstructionsButton(x, y))
  {
  }

  /** A left click anywhere inside the drawn square of cell (row, col) makes
      that cell alive and changes nothing else. */
  lemma LeftClickDraws(s: State, row: nat, col: nat, x: int, y: int)
    requires Valid(s) && row < GridSize && col < GridSize
    requires CellOrigin(col) <= x < CellOrigin(col) + CellSize
    requires CellOrigin(row) <= y < CellOrigin(row) + CellSize
    ensures OnEvent(s, MouseButtonDown(LeftButton, x, y)) == s.(grid := SetCell(s.grid, row, col, 1))
  {
  }

  /** A right click anywhere inside the drawn square of cell (row, col) makes
      that cell dead and changes nothing else. */
  lemma RightClickErases(s: State, row: nat, col: nat, x: int, y: int)
    requires Valid(s) && row < GridSize && col < GridSize
    requires CellOrigin(col) <= x < CellOrigin(col) + CellSize
    requires CellOrigin(row) <= y < CellOrigin(row) + CellSize
    ensures OnEvent(s, MouseButtonDown(RightButton, x, y)) == s.(grid := SetCell(s.grid, row, col, 0))
  {
  }

  /** A click on the Start/Pause button flips the simulation flag exactly when
      it is a left or right click; the grid and the other flags stay. */
  lemma StartButtonToggles(s: State, button: int, x: int, y: int)
    requires Valid(s) && OnStartButton(x, y)
    ensures var t := OnEvent(s, MouseButtonDown(button, x, y));
      t.grid == s.grid && t.running == s.running && t.showInstructions == s.showInstructions &&
      (t.simulationRunning != s.simulationRunning <==> IsToggleButton(button))
  {
  }

  /** A click on the Instructions button flips the overlay flag exactly when
      it is a left or right click; the grid and the other flags stay. */
  lemma InstructionsButtonToggles(s: State, button: int, x: int, y: int)
    requires Valid(s) && OnInstructionsButton(x, y)
    ensures var t := OnEvent(s, MouseButtonDown(button, x, y));
      t.grid == s.grid && t.running == s.running && t.simulationRunning == s.simulationRunning &&
      (t.showInstructions != s.showInstructions <==> IsToggleButton(button))
  {
  }

  /** A mouse-down outside the grid area and outside the button strip changes nothing. */
  lemma OutsideClickIgnored(s: State, button: int, x: int, y: int)
    requires Valid(s)
    requires !(0 <= x < WindowWidth && 0 <= y < GridSize * CellSize)
    requires !(0 <= x <= WindowWidth && GridSize * CellSize <= y <= GridSize * CellSize + StripHeight)
    ensures OnEvent(s, MouseButtonDown(button, x, y)) == s
  {
  }

  /** A mouse-down with any button other than left or right changes nothing. */
  lemma OtherButtonIgnored(s: State, button: int, x: int, y: int)
    requires Valid(s) && button != LeftButton && button != RightButton
    ensures OnEvent(s, MouseButtonDown(button, x, y)) == s
  {
  }

  /** Once `running` is cleared no later event sets it again. */
  lemma {:induction false} StoppedStaysStopped(s: State, events: seq<Event>)
    requires Valid(s) && !s.running
    ensures !OnEvents(s, events).running
    decreases |events|
  {
    if events != [] {
      StoppedStaysStopped(s, events[..|events| - 1]);
    }
  }

  /** A Quit anywhere among a frame's events clears `running` by the end of it. */
  lemma {:induction false} QuitStopsFrame(s: State, events: seq<Event>)
    requires Valid(s) && Quit in events
    ensures !Frame(s, events).running
    ensures !OnEvents(s, events).running
    decreases |events|
  {
    var last := |events| - 1;
    var init := events[..last];
    if events[last] == Quit {
    } else {
      assert events == init + [events[last]];
      assert Quit in init;
      QuitStopsFrame(s, init);
    }
  }

  /** The session ends with the first frame that holds a Quit: later frames are never run. */
  lemma QuitEndsSession(s: State, frames: seq<seq<Event>>)
    requires Valid(s) && s.running && |frames| > 0 && Quit in frames[0]
    ensures Session(s, frames) == Frame(s, frames[0])
  {
    QuitStopsFrame(s, frames[0]);
  }
}
