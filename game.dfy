/** The turn logic of the memory game: the computer grows a self-avoiding
    trail and plays it back, the player retraces it by hovering over cells.
    Rendering is abstracted to the set of active cells and the sequence of
    drawn connectors; each delayed callback is a method fired by the event
    loop (`FireTimer`). */
module MemoryGame {
  import opened Grid

  /** The board's phase attribute; `NotStarted` is its value before the
      first game, when the attribute is still unset. */
  datatype Phase = NotStarted | ComputerTurn | AwaitingOrigin | PlayerTurn | GameOver

  /** A callback handed to the timer. */
  datatype Timer =
    | DisplayTrailTimer(index: nat)  // next playback step, one tick later
    | GoToOriginTimer                // end of playback, zero delay
    | BeginPlayerTurnTimer           // origin reached, zero delay
    | BeginComputerTurnTimer         // round completed, one tick later
    | YouLoseTimer                   // wrong cell, zero delay
  {
    predicate ZeroDelay() {
      GoToOriginTimer? || BeginPlayerTurnTimer? || YouLoseTimer?
    }
  }

  class Game {
    const rows: int
    const cols: int
    var Trail: seq<Cell>
    var PlayerTrailIndex: nat
    var phase: Phase
    /** Cells currently marked active on the board. */
    var active: set<Cell>
    /** Connectors currently drawn, in drawing order. */
    var lines: seq<Line>
    /** The callback waiting on the timer, if any. */
    var pending: Option<Timer>

    /** Active cells exist on the grid. */
    ghost predicate ActiveOnGrid()
      reads this
    {
      forall c :: c in active ==> InBounds(rows, cols, c)
    }

    /** Invariants that hold whatever the phase. */
    ghost predicate Structure()
      reads this
    {
      ValidDims(rows, cols) && ActiveOnGrid() &&
      PlayerTrailIndex <= |Trail| &&
      (phase == NotStarted ==> Trail == [] && active == {} && lines == [] && pending == None) &&
      (phase != NotStarted ==> ValidTrail(rows, cols, Trail)) &&
      (phase.ComputerTurn? || phase.AwaitingOrigin? || phase.PlayerTurn? ==> |Trail| >= 2)
    }

    /** The board shows exactly the first `k` cells of the trail and the
        connectors between them. */
    ghost predicate Shows(k: nat)
      reads this
      requires k <= |Trail|
    {
      active == CellsOf(Trail[..k]) && lines == Segments(Trail[..k])
    }

    /** How phase, board and pending callback fit together between events. */
    ghost predicate Scheduling()
      reads this
    {
      match phase
      case NotStarted => true
      case ComputerTurn =>
        pending.Some? &&
        (match pending.value
         case DisplayTrailTimer(k) => 1 <= k <= |Trail| && Shows(k)
         case GoToOriginTimer => Shows(|Trail|)
         case _ => false)
      case AwaitingOrigin =>
        (pending == None && active == {} && lines == []) ||
        (pending == Some(BeginPlayerTurnTimer) && PlayerTrailIndex == 1 && 1 <= |Trail| && Shows(1))
      case PlayerTurn =>
        1 <= PlayerTrailIndex <= |Trail| && Shows(PlayerTrailIndex) &&
        ((pending == None && PlayerTrailIndex < |Trail|) ||
         (pending == Some(YouLoseTimer) && PlayerTrailIndex < |Trail|) ||
         (pending == Some(BeginComputerTurnTimer) && PlayerTrailIndex == |Trail|))
      case GameOver => pending == None
    }

    ghost predicate Valid()
      reads this
    {
      Structure() && Scheduling()
    }

    /** The game's state once the board exists and before the first game. */
    constructor (rows: int, cols: int)
      requires ValidDims(rows, cols)
      ensures Valid()
      ensures this.rows == rows && this.cols == cols
      ensures Trail == [] && PlayerTrailIndex == 0 && phase == NotStarted
      ensures active == {} && lines == [] && pending == None
    {
      this.rows, this.cols := rows, cols;
      Trail, PlayerTrailIndex, phase := [], 0, NotStarted;
      active, lines, pending := {}, [], None;
    }

    // -------------------------------------------------------------------
    // Board primitives
    // -------------------------------------------------------------------

    /** `setCellState`: marks a cell active or inactive. */
    method SetCellState(cell: Cell, alive: bool)
      modifies this`active
      ensures active == if alive then old(active) + {cell} else old(active) - {cell}
    {
      if alive {
        active := active + {cell};
      } else {
        active := active - {cell};
      }
    }

    /** `drawLine`: adds a connector on top of those already drawn. */
    method DrawLine(start: Cell, end: Cell)
      modifies this`lines
      ensures lines == old(lines) + [(start, end)]
    {
      lines := lines + [(start, end)];
    }

    /** `clearBoard`: deactivates every cell of the grid, then removes the
        drawn connectors one by one. The result does not depend on the
        board before, so clearing twice is clearing once. */
    method ClearBoard()
      requires ValidDims(rows, cols) && ActiveOnGrid()
      modifies this`active, this`lines
      ensures active == {} && lines == []
    {
      for row := 0 to rows
        invariant ActiveOnGrid()
        invariant forall c :: c in active ==> c.0 >= row
      {
        for col := 0 to cols
          invariant ActiveOnGrid()
          invariant forall c :: c in active ==> c.0 > row || (c.0 == row && c.1 >= col)
        {
          SetCellState((row, col), false);
        }
      }
      while |lines| > 0
        modifies this`lines
        decreases |lines|
      {
        lines := lines[1..];
      }
    }

    // -------------------------------------------------------------------
    // Trail growth
    // -------------------------------------------------------------------

    /** `extendTrail`: appends the `choice`-th free neighbour of the last
        cell, or, when there is none, declares the game won and reports it. */
    method ExtendTrail(choice: nat) returns (victory: bool)
      requires ValidTrail(rows, cols, Trail)
      requires ChoiceFits(rows, cols, Trail, choice)
      modifies this`Trail, this`phase
      ensures ValidTrail(rows, cols, Trail)
      ensures var free := FreeNeighbours(rows, cols, old(Trail), Last(old(Trail)));
              victory == (free == []) &&
              (victory ==> Trail == old(Trail) && phase == GameOver) &&
              (!victory ==> Trail == old(Trail) + [free[choice]] && phase == old(phase))
    {
      var lastCoords := Trail[|Trail| - 1];
      var possibleCoords := FindFreeNeighbours(rows, cols, Trail, lastCoords.0, lastCoords.1);
      if possibleCoords.None? {
        YouWin();
        return true;
      }
      var next := possibleCoords.value[choice];
      ExtendKeepsValid(rows, cols, Trail, next);
      Trail := Trail + [next];
      victory := false;
    }

    // -------------------------------------------------------------------
    // Phase transitions
    // -------------------------------------------------------------------

    /** `displayTrail`: one playback step. Shows cell `index` and the
        connector from its predecessor, then schedules the next step; past
        the end, schedules the move to the origin wait instead. */
    method DisplayTrail(index: nat)
      requires Structure() && phase == ComputerTurn && pending == None
      requires index <= |Trail| && Shows(index)
      modifies this`active, this`lines, this`pending
      ensures Valid()
      ensures index == |Trail| ==>
                active == old(active) && lines == old(lines) && pending == Some(GoToOriginTimer)
      ensures index < |Trail| ==>
                active == old(active) + {Trail[index]} &&
                lines == old(lines) + (if index == 0 then [] else [(Trail[index - 1], Trail[index])]) &&
                pending == Some(DisplayTrailTimer(index + 1))
    {
      if index >= |Trail| {
        pending := Some(GoToOriginTimer);
        return;
      }
      var cell := Trail[index];
      SetCellState(cell, true);
      if index > 0 {
        DrawLine(Trail[index - 1], cell);
      }
      PrefixStep(Trail, index);
      pending := Some(DisplayTrailTimer(index + 1));
    }

    /** `beginComputerTurn`: clears the board and grows the trail; a trail
        that cannot grow ends the game as won, otherwise playback starts. */
    method BeginComputerTurn(choice: nat)
      requires ValidDims(rows, cols) && ActiveOnGrid() && ValidTrail(rows, cols, Trail)
      requires PlayerTrailIndex <= |Trail| && pending == None
      requires ChoiceFits(rows, cols, Trail, choice)
      modifies this`Trail, this`phase, this`active, this`lines, this`pending
      ensures Valid()
      ensures var free := FreeNeighbours(rows, cols, old(Trail), Last(old(Trail)));
              if free == [] then
                Trail == old(Trail) && phase == GameOver &&
                active == {} && lines == [] && pending == None
              else
                Trail == old(Trail) + [free[choice]] && phase == ComputerTurn &&
                active == {Trail[0]} && lines == [] && pending == Some(DisplayTrailTimer(1))
    {
      phase := ComputerTurn;
      ClearBoard();
      var victory := ExtendTrail(choice);
      if victory {
        YouWin();
      } else {
        DisplayTrail(0);
      }
    }

    /** `goToOrigin`: clears the board and waits for the player at the origin. */
    method GoToOrigin()
      requires Structure() && phase == ComputerTurn && pending == None
      modifies this`active, this`lines, this`phase
      ensures Valid()
      ensures phase == AwaitingOrigin && active == {} && lines == []
    {
      ClearBoard();
      phase := AwaitingOrigin;
    }

    /** `beginPlayerTurn`: the player, already on the origin, starts tracing. */
    method BeginPlayerTurn()
      requires Structure() && phase == AwaitingOrigin && pending == None
      requires PlayerTrailIndex == 1 && Shows(1)
      modifies this`phase
      ensures Valid()
      ensures phase == PlayerTurn
    {
      phase := PlayerTurn;
    }

    /** `youLose`: the game is over; the board keeps what the player traced. */
    method YouLose()
      modifies this`phase
      ensures phase == GameOver
    {
      phase := GameOver;
    }

    /** `youWin`: the game is over because the trail cannot grow. */
    method YouWin()
      modifies this`phase
      ensures phase == GameOver
    {
      phase := GameOver;
    }

    /** `startNewGame`: whatever the state, restarts from the origin alone
        with no progress and begins a computer turn. A callback still on the
        timer from the abandoned game is dropped. */
    method StartNewGame(choice: nat)
      requires Valid()
      requires ChoiceFits(rows, cols, [Origin(rows, cols)], choice)
      modifies this`Trail, this`PlayerTrailIndex, this`phase, this`active, this`lines, this`pending
      ensures Valid() && PlayerTrailIndex == 0
      ensures var o := Origin(rows, cols);
              var free := FreeNeighbours(rows, cols, [o], o);
              if free == [] then
                Trail == [o] && phase == GameOver &&
                active == {} && lines == [] && pending == None
              else
                Trail == [o, free[choice]] && phase == ComputerTurn &&
                active == {o} && lines == [] && pending == Some(DisplayTrailTimer(1))
    {
      StartTrailValid(rows, cols);
      Trail := [Origin(rows, cols)];
      PlayerTrailIndex := 0;
      pending := None;
      BeginComputerTurn(choice);
    }

    // -------------------------------------------------------------------
    // Events
    // -------------------------------------------------------------------

    /** `touchCell`: the pointer entered `cell`. At the origin wait, the
        origin starts the player's turn. During the player's turn an inactive
        cell is compared with the next trail cell: a match is traced (and the
        last one completes the round), anything else loses. Every other touch
        is ignored. Once the whole trail is traced and the next computer turn
        has not begun, the source reads past the end of the trail and throws
        before changing anything: `outOfRange` reports that. Callbacks with
        zero delay are taken to run before the next pointer event. */
    method Touch(cell: Cell) returns (outOfRange: bool)
      requires Valid()
      requires !(pending.Some? && pending.value.ZeroDelay())
      modifies this`active, this`lines, this`PlayerTrailIndex, this`pending
      ensures Valid()
      ensures outOfRange <==>
                old(phase) == PlayerTurn && cell !in old(active) && old(PlayerTrailIndex) == |Trail|
      ensures old(phase) == AwaitingOrigin && cell == Origin(rows, cols) ==>
                active == old(active) + {cell} && lines == old(lines) &&
                PlayerTrailIndex == 1 && pending == Some(BeginPlayerTurnTimer)
      ensures old(phase) == PlayerTurn && cell !in old(active) && old(PlayerTrailIndex) < |Trail| ==>
                if cell == Trail[old(PlayerTrailIndex)] then
                  active == old(active) + {cell} &&
                  lines == old(lines) + [(Trail[old(PlayerTrailIndex) - 1], cell)] &&
                  PlayerTrailIndex == old(PlayerTrailIndex) + 1 &&
                  pending == (if PlayerTrailIndex == |Trail| then Some(BeginComputerTurnTimer) else None)
                else
                  active == old(active) && lines == old(lines) &&
                  PlayerTrailIndex == old(PlayerTrailIndex) && pending == Some(YouLoseTimer)
      ensures !(old(phase) == AwaitingOrigin && cell == Origin(rows, cols)) &&
              !(old(phase) == PlayerTurn && cell !in old(active) && old(PlayerTrailIndex) < |Trail|) ==>
                active == old(active) && lines == old(lines) &&
                PlayerTrailIndex == old(PlayerTrailIndex) && pending == old(pending)
    {
      outOfRange := false;
      if phase == AwaitingOrigin && cell == Origin(rows, cols) {
        ReachOrigin();
      } else if phase == PlayerTurn && cell !in active {
        if PlayerTrailIndex >= |Trail| {
          return true;
        }
        TraceCell(cell);
      }
    }

    /** The origin branch of `touchCell`: the origin lights up, progress is
        one cell, and the player's turn is scheduled. */
    method ReachOrigin()
      requires Valid() && phase == AwaitingOrigin && pending == None
      modifies this`active, this`PlayerTrailIndex, this`pending
      ensures Valid()
      ensures active == old(active) + {Origin(rows, cols)} && active == {Trail[0]}
      ensures PlayerTrailIndex == 1 && pending == Some(BeginPlayerTurnTimer)
    {
      SetCellState(Origin(rows, cols), true);
      PlayerTrailIndex := 1;
      pending := Some(BeginPlayerTurnTimer);
    }

    /** The player-turn branch of `touchCell` for an inactive cell while
        trail cells remain: a match is traced, anything else loses. */
    method TraceCell(cell: Cell)
      requires Valid() && phase == PlayerTurn && pending == None
      requires PlayerTrailIndex < |Trail| && cell !in active
      modifies this`active, this`lines, this`PlayerTrailIndex, this`pending
      ensures Valid()
      ensures if cell == Trail[old(PlayerTrailIndex)] then
                active == old(active) + {cell} &&
                lines == old(lines) + [(Trail[old(PlayerTrailIndex) - 1], cell)] &&
                PlayerTrailIndex == old(PlayerTrailIndex) + 1 &&
                pending == (if PlayerTrailIndex == |Trail| then Some(BeginComputerTurnTimer) else None)
              else
                active == old(active) && lines == old(lines) &&
                PlayerTrailIndex == old(PlayerTrailIndex) && pending == Some(YouLoseTimer)
    {
      var correct := Trail[PlayerTrailIndex];
      if cell == correct {
        assert InBounds(rows, cols, correct);
        SetCellState(cell, true);
        DrawLine(Trail[PlayerTrailIndex - 1], correct);
        PrefixStep(Trail, PlayerTrailIndex);
        PlayerTrailIndex := PlayerTrailIndex + 1;
        assert Shows(PlayerTrailIndex);
        if PlayerTrailIndex == |Trail| {
          pending := Some(BeginComputerTurnTimer);
          return;
        }
      } else {
        pending := Some(YouLoseTimer);
      }
    }

    /** The event loop fires the callback on the timer. `choice` is the
        random pick used when that callback grows the trail. */
    method FireTimer(choice: nat)
      requires Valid() && pending.Some?
      requires pending.value == BeginComputerTurnTimer ==> ChoiceFits(rows, cols, Trail, choice)
      modifies this`Trail, this`phase, this`active, this`lines, this`pending
      ensures Valid() && PlayerTrailIndex == old(PlayerTrailIndex)
      ensures match old(pending.value)
              case DisplayTrailTimer(k) =>
                phase == ComputerTurn && Trail == old(Trail) &&
                if k < |Trail| then
                  active == old(active) + {Trail[k]} &&
                  lines == old(lines) + [(Trail[k - 1], Trail[k])] &&
                  pending == Some(DisplayTrailTimer(k + 1))
                else
                  active == old(active) && lines == old(lines) && pending == Some(GoToOriginTimer)
              case GoToOriginTimer =>
                phase == AwaitingOrigin && Trail == old(Trail) &&
                active == {} && lines == [] && pending == None
              case BeginPlayerTurnTimer =>
                phase == PlayerTurn && Trail == old(Trail) &&
                active == old(active) && lines == old(lines) && pending == None
              case BeginComputerTurnTimer =>
                var free := FreeNeighbours(rows, cols, old(Trail), Last(old(Trail)));
                if free == [] then
                  Trail == old(Trail) && phase == GameOver &&
                  active == {} && lines == [] && pending == None
                else
                  Trail == old(Trail) + [free[choice]] && phase == ComputerTurn &&
                  active == {Trail[0]} && lines == [] && pending == Some(DisplayTrailTimer(1))
              case YouLoseTimer =>
                phase == GameOver && Trail == old(Trail) &&
                active == old(active) && lines == old(lines) && pending == None
    {
      var timer := pending.value;
      pending := None;
      match timer
      case DisplayTrailTimer(index) => DisplayTrail(index);
      case GoToOriginTimer => GoToOrigin();
      case BeginPlayerTurnTimer => BeginPlayerTurn();
      case BeginComputerTurnTimer => BeginComputerTurn(choice);
      case YouLoseTimer => YouLose();
    }

    /** Firing the playback steps one after another, from any step on the
        timer, ends with the whole trail and every connector on the board
        and the origin wait scheduled. */
    method PlayRemainingTrail()
      requires Valid() && phase == ComputerTurn
      requires pending.Some? && pending.value.DisplayTrailTimer?
      modifies this`Trail, this`phase, this`active, this`lines, this`pending
      ensures Valid() && phase == ComputerTurn && Trail == old(Trail)
      ensures pending == Some(GoToOriginTimer)
      ensures active == CellsOf(Trail) && lines == Segments(Trail)
      decreases |Trail| - pending.value.index
    {
      FireTimer(0);
      if pending.value.DisplayTrailTimer? {
        PlayRemainingTrail();
      } else {
        assert Trail[..|Trail|] == Trail;
      }
    }

    /** A player who touches the remaining trail cells in order completes
        the round: the whole trail is traced and drawn, and the next
        computer turn is on the timer. */
    method TraceRemainingTrail()
      requires Valid() && phase == PlayerTurn && pending == None
      modifies this`active, this`lines, this`PlayerTrailIndex, this`pending
      ensures Valid() && phase == PlayerTurn && Trail == old(Trail)
      ensures PlayerTrailIndex == |Trail| && pending == Some(BeginComputerTurnTimer)
      ensures active == CellsOf(Trail) && lines == Segments(Trail)
      decreases |Trail| - PlayerTrailIndex
    {
      NextCellInactive(Trail, PlayerTrailIndex);
      var outOfRange := Touch(Trail[PlayerTrailIndex]);
      if PlayerTrailIndex < |Trail| {
        TraceRemainingTrail();
      } else {
        assert Trail[..|Trail|] == Trail;
      }
    }
  }
}
