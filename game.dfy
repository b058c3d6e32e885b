/**
 * The game lifecycle of source/game.cpp: Game::setGameState stores a new
 * state unless the game is already shutting down; entering SHUTDOWN queues
 * the shutdown task and stops the scheduler and the dispatcher.
 */
module Game {

  /** GameState_t, in declaration order. */
  datatype GameState = Startup | Init | Normal | Closed | Shutdown | Closing | Maintain

  /** The state setGameState(newState) leaves behind. */
  function NextState(current: GameState, newState: GameState): (r: GameState)
    ensures current == Shutdown ==> r == Shutdown
    ensures current != Shutdown ==> r == newState
  {
    if current == Shutdown then current
    else if current == newState then current
    else newState
  }

  /** Whether setGameState(newState) queues Game::shutdown and stops the threads. */
  predicate EntersShutdown(current: GameState, newState: GameState)
  {
    current != Shutdown && current != newState && newState == Shutdown
  }

  /** The state after a series of setGameState calls. */
  function Run(start: GameState, calls: seq<GameState>): GameState
    decreases |calls|
  {
    if |calls| == 0 then start else Run(NextState(start, calls[0]), calls[1..])
  }

  /** How many shutdown tasks a series of setGameState calls queues. */
  function ShutdownTasks(start: GameState, calls: seq<GameState>): nat
    decreases |calls|
  {
    if |calls| == 0 then 0
    else (if EntersShutdown(start, calls[0]) then 1 else 0) + ShutdownTasks(NextState(start, calls[0]), calls[1..])
  }

  /** SHUTDOWN is absorbing: no series of calls leaves it. */
  lemma {:induction false} ShutdownAbsorbing(calls: seq<GameState>)
    ensures Run(Shutdown, calls) == Shutdown
    ensures ShutdownTasks(Shutdown, calls) == 0
  {
    if |calls| > 0 {
      ShutdownAbsorbing(calls[1..]);
    }
  }

  /** Whatever the calls, the shutdown task is queued at most once. */
  lemma {:induction false} ShutdownQueuedAtMostOnce(start: GameState, calls: seq<GameState>)
    ensures ShutdownTasks(start, calls) <= 1
    ensures ShutdownTasks(start, calls) == 1 <==> start != Shutdown && Shutdown in calls
    decreases |calls|
  {
    if |calls| > 0 {
      var next := NextState(start, calls[0]);
      ShutdownQueuedAtMostOnce(next, calls[1..]);
      if next == Shutdown {
        ShutdownAbsorbing(calls[1..]);
      }
    }
  }

  /** Running one more call continues from the state the earlier calls left. */
  lemma {:induction false} RunSnoc(start: GameState, calls: seq<GameState>, newState: GameState)
    ensures Run(start, calls + [newState]) == NextState(Run(start, calls), newState)
    ensures ShutdownTasks(start, calls + [newState])
      == ShutdownTasks(start, calls) + (if EntersShutdown(Run(start, calls), newState) then 1 else 0)
    decreases |calls|
  {
    if |calls| > 0 {
      assert (calls + [newState])[1..] == calls[1..] + [newState];
      RunSnoc(NextState(start, calls[0]), calls[1..], newState);
    }
  }

  /**
   * The state is the last one stored: SHUTDOWN once it was asked for from
   * outside SHUTDOWN, otherwise the last state asked for.
   */
  lemma {:induction false} RunIsLastStored(start: GameState, calls: seq<GameState>)
    requires start != Shutdown
    ensures Shutdown in calls ==> Run(start, calls) == Shutdown
    ensures Shutdown !in calls && calls != [] ==> Run(start, calls) == calls[|calls| - 1]
    ensures calls == [] ==> Run(start, calls) == start
    decreases |calls|
  {
    if |calls| > 0 {
      var next := NextState(start, calls[0]);
      if next == Shutdown {
        ShutdownAbsorbing(calls[1..]);
      } else {
        RunIsLastStored(next, calls[1..]);
      }
    }
  }

  /** Side effects on the logic threads, as far as setGameState causes them. */
  datatype Task = ShutdownTask

  class Game {
    var gameState: GameState
    /** Tasks queued on the dispatcher. */
    var dispatcherTasks: seq<Task>
    var schedulerStopped: bool
    var dispatcherStopped: bool
    /** Every setGameState call so far, in order. */
    ghost var calls: seq<GameState>

    /**
     * The state is what the calls so far lead to from STARTUP, one shutdown
     * task is queued per entry into SHUTDOWN, and the threads are stopped
     * exactly in SHUTDOWN.
     */
    ghost predicate Valid()
      reads this
    {
      && gameState == Run(Startup, calls)
      && |dispatcherTasks| == ShutdownTasks(Startup, calls)
      && schedulerStopped == (gameState == Shutdown)
      && dispatcherStopped == (gameState == Shutdown)
    }

    /**
     * m_gameState has no initialiser; the one Game is a global object, so it
     * starts zero-initialised, that is GAME_STATE_STARTUP.
     */
    constructor ()
      ensures Valid() && calls == []
      ensures gameState == Startup && dispatcherTasks == []
      ensures !schedulerStopped && !dispatcherStopped
    {
      gameState := Startup;
      dispatcherTasks := [];
      schedulerStopped, dispatcherStopped := false, false;
      calls := [];
    }

    /** getGameState: the state the setGameState calls so far have stored. */
    function GetGameState(): (r: GameState)
      reads this
      requires Valid()
      ensures r == Run(Startup, calls)
    {
      gameState
    }

    method SetGameState(newState: GameState)
      requires Valid()
      modifies this
      ensures Valid() && calls == old(calls) + [newState]
      ensures gameState == NextState(old(gameState), newState)
      ensures if EntersShutdown(old(gameState), newState) then
          dispatcherTasks == old(dispatcherTasks) + [ShutdownTask] && schedulerStopped && dispatcherStopped
        else
          dispatcherTasks == old(dispatcherTasks)
          && schedulerStopped == old(schedulerStopped) && dispatcherStopped == old(dispatcherStopped)
    {
      RunSnoc(Startup, calls, newState);
      calls := calls + [newState];
      if gameState == Shutdown {
        return; // nothing leaves SHUTDOWN
      }
      if gameState == newState {
        return;
      }
      gameState := newState;
      match newState
      case Shutdown =>
        dispatcherTasks := dispatcherTasks + [ShutdownTask];
        schedulerStopped := true;
        dispatcherStopped := true;
      case _ =>
    }
  }

  /** However many calls a game has seen, it has queued at most one shutdown task. */
  lemma ShutdownTaskOnce(game: Game)
    requires game.Valid()
    ensures |game.dispatcherTasks| <= 1
    ensures |game.dispatcherTasks| == 1 <==> game.GetGameState() == Shutdown
  {
    ShutdownQueuedAtMostOnce(Startup, game.calls);
    RunIsLastStored(Startup, game.calls);
  }
}
