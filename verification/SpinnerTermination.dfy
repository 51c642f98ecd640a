// Every schedule of the spinner of internal/output/spinner.go comes to an end: a bound
// on the steps of any interleaving in terms of the ticks and calls in it, and what holds
// where no goroutine can go on.
module SpinnerTermination {
  import opened Options
  import opened Spinner

  /** What a schedule does next: a goroutine calls, or one takes its turn. */
  datatype Choice = Arrive(call: Pc) | Turn(t: Tid, tick: bool)

  ghost predicate Makes(s: State, choice: Choice, s': State) {
    match choice
    case Arrive(call) => IsCall(call) && s' == Call(s, call)
    case Turn(t, tick) => t in s.threads && Next(s, t, tick) == Some(s')
  }

  /** The choice is a tick: the ticker wakes up to redraw instead of to stop. */
  predicate IsTick(s: State, choice: Choice) {
    choice.Turn? && choice.tick && choice.t in s.threads && s.threads[choice.t].Select?
  }

  /** A run under a schedule. */
  ghost predicate Scheduled(run: seq<State>, choices: seq<Choice>) {
    && |run| == |choices| + 1
    && forall i :: 0 <= i < |choices| ==> Makes(run[i], choices[i], run[i + 1])
  }

  function Ticks(run: seq<State>, choices: seq<Choice>): nat
    requires |run| == |choices| + 1
  {
    if choices == [] then 0
    else
      var n := |choices| - 1;
      Ticks(run[..n + 1], choices[..n]) + if IsTick(run[n], choices[n]) then 1 else 0
  }

  function Arrivals(choices: seq<Choice>): nat {
    if choices == [] then 0
    else Arrivals(choices[..|choices| - 1]) + if choices[|choices| - 1].Arrive? then 1 else 0
  }

  // ------------------------------------------------------- the work ahead

  /** The steps a goroutine has ahead of it, those of the ticker it launches included,
      when it does not tick. */
  function Ahead(pc: Pc): nat {
    match pc
    case Done => 0
    case StartCall(_) => 10
    case StartLocked(_) => 9
    case StartAdd => 8
    case Spawn => 3
    case UpdateCall(_) => 6
    case UpdateLocked(_) => 5
    case StopCall => 8
    case StopLocked => 7
    case CloseChannel => 5
    case Wait => 4
    case ClearCall => 3
    case ClearLocked => 2
    case Select => 2
    case WgDone => 1
    case Redraw(after) => AfterUnlock(after) + 3
    case RedrawLocked(after) => AfterUnlock(after) + 2
    case Unlock(after) => AfterUnlock(after) + 1
  }

  function AfterUnlock(after: After): nat {
    match after
    case Return => 0
    case Launch => 3
    case Tick => 2
    case Close => 5
    case DrawThenReturn => 3
    case DrawThenLaunch => 6
  }

  /** The work ahead of the goroutines numbered below n. */
  function AheadBelow(threads: map<Tid, Pc>, n: nat): nat {
    if n == 0 then 0
    else AheadBelow(threads, n - 1) + if n - 1 in threads then Ahead(threads[n - 1]) else 0
  }

  function Load(s: State): nat {
    AheadBelow(s.threads, s.nextId)
  }

  lemma {:induction false} OneMoves(threads: map<Tid, Pc>, t: Tid, pc: Pc, n: nat)
    ensures AheadBelow(threads[t := pc], n) - AheadBelow(threads, n)
         == if t < n then Ahead(pc) - (if t in threads then Ahead(threads[t]) else 0) else 0
  {
    if n > 0 {
      OneMoves(threads, t, pc, n - 1);
    }
  }

  /** One turn of a goroutine, its own position taken for the work ahead. */
  ghost predicate UsesUp(s: State, t: Tid, tick: bool)
    requires t in s.threads && Next(s, t, tick).Some?
  {
    var s' := Next(s, t, tick).value;
    && s'.nextId == s.nextId && t in s'.threads && s'.threads == s.threads[t := s'.threads[t]]
    && Ahead(s'.threads[t]) + 1 <= Ahead(s.threads[t]) + if IsTick(s, Turn(t, tick)) then 4 else 0
  }

  lemma HolderAhead(s: State, t: Tid, tick: bool)
    requires t in s.threads && HoldsLock(s.threads[t]) && Next(s, t, tick).Some?
    ensures UsesUp(s, t, tick)
  {
  }

  lemma FreeAhead(s: State, t: Tid, tick: bool)
    requires t in s.threads && !HoldsLock(s.threads[t]) && !s.threads[t].Spawn? && Next(s, t, tick).Some?
    ensures UsesUp(s, t, tick)
  {
  }

  /** Every step but a tick or a call uses up some of the work ahead. */
  lemma StepLoad(s: State, choice: Choice, s': State)
    requires ThreadsOk(s) && Makes(s, choice, s')
    ensures Load(s') + 1 <= Load(s) + (if IsTick(s, choice) then 4 else 0) + (if choice.Arrive? then 11 else 0)
  {
    match choice
    case Arrive(call) =>
      OneMoves(s.threads, s.nextId, call, s.nextId);
    case Turn(t, tick) =>
      if s.threads[t].Spawn? {
        var mine := s.threads[t := Done];
        OneMoves(s.threads, t, Done, s.nextId);
        OneMoves(mine, s.nextId, Select, s.nextId);
      } else {
        if HoldsLock(s.threads[t]) {
          HolderAhead(s, t, tick);
        } else {
          FreeAhead(s, t, tick);
        }
        OneMoves(s.threads, t, s'.threads[t], s.nextId);
      }
  }

  lemma StepInv(s: State, choice: Choice, s': State)
    requires Inv(s) && Makes(s, choice, s')
    ensures Inv(s') && (s.roles.stopper.Some? ==> s'.roles.stopper == s.roles.stopper)
  {
    match choice
    case Arrive(call) =>
      CallInv(s, call);
    case Turn(t, tick) =>
      NextInv(s, t, tick);
      if s.roles.stopper.Some? && !s.threads[t].Spawn? {
        RolesSettled(s, t, tick);
      }
  }

  lemma ScheduledFront(run: seq<State>, choices: seq<Choice>)
    requires Scheduled(run, choices) && choices != []
    ensures Scheduled(run[..|choices|], choices[..|choices| - 1])
  {
  }

  /** No schedule is endless: whatever it chooses, its length is bounded by the work
      ahead at the start, its ticks and its calls. */
  lemma {:induction false} EveryScheduleEnds(run: seq<State>, choices: seq<Choice>)
    requires Scheduled(run, choices) && Inv(run[0])
    ensures Inv(run[|choices|])
    ensures run[0].roles.stopper.Some? ==> run[|choices|].roles.stopper == run[0].roles.stopper
    ensures |choices| + Load(run[|choices|]) <= Load(run[0]) + 4 * Ticks(run, choices) + 11 * Arrivals(choices)
    decreases |choices|
  {
    if choices != [] {
      var n := |choices| - 1;
      ScheduledFront(run, choices);
      EveryScheduleEnds(run[..n + 1], choices[..n]);
      assert Makes(run[n], choices[n], run[n + 1]);
      StepInv(run[n], choices[n], run[n + 1]);
      StepLoad(run[n], choices[n], run[n + 1]);
    }
  }

  // ---------------------------------------------- where nothing can go on

  /** No goroutine can step, other than the ticker to tick. */
  ghost predicate AtRest(s: State) {
    forall t :: t in s.threads ==> Next(s, t, false).None?
  }

  lemma HolderTurns(s: State)
    requires Inv(s) && s.mu.Some?
    ensures Next(s, s.mu.value, false).Some?
  {
    assert HoldsLock(s.threads[s.mu.value]);
  }

  /** A schedule that has come to rest after a Stop has set stopped has let it return,
      and every other goroutine with it. */
  lemma RestMeansStopped(s: State, t: Tid)
    requires Inv(s) && AtRest(s) && s.roles.stopper.Some? && t in s.threads
    ensures s.threads[t].Done?
  {
    if s.mu.Some? {
      HolderTurns(s);
    }
    var stopper := s.roles.stopper.value;
    if !s.threads[stopper].Done? {
      HelperCanStep(s);
    }
    assert s.threads[stopper].Done? && Next(s, t, false).None?;
  }

  /** Stop returns on every schedule. A schedule is bounded by its ticks and calls, and
      where it can go on no longer Stop has returned, the clear line has been written
      and no goroutine is left. */
  lemma StopReturns(run: seq<State>, choices: seq<Choice>)
    requires Scheduled(run, choices) && Inv(run[0]) && run[0].roles.stopper.Some?
    ensures |choices| <= Load(run[0]) + 4 * Ticks(run, choices) + 11 * Arrivals(choices)
    ensures var last := run[|choices|];
      AtRest(last) ==> Cleared(last) && forall t :: t in last.threads ==> last.threads[t].Done?
  {
    EveryScheduleEnds(run, choices);
    var last := run[|choices|];
    if AtRest(last) {
      forall t | t in last.threads ensures last.threads[t].Done? {
        RestMeansStopped(last, t);
      }
    }
  }
}
