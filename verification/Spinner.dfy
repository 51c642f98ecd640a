// The concurrent progress spinner of internal/output/spinner.go as an
// interleaving of atomic steps: any number of Start, Update and Stop callers and
// the ticker goroutine share one mutex, a WaitGroup and a stop channel.
module Spinner {
  import opened Options

  type Tid = nat

  datatype Write = Frame(index: nat, text: string) | Clear(width: nat)

  /** Where a goroutine continues after redraw or after releasing the lock. */
  datatype After = Return | Launch | Tick | Close | DrawThenReturn | DrawThenLaunch

  /** Where a goroutine stands. */
  datatype Pc =
    | Done
    | StartCall(text: string)
    | StartLocked(text: string)
    | StartAdd                // started is set, wg.Add(1) is next
    | Spawn                   // go s.run() is next
    | UpdateCall(text: string)
    | UpdateLocked(text: string)
    | StopCall
    | StopLocked
    | CloseChannel
    | Wait
    | ClearCall
    | ClearLocked
    | Select                  // the ticker, waiting for a tick or the stop channel
    | WgDone
    | Redraw(after: After)
    | RedrawLocked(after: After)
    | Unlock(after: After)

  function Resume(after: After): Pc {
    match after
    case Return => Done
    case Launch => Spawn
    case Tick => Select
    case Close => CloseChannel
    case DrawThenReturn => Redraw(Return)
    case DrawThenLaunch => Redraw(Launch)
  }

  /** The spinner's fields and what it has written. */
  datatype Shared = Shared(
    text: string, frame: nat, started: bool, stopped: bool, lastWidth: nat,
    closes: nat, wg: int, writes: seq<Write>)

  /** Which goroutine set started, which one ticks, and which one set stopped. */
  datatype Roles = Roles(starter: Option<Tid>, ticker: Option<Tid>, stopper: Option<Tid>)

  datatype State = State(active: bool, mu: Option<Tid>, shared: Shared, roles: Roles, threads: map<Tid, Pc>, nextId: Tid)

  function LineWidth(text: string): nat {
    |text| + 2
  }

  function Go(s: State, t: Tid, pc: Pc): State {
    s.(threads := s.threads[t := pc])
  }

  function With(s: State, t: Tid, pc: Pc, shared: Shared): State {
    s.(threads := s.threads[t := pc], shared := shared)
  }

  function Acquire(s: State, t: Tid, pc: Pc): Option<State> {
    if s.mu.None? then Some(s.(threads := s.threads[t := pc], mu := Some(t))) else None
  }

  /** The step goroutine t can take, if any; tick chooses the select case. */
  function Next(s: State, t: Tid, tick: bool): Option<State>
    requires t in s.threads
  {
    var x := s.shared;
    match s.threads[t]
    case Done => None
    case StartCall(text) =>
      if !s.active then Some(Go(s, t, Done)) else Acquire(s, t, StartLocked(text))
    case StartLocked(text) =>
      if x.started || x.stopped then Some(Go(s, t, Unlock(Return)))
      else Some(With(s, t, StartAdd, x.(text := text, started := true)).(roles := s.roles.(starter := Some(t))))
    case StartAdd =>
      Some(With(s, t, Unlock(DrawThenLaunch), x.(wg := x.wg + 1)))
    case Spawn =>
      Some(s.(threads := s.threads[t := Done][s.nextId := Select], nextId := s.nextId + 1,
              roles := s.roles.(ticker := Some(s.nextId))))
    case UpdateCall(text) =>
      if !s.active then Some(Go(s, t, Done)) else Acquire(s, t, UpdateLocked(text))
    case UpdateLocked(text) =>
      if x.stopped then Some(Go(s, t, Unlock(Return)))
      else Some(With(s, t, Unlock(DrawThenReturn), x.(text := text)))
    case StopCall =>
      if !s.active then Some(Go(s, t, Done)) else Acquire(s, t, StopLocked)
    case StopLocked =>
      if !x.started || x.stopped then Some(Go(s, t, Unlock(Return)))
      else Some(With(s, t, Unlock(Close), x.(stopped := true)).(roles := s.roles.(stopper := Some(t))))
    case CloseChannel =>
      Some(With(s, t, Wait, x.(closes := x.closes + 1)))
    case Wait =>
      if x.wg == 0 then Some(Go(s, t, ClearCall)) else None
    case ClearCall =>
      Acquire(s, t, ClearLocked)
    case ClearLocked =>
      Some(With(s, t, Unlock(Return), x.(writes := x.writes + [Clear(if x.lastWidth > 1 then x.lastWidth else 1)])))
    case Select =>
      if tick then Some(Go(s, t, Redraw(Tick)))
      else if x.closes > 0 then Some(Go(s, t, WgDone))
      else None
    case WgDone =>
      Some(With(s, t, Done, x.(wg := x.wg - 1)))
    case Redraw(after) =>
      Acquire(s, t, RedrawLocked(after))
    case RedrawLocked(after) =>
      if !s.active || x.stopped then Some(Go(s, t, Unlock(after)))
      else Some(With(s, t, Unlock(after), x.(frame := x.frame + 1, lastWidth := LineWidth(x.text),
                                             writes := x.writes + [Frame(x.frame, x.text)])))
    case Unlock(after) =>
      Some(Go(s, t, Resume(after)).(mu := None))
  }

  predicate IsCall(pc: Pc) {
    pc.StartCall? || pc.UpdateCall? || pc.StopCall?
  }

  /** A new goroutine calls Start, Update or Stop. */
  function Call(s: State, call: Pc): State {
    Go(s, s.nextId, call).(nextId := s.nextId + 1)
  }

  ghost predicate Step(s: State, s': State) {
    || (exists call :: IsCall(call) && s' == Call(s, call))
    || (exists t, tick :: t in s.threads && Next(s, t, tick) == Some(s'))
  }

  /** NewSpinner */
  predicate Init(s: State) {
    && s.mu.None? && s.shared.frame == 0 && !s.shared.started && !s.shared.stopped && s.shared.lastWidth == 0
    && s.shared.closes == 0 && s.shared.wg == 0 && s.shared.writes == [] && s.threads == map[]
    && s.roles.starter.None? && s.roles.ticker.None? && s.roles.stopper.None?
  }

  ghost predicate StepAt(run: seq<State>, i: nat)
    requires i + 1 < |run|
  {
    Step(run[i], run[i + 1])
  }

  /** A run from NewSpinner, in any interleaving. */
  ghost predicate Run(run: seq<State>) {
    && run != [] && Init(run[0])
    && forall i: nat :: i + 1 < |run| ==> StepAt(run, i)
  }

  // ------------------------------------------------------------ invariant

  predicate HoldsLock(pc: Pc) {
    pc.StartLocked? || pc.StartAdd? || pc.UpdateLocked? || pc.StopLocked? || pc.ClearLocked?
    || pc.RedrawLocked? || pc.Unlock?
  }

  /** Between setting started and launching the ticker. */
  predicate Starting(pc: Pc) {
    match pc
    case StartAdd => true
    case Spawn => true
    case Redraw(after) => after.Launch?
    case RedrawLocked(after) => after.Launch?
    case Unlock(after) => after.Launch? || after.DrawThenLaunch?
    case _ => false
  }

  predicate Ticking(pc: Pc) {
    match pc
    case Select => true
    case WgDone => true
    case Redraw(after) => after.Tick?
    case RedrawLocked(after) => after.Tick?
    case Unlock(after) => after.Tick?
    case _ => false
  }

  /** Between setting stopped and writing the clear line. */
  predicate Stopping(pc: Pc) {
    match pc
    case CloseChannel => true
    case Wait => true
    case ClearCall => true
    case ClearLocked => true
    case Unlock(after) => after.Close?
    case _ => false
  }

  /** redraw returns to its caller, to Start, or to the ticker loop. */
  predicate Continues(pc: Pc) {
    match pc
    case Redraw(after) => after.Return? || after.Launch? || after.Tick?
    case RedrawLocked(after) => after.Return? || after.Launch? || after.Tick?
    case _ => true
  }

  ghost predicate ThreadsOk(s: State) {
    && (forall t :: t in s.threads ==> t < s.nextId && Continues(s.threads[t]))
    && (forall t :: t in s.threads ==> (HoldsLock(s.threads[t]) <==> s.mu == Some(t)))
    && (s.mu.Some? ==> s.mu.value in s.threads)
    && (!s.active ==> forall t :: t in s.threads ==> s.threads[t].Done? || IsCall(s.threads[t]))
  }

  ghost predicate RolesOk(s: State) {
    && (forall t :: t in s.threads && Starting(s.threads[t]) ==> s.roles.starter == Some(t))
    && (forall t :: t in s.threads && Ticking(s.threads[t]) ==> s.roles.ticker == Some(t))
    && (forall t :: t in s.threads && Stopping(s.threads[t]) ==> s.roles.stopper == Some(t))
    && (s.roles.starter.Some? ==> s.roles.starter.value in s.threads)
    && (s.roles.ticker.Some? ==> s.roles.ticker.value in s.threads)
    && (s.roles.stopper.Some? ==> s.roles.stopper.value in s.threads)
    && (s.shared.started <==> s.roles.starter.Some?)
    && (s.shared.stopped <==> s.roles.stopper.Some?)
    && (s.shared.stopped ==> s.shared.started)
  }

  /** wg.Add has run and wg.Done has not. */
  ghost predicate Registered(s: State)
    requires RolesOk(s)
  {
    if s.roles.ticker.Some? then Ticking(s.threads[s.roles.ticker.value])
    else s.roles.starter.Some? && !s.threads[s.roles.starter.value].StartAdd?
  }

  /** The goroutine that set stopped is past wg.Wait. */
  predicate Joined(pc: Pc) {
    pc.ClearCall? || pc.ClearLocked? || !Stopping(pc)
  }

  ghost predicate TickerOk(s: State)
    requires RolesOk(s)
  {
    && (s.roles.starter.None? ==> s.roles.ticker.None?)
    && (s.roles.starter.Some? ==>
          var pc := s.threads[s.roles.starter.value];
          (Starting(pc) <==> s.roles.ticker.None?) && (Starting(pc) || pc.Done?))
    && (s.roles.ticker.Some? ==>
          var pc := s.threads[s.roles.ticker.value];
          (Ticking(pc) || pc.Done?) && (pc.WgDone? || pc.Done? ==> s.shared.closes == 1))
    && s.shared.wg == (if Registered(s) then 1 else 0)
  }

  ghost predicate StopperOk(s: State)
    requires RolesOk(s)
  {
    && (s.roles.stopper.None? ==> s.shared.closes == 0)
    && (s.roles.stopper.Some? ==>
          var pc := s.threads[s.roles.stopper.value];
          && (Stopping(pc) || pc == Unlock(Return) || pc.Done?)
          && s.shared.closes == (if pc == Unlock(Close) || pc.CloseChannel? then 0 else 1)
          && (Joined(pc) ==> s.shared.wg == 0)
          && !s.threads[s.roles.starter.value].StartAdd?)
  }

  predicate FramesInOrder(writes: seq<Write>) {
    forall i :: 0 <= i < |writes| ==> writes[i].Frame? && writes[i].index == i
  }

  predicate Cleared(s: State) {
    s.shared.writes != [] && s.shared.writes[|s.shared.writes| - 1].Clear?
  }

  /** The frames before the clear line, if it has been written. */
  function Frames(s: State): seq<Write> {
    if Cleared(s) then s.shared.writes[..|s.shared.writes| - 1] else s.shared.writes
  }

  ghost predicate OutputOk(s: State)
    requires RolesOk(s)
  {
    && FramesInOrder(Frames(s)) && |Frames(s)| == s.shared.frame
    && s.shared.lastWidth == (if s.shared.frame == 0 then 0 else LineWidth(Frames(s)[s.shared.frame - 1].text))
    && (Cleared(s) <==> s.roles.stopper.Some? && !Stopping(s.threads[s.roles.stopper.value]))
    && (Cleared(s) ==> s.shared.writes[|s.shared.writes| - 1].width == (if s.shared.lastWidth > 1 then s.shared.lastWidth else 1))
    && (!s.active ==> s.shared.writes == [])
  }

  ghost predicate Inv(s: State) {
    ThreadsOk(s) && RolesOk(s) && TickerOk(s) && StopperOk(s) && OutputOk(s)
  }

  lemma InitInv(s: State)
    requires Init(s)
    ensures Inv(s)
  {
  }

  lemma CallInv(s: State, call: Pc)
    requires Inv(s) && IsCall(call)
    ensures Inv(Call(s, call))
  {
  }

  /** Only goroutine t moves, to pc. */
  predicate Moved(s: State, s': State, t: Tid, pc: Pc) {
    t in s.threads && s'.threads == s.threads[t := pc] && s'.nextId == s.nextId && s'.active == s.active
  }

  lemma MovedThreads(s: State, s': State, t: Tid, pc: Pc)
    requires ThreadsOk(s) && Moved(s, s', t, pc) && Continues(pc)
    requires s'.mu == s.mu || (s.mu.None? && s'.mu == Some(t)) || (s.mu == Some(t) && s'.mu.None?)
    requires HoldsLock(pc) <==> s'.mu == Some(t)
    requires s.active || pc.Done?
    ensures ThreadsOk(s')
  {
  }

  lemma MovedRoles(s: State, s': State, t: Tid, pc: Pc)
    requires RolesOk(s) && Moved(s, s', t, pc)
    requires s'.roles.starter == s.roles.starter || (s.roles.starter.None? && s'.roles.starter == Some(t))
    requires s'.roles.stopper == s.roles.stopper || (s.roles.stopper.None? && s'.roles.stopper == Some(t))
    requires s'.roles.ticker == s.roles.ticker
    requires Starting(pc) ==> s'.roles.starter == Some(t)
    requires Ticking(pc) ==> s'.roles.ticker == Some(t)
    requires Stopping(pc) ==> s'.roles.stopper == Some(t)
    requires (s'.shared.started <==> s'.roles.starter.Some?) && (s'.shared.stopped <==> s'.roles.stopper.Some?) && (s'.shared.stopped ==> s'.shared.started)
    ensures RolesOk(s')
  {
  }

  /** What one step of a goroutine does to its own position and the lock. */
  lemma NextMoves(s: State, t: Tid, tick: bool)
    requires t in s.threads && Continues(s.threads[t]) && !s.threads[t].Spawn? && Next(s, t, tick).Some?
    requires HoldsLock(s.threads[t]) <==> s.mu == Some(t)
    ensures var s' := Next(s, t, tick).value;
      && t in s'.threads && Moved(s, s', t, s'.threads[t]) && Continues(s'.threads[t])
      && (s'.mu == s.mu || (s.mu.None? && s'.mu == Some(t)) || (s.mu == Some(t) && s'.mu.None?))
      && (HoldsLock(s'.threads[t]) <==> s'.mu == Some(t))
      && (!s.active && IsCall(s.threads[t]) ==> s'.threads[t].Done?)
  {
  }

  lemma NextThreads(s: State, t: Tid, tick: bool)
    requires ThreadsOk(s) && t in s.threads && Next(s, t, tick).Some?
    ensures ThreadsOk(Next(s, t, tick).value)
  {
    if !s.threads[t].Spawn? {
      NextMoves(s, t, tick);
      MovedThreads(s, Next(s, t, tick).value, t, Next(s, t, tick).value.threads[t]);
    }
  }

  lemma NextStarter(s: State, t: Tid, tick: bool)
    requires t in s.threads && Continues(s.threads[t]) && !s.threads[t].Spawn? && Next(s, t, tick).Some?
    requires Starting(s.threads[t]) ==> s.roles.starter == Some(t)
    requires s.shared.started <==> s.roles.starter.Some?
    ensures var s' := Next(s, t, tick).value;
      && t in s'.threads && (Starting(s'.threads[t]) ==> s'.roles.starter == Some(t))
      && (s'.roles.starter == s.roles.starter || (s.roles.starter.None? && s'.roles.starter == Some(t)))
      && (s'.shared.started <==> s'.roles.starter.Some?)
  {
  }

  lemma NextTicker(s: State, t: Tid, tick: bool)
    requires t in s.threads && Continues(s.threads[t]) && !s.threads[t].Spawn? && Next(s, t, tick).Some?
    ensures var s' := Next(s, t, tick).value;
      && t in s'.threads && (Ticking(s'.threads[t]) ==> Ticking(s.threads[t]))
      && s'.roles.ticker == s.roles.ticker
  {
  }

  lemma NextStopper(s: State, t: Tid, tick: bool)
    requires t in s.threads && Continues(s.threads[t]) && !s.threads[t].Spawn? && Next(s, t, tick).Some?
    requires Stopping(s.threads[t]) ==> s.roles.stopper == Some(t)
    requires (s.shared.stopped <==> s.roles.stopper.Some?) && (s.shared.stopped ==> s.shared.started)
    ensures var s' := Next(s, t, tick).value;
      && t in s'.threads && (Stopping(s'.threads[t]) ==> s'.roles.stopper == Some(t))
      && (s'.roles.stopper == s.roles.stopper || (s.roles.stopper.None? && s'.roles.stopper == Some(t)))
      && (s'.shared.stopped <==> s'.roles.stopper.Some?) && (s'.shared.stopped ==> s'.shared.started)
  {
  }

  lemma NextRoles(s: State, t: Tid, tick: bool)
    requires ThreadsOk(s) && RolesOk(s) && t in s.threads && Next(s, t, tick).Some?
    requires s.threads[t].Spawn? ==> s.roles.ticker.None?
    ensures RolesOk(Next(s, t, tick).value)
  {
    if !s.threads[t].Spawn? {
      NextMoves(s, t, tick);
      NextStarter(s, t, tick);
      NextTicker(s, t, tick);
      NextStopper(s, t, tick);
      MovedRoles(s, Next(s, t, tick).value, t, Next(s, t, tick).value.threads[t]);
    } else {
      SpawnRoles(s, t);
    }
  }

  lemma SpawnRoles(s: State, t: Tid)
    requires ThreadsOk(s) && RolesOk(s) && t in s.threads && s.threads[t].Spawn? && s.roles.ticker.None?
    ensures RolesOk(Next(s, t, true).value)
  {
  }

  lemma NextCounters(s: State, t: Tid, tick: bool)
    requires t in s.threads && !s.threads[t].Spawn? && Next(s, t, tick).Some?
    ensures var s' := Next(s, t, tick).value;
      && s'.shared.wg == s.shared.wg + (if s.threads[t].StartAdd? then 1 else if s.threads[t].WgDone? then -1 else 0)
      && s'.shared.closes == s.shared.closes + (if s.threads[t].CloseChannel? then 1 else 0)
  {
  }

  lemma SpawnTickerOk(s: State, t: Tid)
    requires Inv(s) && t in s.threads && s.threads[t].Spawn?
    ensures RolesOk(Next(s, t, true).value) && TickerOk(Next(s, t, true).value)
  {
    SpawnRoles(s, t);
  }

  lemma StarterSet(s: State, t: Tid, tick: bool)
    requires Inv(s) && t in s.threads && s.threads[t].StartLocked?
    ensures RolesOk(Next(s, t, tick).value) && TickerOk(Next(s, t, tick).value)
  {
    NextRoles(s, t, tick);
  }

  lemma TickerMoves(s: State, t: Tid, tick: bool)
    requires Inv(s) && t in s.threads && Next(s, t, tick).Some?
    requires !s.threads[t].Spawn? && !s.threads[t].StartLocked?
    ensures RolesOk(Next(s, t, tick).value) && TickerOk(Next(s, t, tick).value)
  {
    NextRoles(s, t, tick);
    NextMoves(s, t, tick);
    NextCounters(s, t, tick);
    StartingMoves(s, t, tick);
    TickingMoves(s, t, tick);
  }

  lemma StartingMoves(s: State, t: Tid, tick: bool)
    requires t in s.threads && Continues(s.threads[t]) && Next(s, t, tick).Some?
    requires !s.threads[t].Spawn? && !s.threads[t].StartLocked?
    ensures var s' := Next(s, t, tick).value;
      && t in s'.threads && s'.roles.starter == s.roles.starter && s'.roles.ticker == s.roles.ticker
      && Starting(s'.threads[t]) == Starting(s.threads[t]) && !s'.threads[t].StartAdd?
  {
  }

  lemma TickingMoves(s: State, t: Tid, tick: bool)
    requires t in s.threads && Continues(s.threads[t]) && Next(s, t, tick).Some? && !s.threads[t].Spawn?
    ensures var s' := Next(s, t, tick).value;
      && t in s'.threads
      && Ticking(s'.threads[t]) == (Ticking(s.threads[t]) && !s.threads[t].WgDone?)
      && (s'.threads[t].WgDone? ==> s.shared.closes > 0)
      && (s.threads[t].WgDone? ==> s'.threads[t].Done?)
  {
  }

  lemma NextTickerOk(s: State, t: Tid, tick: bool)
    requires Inv(s) && t in s.threads && Next(s, t, tick).Some?
    ensures RolesOk(Next(s, t, tick).value) && TickerOk(Next(s, t, tick).value)
  {
    if s.threads[t].Spawn? {
      SpawnTickerOk(s, t);
    } else if s.threads[t].StartLocked? {
      StarterSet(s, t, tick);
    } else {
      TickerMoves(s, t, tick);
    }
  }

  /** The steps of the goroutine that set stopped. */
  lemma StopperMoves(s: State, t: Tid, tick: bool)
    requires Inv(s) && t in s.threads && s.roles.stopper == Some(t) && Next(s, t, tick).Some?
    ensures RolesOk(Next(s, t, tick).value) && StopperOk(Next(s, t, tick).value)
  {
    NextRoles(s, t, tick);
  }

  lemma StopperSet(s: State, t: Tid, tick: bool)
    requires Inv(s) && t in s.threads && s.threads[t].StopLocked?
    ensures RolesOk(Next(s, t, tick).value) && StopperOk(Next(s, t, tick).value)
  {
    NextRoles(s, t, tick);
  }

  lemma StopperWaits(s: State, t: Tid, tick: bool)
    requires Inv(s) && t in s.threads && s.roles.stopper != Some(t) && !s.threads[t].StopLocked?
    requires Next(s, t, tick).Some?
    ensures RolesOk(Next(s, t, tick).value) && StopperOk(Next(s, t, tick).value)
  {
    NextRoles(s, t, tick);
    if !s.threads[t].Spawn? {
      NextMoves(s, t, tick);
      NextCounters(s, t, tick);
      NextStopper(s, t, tick);
      OthersKeepStopper(s, t, tick);
    }
  }

  lemma OthersKeepStopper(s: State, t: Tid, tick: bool)
    requires t in s.threads && !s.threads[t].StopLocked? && Next(s, t, tick).Some?
    ensures Next(s, t, tick).value.roles.stopper == s.roles.stopper
    ensures Next(s, t, tick).value.roles.starter == s.roles.starter || s.threads[t].StartLocked?
  {
  }

  lemma NextStopperOk(s: State, t: Tid, tick: bool)
    requires Inv(s) && t in s.threads && Next(s, t, tick).Some?
    ensures RolesOk(Next(s, t, tick).value) && StopperOk(Next(s, t, tick).value)
  {
    if s.threads[t].StopLocked? {
      StopperSet(s, t, tick);
    } else if s.roles.stopper == Some(t) {
      StopperMoves(s, t, tick);
    } else {
      StopperWaits(s, t, tick);
    }
  }

  /** Only redraw and the clear line write. */
  lemma NextWrites(s: State, t: Tid, tick: bool)
    requires t in s.threads && Next(s, t, tick).Some?
    requires !s.threads[t].RedrawLocked? && !s.threads[t].ClearLocked?
    ensures var x, x' := s.shared, Next(s, t, tick).value.shared;
      x'.writes == x.writes && x'.frame == x.frame && x'.lastWidth == x.lastWidth
    ensures Next(s, t, tick).value.active == s.active
  {
  }

  /** Without a write the stopper stays on its side of the clear line. */
  lemma NextSide(s: State, t: Tid, tick: bool)
    requires Inv(s) && t in s.threads && Next(s, t, tick).Some? && !s.threads[t].ClearLocked?
    ensures RolesOk(Next(s, t, tick).value)
    ensures var s' := Next(s, t, tick).value;
      (s'.roles.stopper.Some? && !Stopping(s'.threads[s'.roles.stopper.value])) <==>
      (s.roles.stopper.Some? && !Stopping(s.threads[s.roles.stopper.value]))
  {
    if s.threads[t].Spawn? {
      NextRoles(s, t, tick);
    } else {
      MovedSide(s, t, tick);
    }
  }

  lemma MovedSide(s: State, t: Tid, tick: bool)
    requires Inv(s) && t in s.threads && Next(s, t, tick).Some?
    requires !s.threads[t].ClearLocked? && !s.threads[t].Spawn?
    ensures RolesOk(Next(s, t, tick).value)
    ensures var s' := Next(s, t, tick).value;
      (s'.roles.stopper.Some? && !Stopping(s'.threads[s'.roles.stopper.value])) <==>
      (s.roles.stopper.Some? && !Stopping(s.threads[s.roles.stopper.value]))
  {
    NextRoles(s, t, tick);
    NextMoves(s, t, tick);
    NextStopper(s, t, tick);
    var s' := Next(s, t, tick).value;
    if s.roles.stopper.Some? && s.roles.stopper != Some(t) {
      assert s'.roles.stopper == s.roles.stopper;
      assert s'.threads[s.roles.stopper.value] == s.threads[s.roles.stopper.value];
    }
  }

  lemma RedrawWrites(s: State, t: Tid, tick: bool)
    requires t in s.threads && s.threads[t].RedrawLocked?
    ensures var s' := Next(s, t, tick).value; var x, x' := s.shared, s'.shared;
      s'.active == s.active
      && if !s.active || x.stopped then x'.writes == x.writes && x'.frame == x.frame && x'.lastWidth == x.lastWidth
         else x'.writes == x.writes + [Frame(x.frame, x.text)] && x'.frame == x.frame + 1 && x'.lastWidth == LineWidth(x.text)
  {
  }

  lemma RedrawOutputOk(s: State, t: Tid, tick: bool)
    requires Inv(s) && t in s.threads && s.threads[t].RedrawLocked?
    ensures RolesOk(Next(s, t, tick).value) && OutputOk(Next(s, t, tick).value)
  {
    NextSide(s, t, tick);
    RedrawWrites(s, t, tick);
  }

  lemma ClearOutputOk(s: State, t: Tid, tick: bool)
    requires Inv(s) && t in s.threads && s.threads[t].ClearLocked?
    ensures RolesOk(Next(s, t, tick).value) && OutputOk(Next(s, t, tick).value)
  {
    NextRoles(s, t, tick);
    assert Frames(Next(s, t, tick).value) == s.shared.writes;
  }

  lemma NextOutputOk(s: State, t: Tid, tick: bool)
    requires Inv(s) && t in s.threads && Next(s, t, tick).Some?
    ensures RolesOk(Next(s, t, tick).value) && OutputOk(Next(s, t, tick).value)
  {
    if s.threads[t].RedrawLocked? {
      RedrawOutputOk(s, t, tick);
    } else if s.threads[t].ClearLocked? {
      ClearOutputOk(s, t, tick);
    } else {
      NextSide(s, t, tick);
      NextWrites(s, t, tick);
    }
  }

  lemma NextInv(s: State, t: Tid, tick: bool)
    requires Inv(s) && t in s.threads && Next(s, t, tick).Some?
    ensures Inv(Next(s, t, tick).value)
  {
    NextThreads(s, t, tick);
    NextTickerOk(s, t, tick);
    NextStopperOk(s, t, tick);
    NextOutputOk(s, t, tick);
  }

  lemma StepInv(s: State, s': State)
    requires Inv(s) && Step(s, s')
    ensures Inv(s')
  {
    if call :| IsCall(call) && s' == Call(s, call) {
      CallInv(s, call);
    } else {
      var t, tick :| t in s.threads && Next(s, t, tick) == Some(s');
      NextInv(s, t, tick);
    }
  }

  /** The invariant holds in every state of every run. */
  lemma {:induction false} RunInv(run: seq<State>, i: nat)
    requires Run(run) && i < |run|
    ensures Inv(run[i])
    decreases i
  {
    if i == 0 {
      InitInv(run[0]);
    } else {
      RunInv(run, i - 1);
      assert StepAt(run, i - 1);
      StepInv(run[i - 1], run[i]);
    }
  }

  // ------------------------------------------------------------ safety

  predicate IsTicker(s: State, t: Tid) {
    t in s.threads && Ticking(s.threads[t])
  }

  /** In every state of every run: one ticker at most, one close at most, a sane
      WaitGroup, and frames numbered in order with the clear line last if at all. */
  lemma RunSafe(run: seq<State>, i: nat)
    requires Run(run) && i < |run|
    ensures forall t, u :: IsTicker(run[i], t) && IsTicker(run[i], u) ==> t == u
    ensures run[i].shared.closes <= 1
    ensures 0 <= run[i].shared.wg <= 1
    ensures FramesInOrder(Frames(run[i]))
    ensures Cleared(run[i]) ==> run[i].shared.stopped && run[i].shared.wg == 0
    ensures !run[i].active ==> run[i].shared.writes == []
  {
    RunInv(run, i);
  }

  /** The clear line is exactly as wide as the last frame written. */
  lemma ClearErasesLastFrame(run: seq<State>, i: nat)
    requires Run(run) && i < |run| && Cleared(run[i]) && Frames(run[i]) != []
    ensures var frames, writes := Frames(run[i]), run[i].shared.writes;
      && frames[|frames| - 1].Frame?
      && writes[|writes| - 1] == Clear(|frames[|frames| - 1].text| + 2)
  {
    RunInv(run, i);
  }

  predicate OnlyClears(old_: State, new_: State) {
    && old_.shared.stopped && new_.shared.stopped
    && (new_.shared.writes == old_.shared.writes
        || (!Cleared(old_) && Cleared(new_) && Frames(new_) == old_.shared.writes))
  }

  lemma StoppedStep(s: State, s': State)
    requires Inv(s) && Step(s, s') && s.shared.stopped
    ensures OnlyClears(s, s')
  {
    if call :| IsCall(call) && s' == Call(s, call) {
    } else {
      var t, tick :| t in s.threads && Next(s, t, tick) == Some(s');
      NextStopped(s, t, tick);
      if s.threads[t].ClearLocked? {
        assert Frames(s') == s.shared.writes;
      } else if !s.threads[t].RedrawLocked? {
        NextWrites(s, t, tick);
      }
    }
  }

  lemma NextStopped(s: State, t: Tid, tick: bool)
    requires t in s.threads && Next(s, t, tick).Some? && s.shared.stopped
    ensures Next(s, t, tick).value.shared.stopped
  {
  }

  /** Once Stop has set stopped no frame is written again: the output stays as it
      is, or gains the clear line and then stays. */
  lemma {:induction false} NoFrameAfterStop(run: seq<State>, i: nat, j: nat)
    requires Run(run) && i <= j < |run| && run[i].shared.stopped
    ensures OnlyClears(run[i], run[j])
    decreases j
  {
    if i < j {
      NoFrameAfterStop(run, i, j - 1);
      RunInv(run, j - 1);
      assert StepAt(run, j - 1);
      StoppedStep(run[j - 1], run[j]);
    }
  }

  lemma TickerStays(s: State, s': State)
    requires Inv(s) && Step(s, s') && s.roles.ticker.Some?
    ensures s'.roles.ticker == s.roles.ticker
  {
    if call :| IsCall(call) && s' == Call(s, call) {
    } else {
      var t, tick :| t in s.threads && Next(s, t, tick) == Some(s');
      if !s.threads[t].Spawn? {
        NextTicker(s, t, tick);
      }
    }
  }

  /** A run launches at most one ticker goroutine, ever. */
  lemma {:induction false} OneTickerPerRun(run: seq<State>, i: nat, j: nat)
    requires Run(run) && i <= j < |run| && run[i].roles.ticker.Some?
    ensures run[j].roles.ticker == run[i].roles.ticker
    decreases j
  {
    if i < j {
      OneTickerPerRun(run, i, j - 1);
      RunInv(run, j - 1);
      assert StepAt(run, j - 1);
      TickerStays(run[j - 1], run[j]);
    }
  }

  // ----------------------------------------------------------- progress

  lemma HolderCanStep(s: State)
    requires Inv(s) && s.mu.Some?
    ensures Next(s, s.mu.value, true).Some?
  {
    assert HoldsLock(s.threads[s.mu.value]);
  }

  /** With the lock free, only a joining Stop or an idle ticker can be held up. */
  lemma FreeCanStep(s: State, t: Tid)
    requires Inv(s) && s.mu.None? && t in s.threads && !s.threads[t].Done? && !s.threads[t].Wait?
    ensures Next(s, t, true).Some?
  {
  }

  /** A Stop blocked in wg.Wait is never alone: another goroutine can step. */
  lemma BlockedStopHasHelper(s: State, t: Tid) returns (u: Tid)
    requires Inv(s) && t in s.threads && s.threads[t].Wait? && Next(s, t, true).None?
    ensures u != t && u in s.threads && Next(s, u, true).Some?
  {
    if s.mu.Some? {
      u := s.mu.value;
      HolderCanStep(s);
    } else {
      u := if s.roles.ticker.Some? then s.roles.ticker.value else s.roles.starter.value;
      FreeCanStep(s, u);
    }
  }

  /** No reachable state is a deadlock. */
  lemma NoDeadlock(run: seq<State>, i: nat, t: Tid) returns (u: Tid)
    requires Run(run) && i < |run| && t in run[i].threads && !run[i].threads[t].Done?
    ensures u in run[i].threads && Next(run[i], u, true).Some?
  {
    RunInv(run, i);
    var s := run[i];
    u := t;
    if s.mu.Some? {
      u := s.mu.value;
      HolderCanStep(s);
    } else if s.threads[t].Wait? && Next(s, t, true).None? {
      u := BlockedStopHasHelper(s, t);
    } else if !s.threads[t].Wait? {
      FreeCanStep(s, t);
    }
  }

  /** Steps a goroutine has ahead of it before it no longer holds Stop up. */
  function Distance(pc: Pc): nat {
    match pc
    case Done => 0
    case StartAdd => 8
    case Spawn => 3
    case CloseChannel => 5
    case Wait => 4
    case ClearCall => 3
    case ClearLocked => 2
    case Select => 2
    case WgDone => 1
    case Redraw(after) => if after.Launch? then 6 else 5
    case RedrawLocked(after) => if after.Launch? then 5 else if after.Tick? then 4 else 2
    case Unlock(after) =>
      (match after case DrawThenLaunch => 7 case Close => 6 case Launch => 4 case Tick => 3 case _ => 1)
    case _ => 2
  }

  function RoleWork(s: State, role: Option<Tid>): nat {
    if role.Some? && role.value in s.threads then Distance(s.threads[role.value]) else 0
  }

  predicate HasRole(s: State, t: Tid) {
    Some(t) == s.roles.starter || Some(t) == s.roles.ticker || Some(t) == s.roles.stopper
  }

  function HolderWork(s: State): nat {
    if s.mu.Some? && !HasRole(s, s.mu.value) then RoleWork(s, s.mu) else 0
  }

  function Work(s: State): nat {
    RoleWork(s, s.roles.starter) + RoleWork(s, s.roles.ticker) + RoleWork(s, s.roles.stopper) + HolderWork(s)
  }

  /** A Stop is under way. */
  ghost predicate StopPending(s: State) {
    Inv(s) && s.roles.stopper.Some? && !s.threads[s.roles.stopper.value].Done?
  }

  /** Whom to schedule next so that the pending Stop gets closer to returning. */
  function Helper(s: State): Tid
    requires s.roles.stopper.Some? && s.roles.starter.Some?
    requires s.roles.stopper.value in s.threads
    requires s.roles.ticker.Some? ==> s.roles.ticker.value in s.threads
  {
    if s.mu.Some? then s.mu.value
    else if s.threads[s.roles.stopper.value].CloseChannel? then s.roles.stopper.value
    else if s.roles.ticker.None? then s.roles.starter.value
    else if Ticking(s.threads[s.roles.ticker.value]) then s.roles.ticker.value
    else s.roles.stopper.value
  }

  lemma HelperCanStep(s: State)
    requires StopPending(s)
    ensures Helper(s) in s.threads && Next(s, Helper(s), false).Some?
  {
    if s.mu.Some? {
      HolderCanStep(s);
    }
  }

  predicate OnDuty(pc: Pc) {
    Starting(pc) || Ticking(pc) || Stopping(pc) || pc == Unlock(Return)
  }

  lemma DutyGetsShorter(s: State, t: Tid)
    requires t in s.threads && Continues(s.threads[t]) && OnDuty(s.threads[t]) && !s.threads[t].Spawn?
    requires Next(s, t, false).Some?
    ensures t in Next(s, t, false).value.threads
    ensures Distance(Next(s, t, false).value.threads[t]) < Distance(s.threads[t])
    ensures Next(s, t, false).value.mu.Some? ==> Next(s, t, false).value.mu == s.mu || Next(s, t, false).value.mu == Some(t)
  {
  }

  lemma HolderGetsShorter(s: State, t: Tid)
    requires t in s.threads && s.mu == Some(t) && HoldsLock(s.threads[t]) && s.shared.stopped && s.shared.started
    requires Next(s, t, false).Some? && !s.threads[t].StartAdd? && Continues(s.threads[t])
    requires s.threads[t].Unlock? || s.threads[t].StartLocked? || s.threads[t].UpdateLocked? || s.threads[t].StopLocked?
          || s.threads[t] == RedrawLocked(Return)
    ensures var s' := Next(s, t, false).value;
      && t in s'.threads
      && (s'.mu.None? || (s'.mu == s.mu && s.threads[t].Unlock? == false && s'.threads[t] == Unlock(Return)))
  {
  }

  lemma RolesSettled(s: State, t: Tid, tick: bool)
    requires Inv(s) && t in s.threads && Next(s, t, tick).Some? && s.shared.stopped && !s.threads[t].Spawn?
    ensures Next(s, t, tick).value.roles == s.roles
  {
  }

  lemma OthersWork(s: State, s': State, t: Tid, pc: Pc, role: Option<Tid>)
    requires Moved(s, s', t, pc)
    ensures role != Some(t) ==> RoleWork(s', role) == RoleWork(s, role)
    ensures role == Some(t) ==> RoleWork(s', role) == Distance(pc) && RoleWork(s, role) == Distance(s.threads[t])
  {
  }

  lemma DutyWork(s: State, t: Tid)
    requires Inv(s) && t in s.threads && HasRole(s, t) && !s.threads[t].Spawn? && s.shared.stopped
    requires s.mu.None? || s.mu == Some(t)
    requires Next(s, t, false).Some?
    ensures Work(Next(s, t, false).value) < Work(s)
  {
    var s' := Next(s, t, false).value;
    NextMoves(s, t, false);
    RolesSettled(s, t, false);
    DutyGetsShorter(s, t);
    OthersWork(s, s', t, s'.threads[t], s.roles.starter);
    OthersWork(s, s', t, s'.threads[t], s.roles.ticker);
    OthersWork(s, s', t, s'.threads[t], s.roles.stopper);
  }

  lemma HolderPosition(s: State, t: Tid)
    requires Inv(s) && s.mu == Some(t) && !HasRole(s, t)
    ensures var pc := s.threads[t];
      && HoldsLock(pc) && Continues(pc) && !pc.StartAdd?
      && (pc.Unlock? || pc.StartLocked? || pc.UpdateLocked? || pc.StopLocked? || pc == RedrawLocked(Return))
  {
  }

  lemma StrangerWork(s: State, t: Tid)
    requires Inv(s) && s.mu == Some(t) && !HasRole(s, t) && s.shared.stopped
    requires Next(s, t, false).Some?
    ensures Work(Next(s, t, false).value) < Work(s)
  {
    var s' := Next(s, t, false).value;
    HolderPosition(s, t);
    NextMoves(s, t, false);
    RolesSettled(s, t, false);
    HolderGetsShorter(s, t);
    OthersWork(s, s', t, s'.threads[t], s.roles.starter);
    OthersWork(s, s', t, s'.threads[t], s.roles.ticker);
    OthersWork(s, s', t, s'.threads[t], s.roles.stopper);
  }

  lemma SpawnWork(s: State, t: Tid)
    requires Inv(s) && t in s.threads && s.threads[t].Spawn? && s.mu.None?
    ensures Work(Next(s, t, false).value) < Work(s)
    ensures Next(s, t, false).value.roles.stopper == s.roles.stopper
  {
  }

  lemma HelperProgress(s: State)
    requires StopPending(s)
    ensures Helper(s) in s.threads && Next(s, Helper(s), false).Some?
    ensures var s' := Next(s, Helper(s), false).value;
      Inv(s') && s'.roles.stopper == s.roles.stopper && Work(s') < Work(s)
  {
    HelperCanStep(s);
    var t := Helper(s);
    NextInv(s, t, false);
    if s.threads[t].Spawn? {
      SpawnWork(s, t);
    } else {
      RolesSettled(s, t, false);
      if HasRole(s, t) {
        DutyWork(s, t);
      } else {
        StrangerWork(s, t);
      }
    }
  }

  lemma PathFrom(s: State, rest: seq<State>)
    requires rest != [] && Step(s, rest[0]) && forall i: nat :: i + 1 < |rest| ==> StepAt(rest, i)
    ensures forall i: nat :: i + 1 < |[s] + rest| ==> StepAt([s] + rest, i)
  {
    var path := [s] + rest;
    forall i: nat | i + 1 < |path| ensures StepAt(path, i) {
      if i > 0 {
        assert StepAt(rest, i - 1);
        assert path[i] == rest[i - 1] && path[i + 1] == rest[i];
      }
    }
  }

  /** Wherever a Stop has got to, some schedule lets it return: the spinner cannot
      trap it, whatever the other callers are doing. */
  lemma {:induction false} StopCanReturn(s: State) returns (path: seq<State>)
    requires Inv(s) && s.roles.stopper.Some?
    ensures path != [] && path[0] == s && |path| <= Work(s) + 1
    ensures forall i: nat :: i + 1 < |path| ==> StepAt(path, i)
    ensures var last := path[|path| - 1];
      last.roles.stopper == s.roles.stopper && s.roles.stopper.value in last.threads
      && last.threads[s.roles.stopper.value].Done? && Cleared(last)
    decreases Work(s)
  {
    if s.threads[s.roles.stopper.value].Done? {
      path := [s];
    } else {
      HelperProgress(s);
      var s' := Next(s, Helper(s), false).value;
      var rest := StopCanReturn(s');
      path := [s] + rest;
      assert Step(s, s');
      PathFrom(s, rest);
    }
  }
}
