// What the spinner of internal/output/spinner.go shows: which text each frame carries,
// over every interleaving, and what a call does when nobody else is at the lock.
module SpinnerText {
  import opened Options
  import opened Spinner

  // ------------------------------------------------------ whose text it is

  /** The text with which the goroutine at the lock has passed its check between two
      states: Update while not stopped, Start while neither started nor stopped. */
  function PassedText(s: State, s': State): Option<string> {
    if s.mu.None? || s.mu.value !in s.threads || s.mu.value !in s'.threads
       || s'.threads[s.mu.value] == s.threads[s.mu.value] then None
    else
      match s.threads[s.mu.value]
      case UpdateLocked(u) => if s.shared.stopped then None else Some(u)
      case StartLocked(u) => if s.shared.started || s.shared.stopped then None else Some(u)
      case _ => None
  }

  /** The text of the last call, Start or Update, to pass its check in the first n steps. */
  function LastText(run: seq<State>, n: nat): Option<string>
    requires n < |run|
  {
    if n == 0 then None
    else if PassedText(run[n - 1], run[n]).Some? then PassedText(run[n - 1], run[n])
    else LastText(run, n - 1)
  }

  /** A goroutine on its way to drawing, or the ticker. */
  predicate Drawing(pc: Pc) {
    match pc
    case StartAdd => true
    case Spawn => true
    case Select => true
    case WgDone => true
    case Redraw(_) => true
    case RedrawLocked(_) => true
    case Unlock(after) => !after.Return? && !after.Close?
    case _ => false
  }

  ghost predicate SomeoneDraws(s: State) {
    exists t :: t in s.threads && Drawing(s.threads[t])
  }

  /** A step stores the text of the call that passes in it, and no other. */
  ghost predicate Stores(s: State, s': State) {
    && (PassedText(s, s').Some? ==> s'.shared.text == PassedText(s, s').value)
    && (PassedText(s, s').None? ==> s'.shared.text == s.shared.text && (SomeoneDraws(s') ==> SomeoneDraws(s)))
  }

  lemma HolderStores(s: State, t: Tid, tick: bool)
    requires Inv(s) && s.mu == Some(t) && Next(s, t, tick).Some?
    ensures Stores(s, Next(s, t, tick).value)
  {
    var s' := Next(s, t, tick).value;
    var pc := s.threads[t];
    assert HoldsLock(pc);
    assert t in s'.threads && s'.threads == s.threads[t := s'.threads[t]];
    if PassedText(s, s').None? {
      assert Drawing(s'.threads[t]) ==> Drawing(pc);
    }
  }

  lemma OthersStore(s: State, t: Tid, tick: bool)
    requires Inv(s) && t in s.threads && s.mu != Some(t) && Next(s, t, tick).Some?
    ensures Stores(s, Next(s, t, tick).value)
  {
    var s' := Next(s, t, tick).value;
    var pc := s.threads[t];
    assert !HoldsLock(pc);
    assert PassedText(s, s').None?;
    if !Drawing(pc) {
      assert s'.threads == s.threads[t := s'.threads[t]] && !Drawing(s'.threads[t]);
    }
  }

  lemma CallStores(s: State, call: Pc)
    requires Inv(s) && IsCall(call)
    ensures Stores(s, Call(s, call))
  {
  }

  lemma StepStores(s: State, s': State)
    requires Inv(s) && Step(s, s')
    ensures Stores(s, s')
  {
    if call :| IsCall(call) && s' == Call(s, call) {
      CallStores(s, call);
    } else {
      var t, tick :| t in s.threads && Next(s, t, tick) == Some(s');
      if s.mu == Some(t) {
        HolderStores(s, t, tick);
      } else {
        OthersStore(s, t, tick);
      }
    }
  }

  /** In every state the text is that of the last call to have passed its check, and
      nobody draws before one has. */
  lemma {:induction false} TextIsLast(run: seq<State>, n: nat)
    requires Run(run) && n < |run|
    ensures LastText(run, n).Some? ==> run[n].shared.text == LastText(run, n).value
    ensures SomeoneDraws(run[n]) ==> LastText(run, n).Some?
  {
    if n > 0 {
      TextIsLast(run, n - 1);
      RunInv(run, n - 1);
      assert StepAt(run, n - 1);
      StepStores(run[n - 1], run[n]);
    }
  }

  // ------------------------------------------------------ what is written

  /** What a step writes: nothing, the next frame with the current text, or the clear. */
  ghost predicate Writes(s: State, s': State) {
    || s'.shared.writes == s.shared.writes
    || (s'.shared.writes == s.shared.writes + [Frame(s.shared.frame, s.shared.text)] && SomeoneDraws(s))
    || (exists width :: s'.shared.writes == s.shared.writes + [Clear(width)])
  }

  lemma StepWrites(s: State, s': State)
    requires Inv(s) && Step(s, s')
    ensures Writes(s, s')
  {
    if call :| IsCall(call) && s' == Call(s, call) {
    } else {
      var t, tick :| t in s.threads && Next(s, t, tick) == Some(s');
      TurnWrites(s, t, tick);
    }
  }

  lemma TurnWrites(s: State, t: Tid, tick: bool)
    requires Inv(s) && t in s.threads && Next(s, t, tick).Some?
    ensures Writes(s, Next(s, t, tick).value)
  {
    if s.threads[t].RedrawLocked? {
      assert Drawing(s.threads[t]);
    } else if s.threads[t].ClearLocked? {
      var width := if s.shared.lastWidth > 1 then s.shared.lastWidth else 1;
      assert Next(s, t, tick).value.shared.writes == s.shared.writes + [Clear(width)];
    } else {
      NextWrites(s, t, tick);
    }
  }

  /** Write k of a run was made in step i. */
  predicate WrittenAt(run: seq<State>, i: nat, k: nat) {
    i + 1 < |run| && |run[i].shared.writes| == k && |run[i + 1].shared.writes| == k + 1
  }

  lemma RunWrites(run: seq<State>, i: nat)
    requires Run(run) && i + 1 < |run|
    ensures Writes(run[i], run[i + 1])
  {
    RunInv(run, i);
    assert StepAt(run, i);
    StepWrites(run[i], run[i + 1]);
  }

  lemma NewWrite(s: State, s': State, k: nat)
    requires Writes(s, s') && k < |s'.shared.writes|
    ensures k < |s.shared.writes| ==> s'.shared.writes[k] == s.shared.writes[k]
    ensures k >= |s.shared.writes| ==>
      && k == |s.shared.writes| && |s'.shared.writes| == k + 1
      && (s'.shared.writes[k].Frame? ==> SomeoneDraws(s) && s'.shared.writes[k].text == s.shared.text)
  {
  }

  /** Every frame carries the text of the last call, Start or Update, to have passed its
      check when the frame was written. */
  lemma {:induction false} FrameCarriesLastText(run: seq<State>, n: nat, k: nat) returns (i: nat)
    requires Run(run) && n < |run| && k < |run[n].shared.writes| && run[n].shared.writes[k].Frame?
    ensures i < n && WrittenAt(run, i, k) && LastText(run, i) == Some(run[n].shared.writes[k].text)
    decreases n
  {
    RunWrites(run, n - 1);
    NewWrite(run[n - 1], run[n], k);
    if k < |run[n - 1].shared.writes| {
      i := FrameCarriesLastText(run, n - 1, k);
    } else {
      i := n - 1;
      TextIsLast(run, i);
    }
  }

  /** A caller that passes its check leaves its own text behind. */
  lemma PassingStoresOwnText(run: seq<State>, i: nat, t: Tid, u: string)
    requires Run(run) && i + 1 < |run| && t in run[i].threads && t in run[i + 1].threads
    requires run[i + 1].threads[t] != run[i].threads[t]
    requires
      || (run[i].threads[t] == UpdateLocked(u) && !run[i].shared.stopped)
      || (run[i].threads[t] == StartLocked(u) && !run[i].shared.started && !run[i].shared.stopped)
    ensures run[i + 1].shared.text == u
  {
    RunInv(run, i);
    assert HoldsLock(run[i].threads[t]);
    assert StepAt(run, i);
    StepStores(run[i], run[i + 1]);
  }

  // ------------------------------------------- one call, nobody in its way

  /** n turns of goroutine t, without a tick. */
  function Turns(s: State, t: Tid, n: nat): Option<State>
    decreases n
  {
    if n == 0 then Some(s)
    else if t !in s.threads || Next(s, t, false).None? then None
    else Turns(Next(s, t, false).value, t, n - 1)
  }

  lemma OneTurn(s: State, t: Tid, n: nat, s': State)
    requires t in s.threads && Next(s, t, false) == Some(s')
    ensures Turns(s, t, n + 1) == Turns(s', t, n)
  {
  }

  /** The lock is free and the spinner active. */
  predicate Idle(s: State, t: Tid, pc: Pc) {
    s.active && s.mu.None? && t in s.threads && s.threads[t] == pc
  }

  lemma Again(threads: map<Tid, Pc>, t: Tid, a: Pc, b: Pc)
    ensures threads[t := a][t := b] == threads[t := b]
  {
  }

  lemma RedrawLocks(s: State, t: Tid, after: After)
    requires Idle(s, t, Redraw(after))
    ensures Next(s, t, false) == Some(s.(threads := s.threads[t := RedrawLocked(after)], mu := Some(t)))
  {
  }

  /** What redraw writes. */
  function Redrawn(x: Shared): Shared {
    if x.stopped then x
    else x.(frame := x.frame + 1, lastWidth := |x.text| + 2, writes := x.writes + [Frame(x.frame, x.text)])
  }

  lemma RedrawWrites(s: State, t: Tid, after: After)
    requires s.active && t in s.threads && s.threads[t] == RedrawLocked(after)
    ensures Next(s, t, false) == Some(s.(threads := s.threads[t := Unlock(after)], shared := Redrawn(s.shared)))
  {
  }

  lemma Unlocks(s: State, t: Tid, after: After)
    requires t in s.threads && s.threads[t] == Unlock(after)
    ensures Next(s, t, false) == Some(s.(threads := s.threads[t := Resume(after)], mu := None))
  {
  }

  /** redraw, from the lock to the return to its caller: one more frame, with the
      current text, unless stopped. */
  lemma RedrawAlone(s: State, t: Tid, after: After, more: nat)
    requires Idle(s, t, Redraw(after))
    ensures Turns(s, t, more + 3)
         == Turns(s.(threads := s.threads[t := Resume(after)],
                     shared := if s.shared.stopped then s.shared
                               else s.shared.(frame := s.shared.frame + 1, lastWidth := |s.shared.text| + 2,
                                              writes := s.shared.writes + [Frame(s.shared.frame, s.shared.text)])), t, more)
  {
    RedrawLocks(s, t, after);
    var a := s.(threads := s.threads[t := RedrawLocked(after)], mu := Some(t));
    RedrawWrites(a, t, after);
    Again(s.threads, t, RedrawLocked(after), Unlock(after));
    var b := s.(threads := s.threads[t := Unlock(after)], shared := Redrawn(s.shared), mu := Some(t));
    Unlocks(b, t, after);
    Again(s.threads, t, Unlock(after), Resume(after));
    OneTurn(s, t, more + 2, a);
    OneTurn(a, t, more + 1, b);
    OneTurn(b, t, more, s.(threads := s.threads[t := Resume(after)], shared := Redrawn(s.shared)));
  }

  lemma UpdateLocks(s: State, t: Tid, u: string)
    requires Idle(s, t, UpdateCall(u))
    ensures Next(s, t, false) == Some(s.(threads := s.threads[t := UpdateLocked(u)], mu := Some(t)))
  {
  }

  lemma UpdateStores(s: State, t: Tid, u: string)
    requires t in s.threads && s.threads[t] == UpdateLocked(u) && !s.shared.stopped
    ensures Next(s, t, false)
         == Some(s.(threads := s.threads[t := Unlock(DrawThenReturn)], shared := s.shared.(text := u)))
  {
  }

  lemma UpdatePasses(s: State, t: Tid, u: string, more: nat)
    requires Idle(s, t, UpdateCall(u)) && !s.shared.stopped
    ensures Turns(s, t, more + 3)
         == Turns(UpdatePassed(s, t, u), t, more)
  {
    UpdateLocks(s, t, u);
    var a := s.(threads := s.threads[t := UpdateLocked(u)], mu := Some(t));
    UpdateStores(a, t, u);
    Again(s.threads, t, UpdateLocked(u), Unlock(DrawThenReturn));
    var b := s.(threads := s.threads[t := Unlock(DrawThenReturn)], shared := s.shared.(text := u), mu := Some(t));
    Unlocks(b, t, DrawThenReturn);
    Again(s.threads, t, Unlock(DrawThenReturn), Redraw(Return));
    OneTurn(s, t, more + 2, a);
    OneTurn(a, t, more + 1, b);
    OneTurn(b, t, more, UpdatePassed(s, t, u));
  }

  function UpdatePassed(s: State, t: Tid, u: string): State {
    s.(threads := s.threads[t := Redraw(Return)], shared := s.shared.(text := u))
  }

  lemma UpdateDraws(s: State, t: Tid, u: string)
    ensures Drawn(UpdatePassed(s, t, u), t, Return)
         == s.(threads := s.threads[t := Done],
               shared := s.shared.(text := u, frame := s.shared.frame + 1, lastWidth := |u| + 2,
                                   writes := s.shared.writes + [Frame(s.shared.frame, u)]))
  {
    Again(s.threads, t, Redraw(Return), Done);
  }

  lemma UpdateTurns(s: State, t: Tid, u: string, turns: nat)
    requires Idle(s, t, UpdateCall(u)) && !s.shared.stopped && turns >= 6
    ensures Turns(s, t, turns) == Turns(Drawn(UpdatePassed(s, t, u), t, Return), t, turns - 6)
  {
    UpdatePasses(s, t, u, turns - 3);
    RedrawDraws(UpdatePassed(s, t, u), t, Return, turns - 6);
  }

  /** Update stores its text and draws it before it returns. */
  lemma UpdateAlone(s: State, t: Tid, u: string, turns: nat)
    requires Idle(s, t, UpdateCall(u)) && !s.shared.stopped && turns == 6
    ensures Turns(s, t, turns)
         == Some(s.(threads := s.threads[t := Done],
                    shared := s.shared.(text := u, frame := s.shared.frame + 1, lastWidth := |u| + 2,
                                        writes := s.shared.writes + [Frame(s.shared.frame, u)])))
  {
    UpdateTurns(s, t, u, turns);
    UpdateDraws(s, t, u);
  }

  /** The state once Start has passed its check, and once it has launched the ticker. */
  function StartPassed(s: State, t: Tid, u: string): State {
    s.(threads := s.threads[t := Redraw(Launch)], roles := s.roles.(starter := Some(t)),
       shared := s.shared.(text := u, started := true, wg := s.shared.wg + 1))
  }

  function Launched(s: State, t: Tid): State {
    s.(threads := s.threads[t := Done][s.nextId := Select], nextId := s.nextId + 1,
       roles := s.roles.(ticker := Some(s.nextId)))
  }

  lemma StartPasses(s: State, t: Tid, u: string, more: nat)
    requires Idle(s, t, StartCall(u)) && !s.shared.started && !s.shared.stopped
    ensures Turns(s, t, more + 4) == Turns(StartPassed(s, t, u), t, more)
  {
    var a := Next(s, t, false).value;
    var b := Next(a, t, false).value;
    var c := Next(b, t, false).value;
    var d := Next(c, t, false).value;
    OneTurn(s, t, more + 3, a);
    OneTurn(a, t, more + 2, b);
    OneTurn(b, t, more + 1, c);
    OneTurn(c, t, more, d);
    Again(s.threads, t, StartLocked(u), StartAdd);
    Again(s.threads, t, StartAdd, Unlock(DrawThenLaunch));
    Again(s.threads, t, Unlock(DrawThenLaunch), Redraw(Launch));
  }

  lemma StartLaunches(s: State, t: Tid)
    requires Idle(s, t, Spawn) && t != s.nextId
    ensures Turns(s, t, 1) == Some(Launched(s, t))
  {
    OneTurn(s, t, 0, Next(s, t, false).value);
  }

  /** The state once redraw has returned to its caller. */
  function Drawn(s: State, t: Tid, after: After): State {
    s.(threads := s.threads[t := Resume(after)],
       shared := s.shared.(frame := s.shared.frame + 1, lastWidth := |s.shared.text| + 2,
                           writes := s.shared.writes + [Frame(s.shared.frame, s.shared.text)]))
  }

  lemma RedrawDraws(s: State, t: Tid, after: After, more: nat)
    requires Idle(s, t, Redraw(after)) && !s.shared.stopped
    ensures Turns(s, t, more + 3) == Turns(Drawn(s, t, after), t, more)
  {
    RedrawAlone(s, t, after, more);
  }

  lemma StartDraws(s: State, t: Tid, turns: nat)
    requires Idle(s, t, Redraw(Launch)) && !s.shared.stopped && t != s.nextId && turns == 4
    ensures Turns(s, t, turns) == Some(Launched(Drawn(s, t, Launch), t))
  {
    RedrawDraws(s, t, Launch, turns - 3);
    StartLaunches(Drawn(s, t, Launch), t);
  }

  lemma StartTurns(s: State, t: Tid, u: string, turns: nat)
    requires Idle(s, t, StartCall(u)) && !s.shared.started && !s.shared.stopped && t != s.nextId && turns == 8
    ensures Turns(s, t, turns) == Some(Launched(Drawn(StartPassed(s, t, u), t, Launch), t))
  {
    StartPasses(s, t, u, turns - 4);
    StartDraws(StartPassed(s, t, u), t, turns - 4);
  }

  lemma StartedState(s: State, t: Tid, u: string)
    requires t != s.nextId
    ensures var r := Launched(Drawn(StartPassed(s, t, u), t, Launch), t);
      && r.mu == s.mu && r.active == s.active
      && r.threads == s.threads[t := Done][s.nextId := Select] && r.nextId == s.nextId + 1
      && r.roles == s.roles.(starter := Some(t), ticker := Some(s.nextId))
      && r.shared == s.shared.(text := u, started := true, wg := s.shared.wg + 1,
                               frame := s.shared.frame + 1, lastWidth := |u| + 2,
                               writes := s.shared.writes + [Frame(s.shared.frame, u)])
  {
    Again(s.threads, t, Redraw(Launch), Spawn);
    Again(s.threads, t, Spawn, Done);
  }

  /** Start stores its text, draws it, and only then launches the ticker. */
  lemma StartAlone(s: State, t: Tid, u: string)
    requires Idle(s, t, StartCall(u)) && !s.shared.started && !s.shared.stopped && t != s.nextId
    ensures var r := Turns(s, t, 8);
      && r.Some? && r.value.mu.None? && r.value.active == s.active
      && r.value.threads == s.threads[t := Done][s.nextId := Select] && r.value.nextId == s.nextId + 1
      && r.value.roles == s.roles.(starter := Some(t), ticker := Some(s.nextId))
      && r.value.shared == s.shared.(text := u, started := true, wg := s.shared.wg + 1,
                                     frame := s.shared.frame + 1, lastWidth := |u| + 2,
                                     writes := s.shared.writes + [Frame(s.shared.frame, u)])
  {
    StartTurns(s, t, u, 8);
    StartedState(s, t, u);
  }

  /** A tick draws the current text and the ticker waits again. */
  lemma TickAlone(s: State, t: Tid)
    requires Idle(s, t, Select) && !s.shared.stopped
    ensures Next(s, t, true).Some?
    ensures Turns(Next(s, t, true).value, t, 3)
         == Some(s.(shared := s.shared.(frame := s.shared.frame + 1, lastWidth := |s.shared.text| + 2,
                                        writes := s.shared.writes + [Frame(s.shared.frame, s.shared.text)])))
  {
    var a := Next(s, t, true).value;
    RedrawAlone(a, t, Tick, 0);
    Again(s.threads, t, Redraw(Tick), Select);
    assert s.threads[t := Select] == s.threads;
  }

  /** Stop sets stopped and closes the channel; the ticker leaves; the line is cleared
      over the width of what was last written, and over one column if nothing was. */
  lemma StopAlone(s: State, t: Tid, ticker: Tid)
    requires Idle(s, t, StopCall) && Idle(s, ticker, Select) && s.shared.wg == 1
    requires s.shared.started && !s.shared.stopped
    ensures var closed := Turns(s, t, 4);
      && closed.Some? && closed.value.threads == s.threads[t := Wait] && closed.value.shared.closes == s.shared.closes + 1
      && var joined := Turns(closed.value, ticker, 2);
      && joined.Some?
      && Turns(joined.value, t, 4)
         == Some(s.(threads := s.threads[t := Done][ticker := Done], roles := s.roles.(stopper := Some(t)),
                    shared := s.shared.(stopped := true, closes := s.shared.closes + 1, wg := 0,
                      writes := s.shared.writes + [Clear(if s.shared.lastWidth == 0 then 1 else s.shared.lastWidth)])))
  {
    var closed := StopCloses(s, t);
    var joined := TickerLeaves(closed, ticker);
    assert joined.threads == s.threads[t := Wait][ticker := Done];
    StopClears(joined, t);
    assert joined.threads[t := Done] == s.threads[t := Done][ticker := Done];
  }

  lemma StopCloses(s: State, t: Tid) returns (closed: State)
    requires Idle(s, t, StopCall) && s.shared.started && !s.shared.stopped
    ensures Turns(s, t, 4) == Some(closed)
    ensures closed == s.(threads := s.threads[t := Wait], roles := s.roles.(stopper := Some(t)),
                         shared := s.shared.(stopped := true, closes := s.shared.closes + 1))
  {
    var a := Next(s, t, false).value;
    var b := Next(a, t, false).value;
    var c := Next(b, t, false).value;
    closed := Next(c, t, false).value;
    OneTurn(s, t, 3, a);
    OneTurn(a, t, 2, b);
    OneTurn(b, t, 1, c);
    OneTurn(c, t, 0, closed);
    Again(s.threads, t, StopLocked, Unlock(Close));
    Again(s.threads, t, Unlock(Close), CloseChannel);
    Again(s.threads, t, CloseChannel, Wait);
  }

  lemma TickerLeaves(s: State, ticker: Tid) returns (joined: State)
    requires Idle(s, ticker, Select) && s.shared.closes > 0
    ensures Turns(s, ticker, 2) == Some(joined)
    ensures joined == s.(threads := s.threads[ticker := Done], shared := s.shared.(wg := s.shared.wg - 1))
  {
    var a := Next(s, ticker, false).value;
    joined := Next(a, ticker, false).value;
    OneTurn(s, ticker, 1, a);
    OneTurn(a, ticker, 0, joined);
    Again(s.threads, ticker, WgDone, Done);
  }

  lemma StopClears(s: State, t: Tid)
    requires Idle(s, t, Wait) && s.shared.wg == 0
    ensures Turns(s, t, 4)
         == Some(s.(threads := s.threads[t := Done],
                    shared := s.shared.(writes := s.shared.writes + [Clear(if s.shared.lastWidth == 0 then 1 else s.shared.lastWidth)])))
  {
    var a := Next(s, t, false).value;
    var b := Next(a, t, false).value;
    var c := Next(b, t, false).value;
    var d := Next(c, t, false).value;
    OneTurn(s, t, 3, a);
    OneTurn(a, t, 2, b);
    OneTurn(b, t, 1, c);
    OneTurn(c, t, 0, d);
    Again(s.threads, t, ClearCall, ClearLocked);
    Again(s.threads, t, ClearLocked, Unlock(Return));
    Again(s.threads, t, Unlock(Return), Done);
  }

  /** A call that fails its check changes nothing but its own position: Start on a
      spinner started or stopped, Update on a stopped one, Stop on one not running. */
  lemma IdleCall(s: State, t: Tid, call: Pc)
    requires Idle(s, t, call)
    requires
      || (call.StartCall? && (s.shared.started || s.shared.stopped))
      || (call.UpdateCall? && s.shared.stopped)
      || (call.StopCall? && (!s.shared.started || s.shared.stopped))
    ensures Turns(s, t, 3) == Some(s.(threads := s.threads[t := Done]))
  {
    var a := Next(s, t, false).value;
    var b := Next(a, t, false).value;
    var c := Next(b, t, false).value;
    OneTurn(s, t, 2, a);
    OneTurn(a, t, 1, b);
    OneTurn(b, t, 0, c);
    Again(s.threads, t, a.threads[t], Unlock(Return));
    Again(s.threads, t, Unlock(Return), Done);
  }

  /** Calls on an inactive spinner return at once. */
  lemma InactiveCall(s: State, t: Tid, call: Pc)
    requires !s.active && t in s.threads && s.threads[t] == call && IsCall(call)
    ensures Turns(s, t, 1) == Some(s.(threads := s.threads[t := Done]))
  {
    OneTurn(s, t, 0, Go(s, t, Done));
  }
}
