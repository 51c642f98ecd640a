// What becomes of a replacement once the exchange has gone through
// (internal/dump/force.go): the calls in order, and the outcome that a schedule of
// failures leads to.
module AfterExchange {
  import opened Options
  import opened Filesystem

  /** The outcomes a caller can tell apart by the error it gets. */
  datatype Failure =
    | NotPublished         // refused, canceled or failed before any exchange took effect
    | RolledBack           // exchanged, then exchanged back
    | ExchangeUnverified   // the paths could not be inspected after the exchange
    | RollbackRefused      // the paths could not be inspected before exchanging back
    | RollbackFailed       // exchanging back failed
    | RestoreFailed        // the quarantined root could not be moved back
    | ClearFailed          // clearing the quarantined root failed
  {
    /** The error leaves the new dump at the destination. */
    predicate Strands() {
      !NotPublished? && !RolledBack?
    }
  }

  /** The calls between the exchange and the clearing. */
  const STEPS := 9

  /** Both paths are inspected, the displaced root is revalidated in two steps, the
      quarantine is made, the root is moved there, inspected and revalidated again. */
  function Step(n: nat): Call
    requires n < STEPS
  {
    if n == 0 then Inspect(Staging)
    else if n == 1 then Inspect(Destination)
    else if n == MOVED then Move(Staging, QuarantineRoot)
    else if n == 6 then Inspect(QuarantineRoot)
    else Check
  }

  /** The step that moves the displaced root into the quarantine. */
  const MOVED := 5

  /** The log when n steps have been made. */
  function After(log: seq<Call>, n: nat): seq<Call>
    requires n <= STEPS
  {
    if n == 0 then log else After(log, n - 1) + [Step(n - 1)]
  }

  predicate StepGoes(fates: Schedule, log: seq<Call>, n: nat)
    requires n < STEPS
  {
    Goes(fates, After(log, n), Step(n))
  }

  /** The first step from n on that fails; STEPS when all go through. */
  function FirstFailure(fates: Schedule, log: seq<Call>, n: nat): (f: nat)
    requires n <= STEPS
    ensures n <= f <= STEPS && (f < STEPS ==> !StepGoes(fates, log, f))
    ensures forall i :: n <= i < f ==> StepGoes(fates, log, i)
    decreases STEPS - n
  {
    if n == STEPS || !StepGoes(fates, log, n) then n else FirstFailure(fates, log, n + 1)
  }

  /** Rolling back is prevented: an inspection or the exchange back fails. */
  predicate Blocked(fates: Schedule, log: seq<Call>) {
    || !Goes(fates, log, Inspect(Staging))
    || !Goes(fates, log + [Inspect(Staging)], Inspect(Destination))
    || !Goes(fates, log + [Inspect(Staging), Inspect(Destination)], Swap(Staging, Destination))
  }

  /** That many removals in a row go through. */
  predicate Changes(fates: Schedule, log: seq<Call>, n: nat)
    decreases n
  {
    n == 0 || (Goes(fates, log, Change) && Changes(fates, log + [Change], n - 1))
  }

  /** Clearing a directory of that many entries goes through. */
  predicate Clears(fates: Schedule, log: seq<Call>, entries: nat) {
    Goes(fates, log, Check) && Changes(fates, log + [Check], entries)
  }

  /** What the schedule does to a replacement, from the log that ends in the exchange:
      an inspection right after it fails; or a later step fails and so does what should
      undo it, moving the root back out of the quarantine or rolling back; or every
      step goes through and the clearing fails. */
  predicate Stranding(fates: Schedule, log: seq<Call>, entries: nat) {
    || !StepGoes(fates, log, 0)
    || !StepGoes(fates, log, 1)
    || var f := FirstFailure(fates, log, 2);
       if f == STEPS then !Clears(fates, After(log, f), entries)
       else if f > MOVED then
         || !Goes(fates, After(log, f + 1), Move(QuarantineRoot, Staging))
         || Blocked(fates, After(log, f + 1) + [Move(QuarantineRoot, Staging)])
       else Blocked(fates, After(log, f + 1))
  }

  function RollbackOutcome(fates: Schedule, log: seq<Call>): (failure: Failure)
    ensures failure.RolledBack? <==> !Blocked(fates, log)
    ensures failure in {RolledBack, RollbackRefused, RollbackFailed}
  {
    if !Goes(fates, log, Inspect(Staging)) || !Goes(fates, log + [Inspect(Staging)], Inspect(Destination)) then RollbackRefused
    else if !Goes(fates, log + [Inspect(Staging), Inspect(Destination)], Swap(Staging, Destination)) then RollbackFailed
    else RolledBack
  }

  function RestoreOutcome(fates: Schedule, log: seq<Call>): Failure {
    if !Goes(fates, log, Move(QuarantineRoot, Staging)) then RestoreFailed
    else RollbackOutcome(fates, log + [Move(QuarantineRoot, Staging)])
  }

  /** How the replacement ends. */
  function Settlement(fates: Schedule, log: seq<Call>, entries: nat): (failure: Option<Failure>)
    ensures failure != Some(NotPublished)
    ensures failure.None? ==> !Stranding(fates, log, entries)
    ensures failure.Some? ==> (failure.value.Strands() <==> Stranding(fates, log, entries))
    ensures failure == Some(ClearFailed) <==>
      (forall n :: 0 <= n < STEPS ==> StepGoes(fates, log, n)) && !Clears(fates, After(log, STEPS), entries)
  {
    if !StepGoes(fates, log, 0) || !StepGoes(fates, log, 1) then Some(ExchangeUnverified)
    else
      var f := FirstFailure(fates, log, 2);
      if f == STEPS then if Clears(fates, After(log, f), entries) then None else Some(ClearFailed)
      else if f > MOVED then Some(RestoreOutcome(fates, After(log, f + 1)))
      else Some(RollbackOutcome(fates, After(log, f + 1)))
  }

  /** The calls up to the clearing, one by one. */
  const CALLS := [
    Inspect(Staging), Inspect(Destination), Check, Check, Check,
    Move(Staging, QuarantineRoot), Inspect(QuarantineRoot), Check, Check]

  lemma {:induction false} AfterIsPrefix(log: seq<Call>, n: nat)
    requires n <= 9
    ensures STEPS == 9 && After(log, n) == log + CALLS[..n]
  {
    if n > 0 {
      AfterIsPrefix(log, n - 1);
      assert CALLS[..n] == CALLS[..n - 1] + [CALLS[n - 1]];
    }
  }

  /** Call n of the nine goes through. */
  predicate CallGoes(fates: Schedule, log: seq<Call>, n: nat)
    requires n < 9
  {
    fates(log + CALLS[..n + 1]).Proceeds?
  }

  lemma StepIsCall(fates: Schedule, log: seq<Call>, n: nat)
    requires n < 9
    ensures STEPS == 9 && (StepGoes(fates, log, n) <==> CallGoes(fates, log, n))
  {
    AfterIsPrefix(log, n);
    AfterIsPrefix(log, n + 1);
    assert After(log, n) + [Step(n)] == log + CALLS[..n + 1];
  }

  /** The outcome said of the nine calls: no error, or a failed clearing, only after all
      of them; no verified exchange without the first two; and rolling back is tried
      exactly when one of the seven others fails, once a root in the quarantine is back. */
  lemma OutcomeByCalls(fates: Schedule, log: seq<Call>, entries: nat)
    ensures var failure := Settlement(fates, log, entries);
      && (failure == Some(ExchangeUnverified) <==> !CallGoes(fates, log, 0) || !CallGoes(fates, log, 1))
      && (failure.None? || failure == Some(ClearFailed) <==> forall n :: 0 <= n < 9 ==> CallGoes(fates, log, n))
      && (failure.Some? && failure.value in {RolledBack, RollbackRefused, RollbackFailed, RestoreFailed} <==>
            CallGoes(fates, log, 0) && CallGoes(fates, log, 1) && exists n :: 2 <= n < 9 && !CallGoes(fates, log, n))
  {
    forall n | 0 <= n < 9 ensures StepGoes(fates, log, n) <==> CallGoes(fates, log, n) {
      StepIsCall(fates, log, n);
    }
    AfterIsPrefix(log, 0);
    var f := FirstFailure(fates, log, 2);
    assert f < 9 ==> !CallGoes(fates, log, f);
  }

  /** The last call of a log is the given one, and it did not go through. */
  predicate FailedAt(fates: Schedule, calls: seq<Call>, call: Call) {
    calls != [] && calls[|calls| - 1] == call && !fates(calls).Proceeds?
  }

  /** The last two calls inspect both paths, and one of them did not go through. */
  predicate InspectionFailed(fates: Schedule, calls: seq<Call>) {
    && |calls| >= 2 && calls[|calls| - 2..] == [Inspect(Staging), Inspect(Destination)]
    && (!fates(calls[..|calls| - 1]).Proceeds? || !fates(calls).Proceeds?)
  }

  /** An exchange went through, followed by the two inspections that end a rollback. */
  predicate ExchangedBack(fates: Schedule, calls: seq<Call>) {
    && |calls| >= 3 && calls[|calls| - 3] == Swap(Staging, Destination) && fates(calls[..|calls| - 2]).Proceeds?
    && calls[|calls| - 2..] == [Inspect(Destination), Inspect(Staging)]
  }

  /** The call that an error blames: the last call made, or one of the inspections that
      end the log. */
  predicate Blames(fates: Schedule, calls: seq<Call>, failure: Failure) {
    match failure
    case NotPublished => false
    case RolledBack => ExchangedBack(fates, calls)
    case RollbackRefused => InspectionFailed(fates, calls)
    case ExchangeUnverified => InspectionFailed(fates, calls)
    case RollbackFailed => FailedAt(fates, calls, Swap(Staging, Destination))
    case RestoreFailed => FailedAt(fates, calls, Move(QuarantineRoot, Staging))
    case ClearFailed => FailedAt(fates, calls, Check) || FailedAt(fates, calls, Change)
  }

  lemma VerificationBlames(fates: Schedule, log: seq<Call>)
    requires !StepGoes(fates, log, 0) || !StepGoes(fates, log, 1)
    ensures Blames(fates, After(log, 2), ExchangeUnverified)
  {
    var first := log + [Inspect(Staging)];
    assert After(log, 0) == log && After(log, 1) == first;
    assert After(log, 2) == first + [Inspect(Destination)];
    assert After(log, 2)[..|log| + 1] == first;
  }

  /** The log of a rollback, which ends as soon as a call of it fails. */
  function RolledBackLog(fates: Schedule, log: seq<Call>): seq<Call> {
    var inspected := log + [Inspect(Staging), Inspect(Destination)];
    match RollbackOutcome(fates, log)
    case RollbackRefused => inspected
    case RollbackFailed => inspected + [Swap(Staging, Destination)]
    case _ => inspected + [Swap(Staging, Destination), Inspect(Destination), Inspect(Staging)]
  }

  lemma RollbackBlames(fates: Schedule, log: seq<Call>)
    ensures Blames(fates, RolledBackLog(fates, log), RollbackOutcome(fates, log))
  {
    var inspected := log + [Inspect(Staging), Inspect(Destination)];
    assert inspected[..|inspected| - 1] == log + [Inspect(Staging)];
    assert log + [Inspect(Staging)] + [Inspect(Destination)] == inspected;
    var whole := inspected + [Swap(Staging, Destination), Inspect(Destination), Inspect(Staging)];
    assert whole[..|whole| - 2] == inspected + [Swap(Staging, Destination)];
  }

  /** Were it not for inspections, an error before the clearing would leave the new dump
      in place exactly when the restoring rename or the exchange back fails. */
  lemma StrandsByRestoringCalls(fates: Schedule, log: seq<Call>, entries: nat)
    requires forall l, p :: Goes(fates, l, Inspect(p))
    requires Settlement(fates, log, entries).Some? && !Settlement(fates, log, entries).value.ClearFailed?
    ensures var f := FirstFailure(fates, log, 2);
      && f < STEPS
      && var undoing := if f > MOVED then After(log, f + 1) + [Move(QuarantineRoot, Staging)] else After(log, f + 1);
         Settlement(fates, log, entries).value.Strands() <==>
           || (f > MOVED && !Goes(fates, After(log, f + 1), Move(QuarantineRoot, Staging)))
           || !Goes(fates, undoing + [Inspect(Staging), Inspect(Destination)], Swap(Staging, Destination))
  {
  }
}
