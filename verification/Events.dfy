// The lifecycle of operation events (internal/machine/events.go): a stream that
// owns one synchronous sink, which may refuse or panic at any delivery.
module Events {
  import opened Options
  import opened JsonValues

  type Record = map<string, Json>

  datatype Manifest = Manifest(capabilities: seq<string>)

  datatype MachineError = MachineError(
    kind: string, message: string, missing: seq<string>, operation: string, product: string, resource: string)

  datatype Kind = Unset | Started | Progress | RecordEvent | Warning | Completed | Failed | Canceled | Unknown

  predicate IsTerminal(kind: Kind) {
    kind.Completed? || kind.Failed? || kind.Canceled?
  }

  /** result is the typed result a completed resource read carries. */
  datatype Event = Event(
    kind: Kind, product: string, resource: string, done: int, total: int,
    record: Option<Record>, manifest: Option<Manifest>, err: Option<MachineError>,
    records: int, resources: int, warnings: int, result: Option<seq<Record>>)

  function Plain(kind: Kind, product: string, resource: string): Event {
    Event(kind, product, resource, 0, 0, None, None, None, 0, 0, 0, None)
  }

  const INTERNAL := "internal"
  const CANCELED := "canceled"
  const SINK_FAILED := "event sink failed"

  function Internal(message: string): MachineError {
    MachineError(INTERNAL, message, [], "", "", "")
  }

  // ------------------------------------------------------------- the sink

  /** The error a sink returns: a machine error, a nil pointer to one, or another. */
  datatype SinkError = Machine(err: MachineError) | NilMachine | Other

  datatype Answer = Accept | Refuse(reason: SinkError) | Panic

  /** A sink answers each delivery by what it has been given so far. */
  class Sink {
    const answer: seq<Event> -> Answer
    var delivered: seq<Event>

    constructor (answer: seq<Event> -> Answer)
      ensures this.answer == answer && delivered == []
    {
      this.answer := answer;
      delivered := [];
    }

    method Call(event: Event) returns (reply: Answer)
      modifies this
      ensures delivered == old(delivered) + [event] && reply == answer(delivered)
    {
      delivered := delivered + [event];
      reply := answer(delivered);
    }
  }

  /** machineErrorFromSinkError */
  function FromSinkError(reason: SinkError): MachineError {
    match reason
    case Machine(err) => err
    case NilMachine => Internal(SINK_FAILED)
    case Other => Internal(SINK_FAILED)
  }

  /** machineErrorWithContext */
  function WithContext(e: MachineError, operation: string, product: string, resource: string): MachineError {
    e.(kind := if e.kind == "" then INTERNAL else e.kind,
       message := if e.message == "" then SINK_FAILED else e.message,
       operation := if e.operation == "" then operation else e.operation,
       product := if e.product == "" then product else e.product,
       resource := if e.resource == "" then resource else e.resource)
  }

  /** What emit reports when the sink does not accept an event. */
  function Refusal(reply: Answer, event: Event): Option<MachineError> {
    match reply
    case Accept => None
    case Panic => Some(Internal("event sink panicked").(product := event.product, resource := event.resource))
    case Refuse(reason) =>
      var e := FromSinkError(reason);
      Some(e.(product := if e.product == "" then event.product else e.product,
              resource := if e.resource == "" then event.resource else e.resource))
  }

  // ------------------------------------------------- well-formed payloads

  predicate NoCounters(e: Event) {
    e.records == 0 && e.resources == 0 && e.warnings == 0
  }

  predicate ProgressOk(e: Event) {
    && 0 <= e.done && 0 <= e.total && (e.total > 0 ==> e.done <= e.total)
    && e.record.None? && e.manifest.None? && e.err.None? && e.result.None? && NoCounters(e)
  }

  predicate RecordOk(e: Event) {
    && e.record.Some? && e.manifest.None? && e.err.None? && e.result.None?
    && e.done == 0 && e.total == 0 && NoCounters(e)
  }

  predicate WarningOk(e: Event) {
    && e.err.Some? && e.record.None? && e.manifest.None? && e.result.None?
    && e.done == 0 && e.total == 0 && NoCounters(e)
  }

  predicate CompletedOk(e: Event) {
    && e.record.None? && e.err.None? && e.done == 0 && e.total == 0
    && 0 <= e.records && 0 <= e.resources && 0 <= e.warnings
    && (e.manifest.Some? ==> NoCounters(e) && e.result.None?)
    && (e.result.Some? ==> |e.result.value| == e.records && e.resources == 1 && e.warnings == 0)
  }

  predicate FailedOk(e: Event) {
    && e.err.Some? && e.err.value.kind != "" && e.err.value.message != ""
    && e.product == e.err.value.product && e.resource == e.err.value.resource
    && e.record.None? && e.manifest.None? && e.result.None?
    && e.done == 0 && e.total == 0 && NoCounters(e)
    && (e.kind.Canceled? ==> e.err.value.kind == CANCELED)
  }

  predicate StartedOk(e: Event) {
    && e.record.None? && e.manifest.None? && e.err.None? && e.result.None? && e.done == 0 && NoCounters(e)
  }

  /** Every delivered payload fits its kind. */
  predicate PayloadOk(e: Event) {
    match e.kind
    case Started => StartedOk(e)
    case Progress => ProgressOk(e)
    case RecordEvent => RecordOk(e)
    case Warning => WarningOk(e)
    case Completed => CompletedOk(e)
    case Failed => FailedOk(e)
    case Canceled => FailedOk(e)
    case Unset => false
    case Unknown => false
  }

  /** The same by what an event carries: each payload belongs to its kinds alone. */
  lemma PayloadByField(e: Event)
    ensures PayloadOk(e) <==>
      && !e.kind.Unset? && !e.kind.Unknown?
      && (e.record.Some? <==> e.kind.RecordEvent?)
      && (e.err.Some? <==> e.kind.Warning? || e.kind.Failed? || e.kind.Canceled?)
      && (e.manifest.Some? || e.result.Some? || e.records != 0 || e.resources != 0 || e.warnings != 0 ==> e.kind.Completed?)
      && (e.done != 0 ==> e.kind.Progress?)
      && (e.total != 0 ==> e.kind.Progress? || e.kind.Started?)
      && (e.kind.Progress? ==> e.done >= 0 && e.total >= 0 && (e.total == 0 || e.done <= e.total))
      && e.records >= 0 && e.resources >= 0 && e.warnings >= 0
      && (e.manifest.Some? ==> e.result.None? && e.records == e.resources == e.warnings == 0)
      && (e.result.Some? ==> |e.result.value| == e.records && e.resources == 1 && e.warnings == 0)
      && (e.kind.Failed? || e.kind.Canceled? ==>
            && e.err.value.kind != "" && e.err.value.message != ""
            && e.product == e.err.value.product && e.resource == e.err.value.resource)
      && (e.kind.Canceled? ==> e.err.value.kind == "canceled")
  {
  }

  /** Started, then progress, records and warnings, then at most one terminal event. */
  predicate WellShaped(trace: seq<Event>) {
    && (forall i :: 0 <= i < |trace| ==> PayloadOk(trace[i]))
    && (forall i :: 0 <= i < |trace| ==> (trace[i].kind.Started? <==> i == 0))
    && (forall i :: 0 <= i < |trace| - 1 ==> !IsTerminal(trace[i].kind))
  }

  predicate Ended(trace: seq<Event>) {
    trace != [] && IsTerminal(trace[|trace| - 1].kind)
  }

  function ProgressComplaint(e: Event): (complaint: Option<string>)
    ensures complaint.None? <==> ProgressOk(e)
  {
    if e.done < 0 || e.total < 0 || (e.total > 0 && e.done > e.total) then Some("progress event has invalid counters")
    else if e.record.Some? || e.manifest.Some? || e.err.Some? || e.result.Some? || !NoCounters(e) then
      Some("progress event has a non-progress payload")
    else None
  }

  function RecordComplaint(e: Event): (complaint: Option<string>)
    ensures complaint.None? <==> RecordOk(e)
  {
    if e.record.None? then Some("record event has no record")
    else if e.manifest.Some? || e.err.Some? || e.result.Some? || e.done != 0 || e.total != 0 || !NoCounters(e) then
      Some("record event has a non-record payload")
    else None
  }

  function WarningComplaint(e: Event): (complaint: Option<string>)
    ensures complaint.None? <==> WarningOk(e)
  {
    if e.err.None? then Some("warning event has no machine error")
    else if e.record.Some? || e.manifest.Some? || e.result.Some? || e.done != 0 || e.total != 0 || !NoCounters(e) then
      Some("warning event has a non-warning payload")
    else None
  }

  /** invalidNonTerminalEvent */
  function InvalidNonTerminal(e: Event): (complaint: Option<string>)
    ensures complaint.None? <==> (e.kind.Progress? || e.kind.RecordEvent? || e.kind.Warning?) && PayloadOk(e)
  {
    match e.kind
    case Progress => ProgressComplaint(e)
    case RecordEvent => RecordComplaint(e)
    case Warning => WarningComplaint(e)
    case _ => Some("event stream received an invalid non-terminal event kind")
  }

  /** The checks of Complete. */
  function InvalidCompletion(e: Event): (complaint: Option<string>)
    ensures complaint.None? <==> (e.kind.Unset? || e.kind.Completed?) && CompletedOk(e)
  {
    if !e.kind.Unset? && !e.kind.Completed? then Some("completion has a non-completed event kind")
    else if e.record.Some? || e.err.Some? || e.done != 0 || e.total != 0 then Some("completion has a non-completion payload")
    else if e.records < 0 || e.resources < 0 || e.warnings < 0 then Some("completion has a negative count")
    else if e.manifest.Some? && !NoCounters(e) then Some("manifest completion has resource counters")
    else if e.manifest.Some? && e.result.Some? then Some("manifest completion has typed resource result")
    else if e.result.Some? && (|e.result.value| != e.records || e.resources != 1 || e.warnings != 0) then
      Some("typed result completion has inconsistent counters")
    else None
  }

  /** The terminal event that carries an error. */
  function Terminal(kind: Kind, e: MachineError): Event {
    Plain(kind, e.product, e.resource).(err := Some(e))
  }

  function FailureKind(e: MachineError): Kind {
    if e.kind == CANCELED then Canceled else Failed
  }

  // --------------------------------------- what a caller and a sink are told

  /** err is e, put into a context: what e says is kept, what it leaves open filled in. */
  predicate ErrorIs(err: MachineError, e: MachineError, operation: string, product: string, resource: string) {
    && err.kind == (if e.kind == "" then "internal" else e.kind)
    && err.message == (if e.message == "" then "event sink failed" else e.message)
    && err.missing == e.missing
    && err.operation == (if e.operation == "" then operation else e.operation)
    && err.product == (if e.product == "" then product else e.product)
    && err.resource == (if e.resource == "" then resource else e.resource)
  }

  /** The event reports err and nothing else. */
  predicate Reports(event: Event, err: MachineError) {
    && event.err == Some(err) && event.product == err.product && event.resource == err.resource
    && event.record.None? && event.manifest.None? && event.result.None?
    && event.done == event.total == event.records == event.resources == event.warnings == 0
  }

  /** sent is event, its scope filled in where it leaves it open. */
  predicate InScope(sent: Event, event: Event, product: string, resource: string) {
    && sent == event.(product := sent.product, resource := sent.resource)
    && sent.product == (if event.product == "" then product else event.product)
    && sent.resource == (if event.resource == "" then resource else event.resource)
  }

  /** err is the sink's refusal of an event, in its context. */
  predicate RefusalIs(err: MachineError, reply: Answer, sent: Event, operation: string) {
    match reply
    case Accept => false
    case Panic => ErrorIs(err, MachineError("internal", "event sink panicked", [], "", "", ""), operation, sent.product, sent.resource)
    case Refuse(Machine(e)) => ErrorIs(err, e, operation, sent.product, sent.resource)
    case Refuse(_) => ErrorIs(err, MachineError("internal", "event sink failed", [], "", "", ""), operation, sent.product, sent.resource)
  }

  // ----------------------------------------------------------- the stream

  class EventStream {
    const sink: Sink
    const operation: string
    const product: string
    const resource: string
    var started: bool
    var terminal: bool

    /** What the stream has done so far, as the sink saw it. */
    predicate Valid()
      reads this, sink
    {
      && WellShaped(sink.delivered)
      && (started <==> sink.delivered != [])
      && (terminal <==> Ended(sink.delivered))
    }

    /** A stream that callers hold: started, unless an error already ended it. */
    predicate Live()
      reads this, sink
    {
      Valid() && started
    }

    constructor (sink: Sink, operation: string, product: string, resource: string)
      requires sink.delivered == []
      ensures Valid() && !started && !terminal
      ensures this.sink == sink && this.operation == operation && this.product == product && this.resource == resource
    {
      this.sink := sink;
      this.operation := operation;
      this.product := product;
      this.resource := resource;
      started := false;
      terminal := false;
    }

    /** eventEmitter.emit */
    method Deliver(event: Event) returns (failure: Option<MachineError>)
      requires Valid() && PayloadOk(event)
      modifies this, sink
      ensures Valid() && started == (old(started) || event.kind.Started?)
      ensures if old(terminal) || old(started) == event.kind.Started?
              then sink.delivered == old(sink.delivered) && failure.Some?
              else sink.delivered == old(sink.delivered) + [event]
                   && failure == Refusal(sink.answer(sink.delivered), event)
    {
      if terminal {
        return Some(Internal("event emitted after terminal event"));
      }
      if !started && !event.kind.Started? {
        return Some(Internal("first event is not started"));
      }
      if started && event.kind.Started? {
        return Some(Internal("started event emitted more than once"));
      }
      if event.kind.Started? {
        started := true;
      }
      if IsTerminal(event.kind) {
        terminal := true;
      }
      var reply := sink.Call(event);
      failure := Refusal(reply, event);
    }

    /** emitTerminalError */
    method DeliverError(kind: Kind, e: MachineError) returns (failure: Option<MachineError>)
      requires Live() && (kind.Failed? || kind.Canceled?) && PayloadOk(Terminal(kind, e))
      modifies this, sink
      ensures Live() && terminal
      ensures if old(terminal) then sink.delivered == old(sink.delivered) && failure.Some?
              else sink.delivered == old(sink.delivered) + [Terminal(kind, e)]
                   && (failure.None? <==> sink.answer(sink.delivered).Accept?)
    {
      failure := Deliver(Terminal(kind, e));
      if failure.Some? {
        failure := Some(WithContext(failure.value, e.operation, e.product, e.resource));
      }
    }

    /** failAfterDelivery */
    method FailAfterDelivery(e: MachineError, product: string, resource: string) returns (failure: MachineError)
      requires Valid()
      modifies this, sink
      ensures Valid() && started == old(started) && (started ==> terminal)
      ensures var contextual := WithContext(e, operation, product, resource);
        if !old(started) || old(terminal) then sink.delivered == old(sink.delivered) && failure == contextual
        else sink.delivered == old(sink.delivered) + [Terminal(Failed, contextual)]
             && (sink.answer(sink.delivered).Accept? ==> failure == contextual)
    {
      failure := WithContext(e, operation, product, resource);
      if !started || terminal {
        return;
      }
      var delivery := DeliverError(Failed, failure);
      if delivery.Some? {
        failure := delivery.value;
      }
    }

    /** applyDefaultScope */
    function Scoped(event: Event): Event {
      event.(product := if event.product == "" then product else event.product,
             resource := if event.resource == "" then resource else event.resource)
    }

    function Contextual(e: MachineError): MachineError {
      WithContext(e, operation, product, resource)
    }

    /** Fail */
    method Fail(e: MachineError) returns (failure: Option<MachineError>)
      requires Live()
      modifies this, sink
      ensures Live() && terminal
      ensures if old(terminal) then sink.delivered == old(sink.delivered) && failure.Some?
              else sink.delivered == old(sink.delivered) + [Terminal(FailureKind(Contextual(e)), Contextual(e))]
                   && (failure.None? <==> sink.answer(sink.delivered).Accept?)
      ensures !old(terminal) ==>
        && |sink.delivered| == |old(sink.delivered)| + 1
        && var last := sink.delivered[|old(sink.delivered)|];
        && last.kind == (if e.kind == "canceled" then Canceled else Failed) && last.err.Some?
        && ErrorIs(last.err.value, e, operation, product, resource) && Reports(last, last.err.value)
    {
      var contextual := Contextual(e);
      var kind := if contextual.kind == CANCELED then Canceled else Failed;
      failure := DeliverError(kind, contextual);
    }

    /** failProducer */
    method FailProducer(message: string) returns (failure: MachineError)
      requires Live()
      modifies this, sink
      ensures Live() && terminal
      ensures old(terminal) ==> sink.delivered == old(sink.delivered)
      ensures !old(terminal) ==>
        sink.delivered == old(sink.delivered) + [Terminal(Failed, Contextual(Internal(message)))]
    {
      failure := Contextual(Internal(message));
      var delivery := Fail(failure);
      if delivery.Some? {
        failure := delivery.value;
      }
    }

    /** Emit: an event is delivered and accepted, or the stream ends with an error. */
    method Emit(event: Event) returns (failure: Option<MachineError>)
      requires Live()
      modifies this, sink
      ensures Live() && terminal == failure.Some?
      ensures failure.None? <==>
        !old(terminal) && InvalidNonTerminal(event).None? && sink.answer(old(sink.delivered) + [Scoped(event)]).Accept?
      ensures old(terminal) ==> sink.delivered == old(sink.delivered)
      ensures !old(terminal) && InvalidNonTerminal(event).Some? ==>
        sink.delivered == old(sink.delivered) + [Terminal(Failed, Contextual(Internal(InvalidNonTerminal(event).value)))]
      ensures !old(terminal) && InvalidNonTerminal(event).None? ==>
        if failure.None? then sink.delivered == old(sink.delivered) + [Scoped(event)]
        else |sink.delivered| == |old(sink.delivered)| + 2
             && sink.delivered[..|old(sink.delivered)| + 1] == old(sink.delivered) + [Scoped(event)]
             && sink.delivered[|old(sink.delivered)| + 1].kind.Failed?
      ensures failure.None? ==>
        |sink.delivered| == |old(sink.delivered)| + 1 && InScope(sink.delivered[|old(sink.delivered)|], event, product, resource)
      ensures !old(terminal) && InvalidNonTerminal(event).None? && failure.Some? ==>
        && |sink.delivered| == |old(sink.delivered)| + 2
        && var n := |old(sink.delivered)|; var last := sink.delivered[n + 1];
        && InScope(sink.delivered[n], event, product, resource)
        && last.err.Some? && Reports(last, last.err.value)
        && RefusalIs(last.err.value, sink.answer(sink.delivered[..n + 1]), sink.delivered[n], operation)
        && (sink.answer(sink.delivered).Accept? ==> failure == last.err)
    {
      var complaint := InvalidNonTerminal(event);
      if complaint.Some? {
        var reported := FailProducer(complaint.value);
        return Some(reported);
      }
      var scoped := Scoped(event);
      assert PayloadOk(scoped);
      failure := Deliver(scoped);
      if failure.Some? {
        var reported := FailAfterDelivery(failure.value, scoped.product, scoped.resource);
        failure := Some(reported);
      }
    }

    /** Complete */
    method Complete(event: Event) returns (failure: Option<MachineError>)
      requires Live()
      modifies this, sink
      ensures Live() && terminal
      ensures failure.None? <==>
        !old(terminal) && InvalidCompletion(event).None?
        && sink.answer(old(sink.delivered) + [Scoped(event.(kind := Completed))]).Accept?
      ensures old(terminal) ==> sink.delivered == old(sink.delivered)
      ensures !old(terminal) ==>
        sink.delivered == old(sink.delivered)
          + [if InvalidCompletion(event).None? then Scoped(event.(kind := Completed))
             else Terminal(Failed, Contextual(Internal(InvalidCompletion(event).value)))]
      ensures !old(terminal) && InvalidCompletion(event).None? ==>
        && |sink.delivered| == |old(sink.delivered)| + 1
        && var last := sink.delivered[|old(sink.delivered)|];
        && last.kind.Completed? && InScope(last, event.(kind := Completed), product, resource)
        && (failure.Some? ==> RefusalIs(failure.value, sink.answer(sink.delivered), last, operation))
    {
      var complaint := InvalidCompletion(event);
      if complaint.Some? {
        var reported := FailProducer(complaint.value);
        return Some(reported);
      }
      var scoped := Scoped(event.(kind := Completed));
      assert PayloadOk(scoped);
      failure := Deliver(scoped);
      if failure.Some? {
        var reported := FailAfterDelivery(failure.value, scoped.product, scoped.resource);
        failure := Some(reported);
      }
    }
  }

  /** StartEventStream. No sink means no stream and no delivery. */
  method StartEventStream(sink: Sink?, operation: string, product: string, resource: string, total: int)
    returns (stream: EventStream?, failure: Option<MachineError>)
    requires sink != null ==> sink.delivered == []
    modifies if sink == null then {} else {sink}
    ensures stream == null <==> failure.Some?
    ensures sink == null ==> stream == null
    ensures stream != null ==>
      && fresh(stream) && stream.sink == sink && stream.operation == operation
      && stream.product == product && stream.resource == resource
      && stream.Live() && !stream.terminal
      && sink.delivered == [Plain(Started, product, resource).(total := total)]
    ensures sink != null ==>
      var opening := [Plain(Started, product, resource).(total := total)];
      && WellShaped(sink.delivered)
      && (stream != null <==> sink.answer(opening).Accept?)
      && (stream == null ==> |sink.delivered| == 2 && sink.delivered[..1] == opening && sink.delivered[1].kind.Failed?)
    ensures sink != null ==>
      && sink.delivered != []
      && var first := sink.delivered[0];
      && first.kind.Started? && first.product == product && first.resource == resource && first.total == total
      && (stream == null ==>
            && |sink.delivered| == 2 && sink.delivered[1].err.Some?
            && Reports(sink.delivered[1], sink.delivered[1].err.value)
            && RefusalIs(sink.delivered[1].err.value, sink.answer(sink.delivered[..1]), first, operation)
            && (sink.answer(sink.delivered).Accept? ==> failure == sink.delivered[1].err))
  {
    if sink == null {
      return null, Some(WithContext(Internal("event sink is not configured"), operation, product, resource));
    }
    var s := new EventStream(sink, operation, product, resource);
    var opening := Plain(Started, product, resource).(total := total);
    failure := s.Deliver(opening);
    assert sink.delivered == [opening];
    if failure.Some? {
      var reported := s.FailAfterDelivery(failure.value, product, resource);
      return null, Some(reported);
    }
    stream := s;
  }

  // -------------------------------------------------------- any run at all

  datatype Call = EmitCall(event: Event) | CompleteCall(event: Event) | FailCall(err: MachineError)

  method PerformEmit(stream: EventStream, event: Event) returns (failure: Option<MachineError>)
    requires stream.Live()
    modifies stream, stream.sink
    ensures stream.Live() && (failure.Some? ==> stream.terminal)
    ensures old(stream.terminal) ==> failure.Some? && stream.sink.delivered == old(stream.sink.delivered)
    ensures old(stream.sink.delivered) <= stream.sink.delivered
  {
    ghost var before := stream.sink.delivered;
    failure := stream.Emit(event);
    assert before <= stream.sink.delivered by {
      if |stream.sink.delivered| == |before| + 2 {
        assert stream.sink.delivered[..|before|] == stream.sink.delivered[..|before| + 1][..|before|] == before;
      }
    }
  }

  method PerformComplete(stream: EventStream, event: Event) returns (failure: Option<MachineError>)
    requires stream.Live()
    modifies stream, stream.sink
    ensures stream.Live() && (failure.Some? ==> stream.terminal)
    ensures old(stream.terminal) ==> failure.Some? && stream.sink.delivered == old(stream.sink.delivered)
    ensures old(stream.sink.delivered) <= stream.sink.delivered
  {
    failure := stream.Complete(event);
  }

  method PerformFail(stream: EventStream, err: MachineError) returns (failure: Option<MachineError>)
    requires stream.Live()
    modifies stream, stream.sink
    ensures stream.Live() && (failure.Some? ==> stream.terminal)
    ensures old(stream.terminal) ==> failure.Some? && stream.sink.delivered == old(stream.sink.delivered)
    ensures old(stream.sink.delivered) <= stream.sink.delivered
  {
    failure := stream.Fail(err);
  }

  method Perform(stream: EventStream, call: Call) returns (failure: Option<MachineError>)
    requires stream.Live()
    modifies stream, stream.sink
    ensures stream.Live() && (failure.Some? ==> stream.terminal)
    ensures old(stream.terminal) ==> failure.Some? && stream.sink.delivered == old(stream.sink.delivered)
    ensures old(stream.sink.delivered) <= stream.sink.delivered
  {
    match call {
      case EmitCall(event) => failure := PerformEmit(stream, event);
      case CompleteCall(event) => failure := PerformComplete(stream, event);
      case FailCall(err) => failure := PerformFail(stream, err);
    }
  }

  /** Any calls in any order: the trace stays well-shaped, and from the first call
      that fails on, every call fails and nothing more is delivered. lengths[i] is
      the number of deliveries once call i has returned. */
  method PerformAll(stream: EventStream, calls: seq<Call>) returns (failed: seq<bool>, lengths: seq<nat>)
    requires stream.Live()
    modifies stream, stream.sink
    ensures stream.Live() && WellShaped(stream.sink.delivered)
    ensures old(stream.sink.delivered) <= stream.sink.delivered
    ensures |failed| == |lengths| == |calls|
    ensures forall i, j :: 0 <= i < j < |calls| && failed[i] ==> failed[j]
    ensures forall i :: 0 <= i < |calls| && failed[i] ==> lengths[i] == |stream.sink.delivered|
  {
    failed, lengths := [], [];
    for i := 0 to |calls|
      invariant stream.Live() && old(stream.sink.delivered) <= stream.sink.delivered
      invariant |failed| == |lengths| == i
      invariant forall k :: 0 <= k < i && failed[k] ==> stream.terminal && lengths[k] == |stream.sink.delivered|
      invariant forall j, k :: 0 <= j < k < i && failed[j] ==> failed[k]
    {
      var failure := Perform(stream, calls[i]);
      failed, lengths := failed + [failure.Some?], lengths + [|stream.sink.delivered|];
    }
  }
}
