// One-shot, streamed and typed execution of a machine request
// (internal/machine/executor.go and engine_read.go), all three driven by one event
// stream over a loader that may answer anything.
module Executor {
  import opened Options
  import opened Events

  datatype Filter = Filter(field: string, operator: string, value: string)

  datatype Input = Input(
    product: string, resource: string, recordId: string, fields: seq<string>, filters: seq<Filter>, search: string)

  datatype Request = Request(requestId: string, capability: string, operation: string, input: Option<Input>)

  const RESOURCES_READ := "resources.read"
  const LIST := "list"
  const GET := "get"
  const SHOW := "show"
  const MANIFEST := "manifest"

  const USAGE := "usage"
  const UNSUPPORTED_CAPABILITY := "unsupported_capability"
  const UNSUPPORTED_OPERATION := "unsupported_operation"
  const UNKNOWN_RESOURCE := "unknown_resource"
  const NOT_FOUND := "not_found"
  const INVALID_RESOURCE_ID := "invalid_resource_id"
  const LIVE_ACCESS_FAILED := "live_access_failed"
  const DEADLINE_EXCEEDED := "deadline_exceeded"

  const UNSUPPORTED_FILTER_OPERATOR :=
    "input.filters.operator is not supported; use \"=\", \"exact\", \"~\", or \"contains\""

  /** IsResourceReadOperation */
  predicate IsRead(operation: string) {
    operation == LIST || operation == GET || operation == SHOW
  }

  // ------------------------------------------------------------ the loader

  /** The errors the resource layer reports, as errors.Is tells them apart. */
  datatype Cause =
    | ContextCanceled | ContextDeadline | UnknownResource | RecordNotFound | InvalidId
    | FieldProblem(message: string) | UnsupportedLoad | OtherCause

  /** NilMachine: an error that is, or wraps, a nil *MachineError. */
  datatype LoadError = OfMachine(err: MachineError) | NilMachine | OfCause(cause: Cause)

  datatype Loaded = Loaded(records: seq<Record>) | LoadFailed(error: LoadError)

  datatype Query =
    | ListQuery(product: string, resource: string)
    | ShowQuery(product: string, resource: string)
    | GetQuery(product: string, resource: string, id: string)

  /** A loader and the queries it has been asked; isGetter: it can load by id. */
  class Loader {
    const answer: Query -> Loaded
    const isGetter: bool
    var queries: seq<Query>

    constructor (answer: Query -> Loaded, isGetter: bool)
      ensures this.answer == answer && this.isGetter == isGetter && queries == []
    {
      this.answer := answer;
      this.isGetter := isGetter;
      queries := [];
    }

    method Ask(query: Query) returns (loaded: Loaded)
      modifies this
      ensures queries == old(queries) + [query] && loaded == answer(query)
    {
      queries := queries + [query];
      loaded := answer(query);
    }
  }

  datatype ProjectedFilter = ProjectedFilter(field: string, value: string, substring: bool)

  datatype Narrowed = Narrowed(records: seq<Record>) | NarrowFailed(cause: Cause)

  /** Narrowing of a request: its fields, its filters and its search term. */
  datatype Narrowing = Narrowing(fields: seq<string>, filters: seq<ProjectedFilter>, search: string)

  /** Everything outside these files: text trimming and redaction, the catalog, and
      the validation and application of a narrowing. */
  datatype Environment = Environment(
    trim: string -> string,
    sanitize: string -> string,
    unknownMessage: (string, string) -> string,
    inCatalog: (string, string) -> bool,
    checkNarrowing: (string, string, Narrowing) -> Option<Cause>,
    narrow: (string, string, Narrowing, seq<Record>) -> Narrowed,
    manifest: Manifest)

  // ----------------------------------------------------------- the outcome

  /** What a request comes to: every kind of execution reports this. Panics: the
      conversion of the loader's error dereferences a nil *MachineError. */
  datatype Outcome =
    | Delivers(records: seq<Record>) | Described(manifest: Manifest) | Refused(err: MachineError) | Panics

  datatype Parsed = Parsed(filters: seq<ProjectedFilter>) | BadFilter(message: string)

  datatype Executor = Executor(browser: Loader?, env: Environment)
  {
    function Product(req: Request): string {
      if req.input.None? then "" else env.trim(req.input.value.product)
    }

    function Resource(req: Request): string {
      if req.input.None? then "" else env.trim(req.input.value.resource)
    }

    function RecordId(req: Request): string {
      if req.input.None? then "" else env.trim(req.input.value.recordId)
    }

    function Problem(req: Request, kind: string, message: string): MachineError {
      MachineError(kind, message, [], req.operation, Product(req), Resource(req))
    }

    /** fieldsFromInput */
    function FieldsOf(fields: seq<string>): seq<string> {
      if fields == [] then []
      else
        var last := env.trim(fields[|fields| - 1]);
        FieldsOf(fields[..|fields| - 1]) + if last == "" then [] else [last]
    }

    /** filtersFromInput: the first bad filter decides the message. */
    function FiltersOf(filters: seq<Filter>): Parsed {
      if filters == [] then Parsed([])
      else
        var earlier := FiltersOf(filters[..|filters| - 1]);
        var last := filters[|filters| - 1];
        var operator := env.trim(last.operator);
        if earlier.BadFilter? then earlier
        else if env.trim(last.field) == "" then BadFilter("input.filters.field is required")
        else if operator in {"=", "exact", "~", "contains"} then
          Parsed(earlier.filters + [ProjectedFilter(env.trim(last.field), last.value, operator in {"~", "contains"})])
        else BadFilter(UNSUPPORTED_FILTER_OPERATOR)
    }

    /** machineErrorFromLoadError */
    function FromCause(req: Request, cause: Cause): MachineError {
      match cause
      case ContextCanceled => Problem(req, CANCELED, "request canceled")
      case ContextDeadline => Problem(req, DEADLINE_EXCEEDED, "request deadline exceeded")
      case UnknownResource => Problem(req, UNKNOWN_RESOURCE, env.unknownMessage(Product(req), Resource(req)))
      case RecordNotFound => Problem(req, NOT_FOUND, "record not found")
      case InvalidId => Problem(req, INVALID_RESOURCE_ID, "invalid resource ID")
      case FieldProblem(message) => Problem(req, USAGE, env.sanitize(message))
      case UnsupportedLoad => Problem(req, UNSUPPORTED_OPERATION, "unsupported resource read operation")
      case OtherCause => Problem(req, LIVE_ACCESS_FAILED, "resource read failed")
    }

    function FromLoadError(req: Request, error: LoadError): MachineError
      requires !error.NilMachine?
    {
      match error
      case OfMachine(err) => err.(message := env.sanitize(err.message))
      case OfCause(cause) => FromCause(req, cause)
    }

    /** validateRequestSemantics */
    function SemanticsProblem(req: Request): Option<MachineError> {
      if req.input.None? then None
      else
        var input := req.input.value;
        if input.fields != [] && !IsRead(req.operation) then
          Some(Problem(req, USAGE, "input.fields applies to resource read operations only"))
        else if input.filters != [] && req.operation != LIST then
          Some(Problem(req, USAGE, "input.filters applies to list operation only"))
        else if input.search != "" && req.operation != LIST then
          Some(Problem(req, USAGE, "input.search applies to list operation only"))
        else
          match FiltersOf(input.filters)
          case Parsed(_) => None
          case BadFilter(message) => Some(Problem(req, USAGE, env.sanitize(message)))
    }

    /** requiredInput */
    function Missing(req: Request): seq<string> {
      if req.input.None? then ["input"]
      else
        (if Product(req) == "" then ["input.product"] else [])
        + (if Resource(req) == "" then ["input.resource"] else [])
        + (if req.operation == GET && RecordId(req) == "" then ["input.record_id"] else [])
    }

    function NarrowingOf(req: Request): Narrowing
      requires req.input.Some?
    {
      var input := req.input.value;
      var parsed := FiltersOf(input.filters);
      Narrowing(FieldsOf(input.fields), if parsed.Parsed? then parsed.filters else [], input.search)
    }

    /** validateRequestNarrowing, once the filters are known to parse */
    function NarrowingProblem(req: Request): Option<MachineError> {
      if req.input.None? || (req.input.value.fields == [] && req.input.value.filters == []) then None
      else if !env.inCatalog(Product(req), Resource(req)) then
        Some(Problem(req, UNKNOWN_RESOURCE, env.unknownMessage(Product(req), Resource(req))))
      else
        match env.checkNarrowing(Product(req), Resource(req), NarrowingOf(req).(search := ""))
        case Some(cause) => Some(FromCause(req, cause))
        case None => None
    }

    /** Every check ExecuteStream makes before it turns to the loader. */
    function ReadProblem(req: Request): Option<MachineError> {
      if req.capability != RESOURCES_READ then Some(Problem(req, UNSUPPORTED_CAPABILITY, "unsupported capability"))
      else if !IsRead(req.operation) then
        Some(Problem(req, UNSUPPORTED_OPERATION, "unsupported operation for resources.read"))
      else if Missing(req) != [] then
        Some(Problem(req, USAGE, "missing required input").(missing := Missing(req)))
      else if NarrowingProblem(req).Some? then NarrowingProblem(req)
      else if browser == null then Some(Problem(req, INTERNAL, "browser loader is not configured"))
      else None
    }

    function QueryOf(req: Request): Query {
      if req.operation == GET then GetQuery(Product(req), Resource(req), RecordId(req))
      else if req.operation == SHOW then ShowQuery(Product(req), Resource(req))
      else ListQuery(Product(req), Resource(req))
    }

    /** The query asks for what the request names, by the operation it names. */
    predicate AsksFor(query: Query, req: Request) {
      && req.input.Some?
      && var input := req.input.value;
      && query.product == env.trim(input.product) && query.resource == env.trim(input.resource)
      && (req.operation == "list" ==> query.ListQuery?)
      && (req.operation == "show" ==> query.ShowQuery?)
      && (req.operation == "get" ==> query.GetQuery? && query.id == env.trim(input.recordId))
    }

    lemma QueryAsks(req: Request)
      requires ReachesLoader(req)
      ensures AsksFor(QueryOf(req), req)
    {
    }

    /** The request passes validation as a read; a lookup by id needs a getter too. */
    predicate ReachesLoader(req: Request) {
      && SemanticsProblem(req).None? && req.operation != MANIFEST && ReadProblem(req).None?
      && browser != null && (req.operation == GET ==> browser.isGetter)
    }

    /** loadProjected */
    function LoadedFor(req: Request): Loaded
      requires browser != null
    {
      if req.operation == GET && !browser.isGetter then
        LoadFailed(OfMachine(Problem(req, INTERNAL, "projected record getter is not configured")))
      else browser.answer(QueryOf(req))
    }

    /** narrowProjected */
    function NarrowedFor(req: Request, records: seq<Record>): Narrowed {
      if req.input.None? then Narrowed(records)
      else
        var input := req.input.value;
        if input.fields == [] && input.filters == [] && input.search == "" then Narrowed(records)
        else if !env.inCatalog(Product(req), Resource(req)) then NarrowFailed(UnknownResource)
        else env.narrow(Product(req), Resource(req), NarrowingOf(req), records)
    }

    /** What the loader's answer comes to. */
    function Finish(req: Request, loaded: Loaded): Outcome {
      match loaded
      case LoadFailed(error) => if error.NilMachine? then Panics else Refused(FromLoadError(req, error))
      case Loaded(records) =>
        match NarrowedFor(req, records)
        case NarrowFailed(cause) => Refused(FromCause(req, cause))
        case Narrowed(narrowed) => Delivers(narrowed)
    }

    function OutcomeOf(req: Request): Outcome {
      if SemanticsProblem(req).Some? then Refused(SemanticsProblem(req).value)
      else if req.operation == MANIFEST then
        if req.capability != "" && req.capability != RESOURCES_READ then
          Refused(Problem(req, UNSUPPORTED_CAPABILITY, "unsupported capability"))
        else Described(env.manifest)
      else if ReadProblem(req).Some? then Refused(ReadProblem(req).value)
      else Finish(req, LoadedFor(req))
    }

    // -------------------------------------------------------- the trace

    function RecordEvents(req: Request, records: seq<Record>): seq<Event> {
      seq(|records|, i requires 0 <= i < |records| => RecordEventOf(req, records[i]))
    }

    function RecordEventOf(req: Request, record: Record): Event {
      Plain(RecordEvent, Product(req), Resource(req)).(record := Some(record))
    }

    function Opening(req: Request): Event {
      Plain(Started, Product(req), Resource(req)).(total := 0)
    }

    function Closing(req: Request, outcome: Outcome): Event
      requires !outcome.Panics?
    {
      match outcome
      case Delivers(records) =>
        Plain(Completed, Product(req), Resource(req)).(records := |records|, resources := 1, result := Some(records))
      case Described(manifest) =>
        Plain(Completed, Product(req), Resource(req)).(manifest := Some(manifest))
      case Refused(err) =>
        var contextual := WithContext(err, req.operation, Product(req), Resource(req));
        Terminal(FailureKind(contextual), contextual)
    }

    function TraceFrom(req: Request, outcome: Outcome): seq<Event> {
      if outcome.Panics? then [Opening(req)]
      else [Opening(req)] + (if outcome.Delivers? then RecordEvents(req, outcome.records) else []) + [Closing(req, outcome)]
    }

    /** The events a sink that accepts everything receives. */
    function TraceOf(req: Request): seq<Event> {
      TraceFrom(req, OutcomeOf(req))
    }

    // ------------------------------------------------------- streaming

    lemma TraceOfRead(req: Request, records: seq<Record>)
      ensures var trace := TraceFrom(req, Delivers(records));
        && |trace| == |records| + 2 && trace[0] == Opening(req)
        && (forall i :: 0 <= i < |records| ==> trace[i + 1] == RecordEventOf(req, records[i]))
        && trace[|records| + 1] == Closing(req, Delivers(records))
    {
    }

    /** One record event, number i + 1 of the trace. */
    method EmitRecord(req: Request, stream: EventStream, record: Record, ghost trace: seq<Event>, ghost i: nat)
      returns (failure: Option<MachineError>)
      requires stream.Live() && !stream.terminal && stream.operation == req.operation
      requires stream.product == Product(req) && stream.resource == Resource(req)
      requires i + 1 < |trace| && stream.sink.delivered == trace[..i + 1] && trace[i + 1] == RecordEventOf(req, record)
      modifies stream, stream.sink
      ensures stream.Live() && stream.terminal == failure.Some?
      ensures failure.None? <==> stream.sink.answer(trace[..i + 2]).Accept?
      ensures failure.None? ==> stream.sink.delivered == trace[..i + 2]
      ensures failure.Some? ==> Follows(stream.sink.delivered, trace) && TellsBoth(stream.sink, req.operation, failure)
    {
      var event := RecordEventOf(req, record);
      assert stream.Scoped(event) == event;
      assert trace[..i + 1] + [event] == trace[..i + 2];
      failure := stream.Emit(event);
      if failure.Some? {
        FollowsFailed(stream.sink.delivered, trace, i + 2);
      }
    }

    /** One event for each record. */
    method EmitRecords(req: Request, stream: EventStream, records: seq<Record>, ghost trace: seq<Event>)
      returns (failure: Option<MachineError>)
      requires stream.Live() && !stream.terminal && stream.operation == req.operation
      requires stream.product == Product(req) && stream.resource == Resource(req)
      requires |trace| > |records| && stream.sink.delivered == trace[..1]
      requires forall i :: 0 <= i < |records| ==> trace[i + 1] == RecordEventOf(req, records[i])
      modifies stream, stream.sink
      ensures stream.Live() && stream.terminal == failure.Some? && Follows(stream.sink.delivered, trace)
      ensures AcceptsAll(stream.sink.answer, trace) ==> failure.None?
      ensures failure.None? ==> stream.sink.delivered == trace[..|records| + 1]
      ensures failure.Some? ==> TellsBoth(stream.sink, req.operation, failure)
    {
      failure := None;
      for i := 0 to |records|
        invariant stream.Live() && !stream.terminal && failure.None?
        invariant stream.sink.delivered == trace[..i + 1]
      {
        failure := EmitRecord(req, stream, records[i], trace, i);
        if failure.Some? {
          return;
        }
      }
    }

    /** The end of ExecuteStream: the records, then the completion. */
    method StreamRecords(req: Request, stream: EventStream, records: seq<Record>) returns (failure: Option<MachineError>)
      requires stream.Live() && !stream.terminal && stream.operation == req.operation
      requires stream.product == Product(req) && stream.resource == Resource(req)
      requires stream.sink.delivered == [Opening(req)]
      modifies stream, stream.sink
      ensures Reported(req, Delivers(records), stream, failure)
    {
      ghost var trace := TraceFrom(req, Delivers(records));
      TraceOfRead(req, records);
      failure := EmitRecords(req, stream, records, trace);
      if failure.Some? {
        return;
      }
      var closing := Plain(Unset, Product(req), Resource(req)).(records := |records|, resources := 1, result := Some(records));
      assert stream.Scoped(closing.(kind := Completed)) == trace[|records| + 1];
      assert trace[..|records| + 1] + [trace[|records| + 1]] == trace == trace[..|trace|];
      failure := stream.Complete(closing);
    }

    /** An outcome has been reported through a stream: all of its trace unless the sink
        balked, and then a beginning of it. */
    ghost predicate Reported(req: Request, outcome: Outcome, stream: EventStream, failure: Option<MachineError>)
      requires !outcome.Panics?
      reads stream, stream.sink
    {
      var trace := TraceFrom(req, outcome);
      && stream.Live() && Follows(stream.sink.delivered, trace)
      && (stream.sink.delivered <= trace || TellsBoth(stream.sink, req.operation, failure))
      && (failure.None? ==> stream.sink.delivered == trace && !outcome.Refused?)
      && (AcceptsAll(stream.sink.answer, trace) ==>
            stream.sink.delivered == trace && failure == if outcome.Refused? then Some(outcome.err) else None)
    }

    /** failEventStream: fail the stream with an error and report that error. */
    method FailWith(req: Request, stream: EventStream, err: MachineError) returns (failure: Option<MachineError>)
      requires stream.Live() && !stream.terminal
      requires stream.operation == req.operation && stream.product == Product(req) && stream.resource == Resource(req)
      requires stream.sink.delivered == [Opening(req)]
      modifies stream, stream.sink
      ensures Reported(req, Refused(err), stream, failure)
    {
      ghost var trace := TraceFrom(req, Refused(err));
      assert trace == [Opening(req)] + [Closing(req, Refused(err))] == trace[..|trace|];
      failure := stream.Fail(err);
      if failure.None? {
        failure := Some(err);
      }
    }

    /** The loader answers a fully validated read with a nil machine error. */
    predicate LoaderPanics(req: Request) {
      ReachesLoader(req) && browser.answer(QueryOf(req)) == LoadFailed(LoadError.NilMachine)
    }

    lemma PanicsExactly(req: Request)
      ensures OutcomeOf(req).Panics? <==> LoaderPanics(req)
    {
    }

    /** What a caller sees of a stream for an outcome: the sink has a beginning of the
        trace up to where it balked, all of it when it accepts all of it, and a panic
        leaves the stream open after its first event. */
    ghost predicate Streamed(req: Request, outcome: Outcome, sink: Sink?, failure: Option<MachineError>, panicked: bool)
      reads sink
    {
      var trace := TraceFrom(req, outcome);
      && (panicked <==> sink != null && sink.answer([Opening(req)]).Accept? && outcome.Panics?)
      && (sink == null ==> failure.Some?)
      && (sink != null ==>
        && WellShaped(sink.delivered) && Follows(sink.delivered, trace)
        && (sink.delivered <= trace || TellsBoth(sink, req.operation, failure))
        && (panicked ==> sink.delivered == [Opening(req)])
        && (failure.None? ==> sink.delivered == trace && !outcome.Refused?)
        && (AcceptsAll(sink.answer, trace) ==>
              sink.delivered == trace && failure == if outcome.Refused? then Some(outcome.err) else None))
    }

    /** ExecuteStream. Whatever the sink does, it sees the trace of the request up to
        where it balked; the loader is asked at most once, and only when every check
        has passed. */
    method ExecuteStream(req: Request, sink: Sink?) returns (failure: Option<MachineError>, panicked: bool)
      requires sink != null ==> sink.delivered == []
      modifies if sink == null then {} else {sink}
      modifies if browser == null then {} else {browser}
      ensures Streamed(req, OutcomeOf(req), sink, failure, panicked)
      ensures panicked <==> sink != null && sink.answer([Opening(req)]).Accept? && LoaderPanics(req)
      ensures browser != null ==>
        browser.queries == old(browser.queries)
          + if sink != null && sink.answer([Opening(req)]).Accept? && ReachesLoader(req) then [QueryOf(req)] else []
      ensures browser != null && |browser.queries| > |old(browser.queries)| ==>
        AsksFor(browser.queries[|old(browser.queries)|], req)
    {
      PanicsExactly(req);
      if ReachesLoader(req) {
        QueryAsks(req);
      }
      var stream, notStarted := StartEventStream(sink, req.operation, Product(req), Resource(req), 0);
      if stream == null {
        if sink != null {
          OpeningRefused(req, OutcomeOf(req), sink, notStarted);
        }
        return notStarted, false;
      }
      failure, panicked := Report(req, stream);
    }

    /** The sink has refused the first event. */
    lemma OpeningRefused(req: Request, outcome: Outcome, sink: Sink, failure: Option<MachineError>)
      requires WellShaped(sink.delivered) && TellsBoth(sink, req.operation, failure) && failure.Some?
      requires |sink.delivered| == 2 && sink.delivered[..1] == [Opening(req)] && !sink.answer([Opening(req)]).Accept?
      ensures Streamed(req, outcome, sink, failure, false)
    {
      var trace := TraceFrom(req, outcome);
      assert trace[..1] == [Opening(req)];
      FollowsFailed(sink.delivered, trace, 1);
    }

    /** ExecuteStream once the stream has started. */
    method Report(req: Request, stream: EventStream) returns (failure: Option<MachineError>, panicked: bool)
      requires stream.Live() && !stream.terminal
      requires stream.operation == req.operation && stream.product == Product(req) && stream.resource == Resource(req)
      requires stream.sink.delivered == [Opening(req)]
      modifies stream, stream.sink
      modifies if browser == null then {} else {browser}
      ensures panicked <==> OutcomeOf(req).Panics?
      ensures if panicked then failure.None? && stream.sink.delivered == [Opening(req)]
              else Reported(req, OutcomeOf(req), stream, failure)
      ensures browser != null ==>
        browser.queries == old(browser.queries) + if ReachesLoader(req) then [QueryOf(req)] else []
    {
      panicked := false;
      var problem := SemanticsProblem(req);
      if problem.Some? {
        failure := FailWith(req, stream, problem.value);
        return;
      }
      if req.operation == MANIFEST {
        failure := StreamManifest(req, stream);
        return;
      }
      problem := ReadProblem(req);
      if problem.Some? {
        failure := FailWith(req, stream, problem.value);
        return;
      }
      var loaded := Load(req);
      var outcome := Finish(req, loaded);
      assert outcome == OutcomeOf(req);
      match outcome {
        case Panics =>
          failure, panicked := None, true;
        case Refused(err) =>
          failure := FailWith(req, stream, err);
        case Delivers(records) =>
          failure := StreamRecords(req, stream, records);
      }
    }

    /** loadProjected */
    method Load(req: Request) returns (loaded: Loaded)
      requires browser != null
      modifies browser
      ensures loaded == LoadedFor(req)
      ensures browser.queries == old(browser.queries) + if req.operation == GET && !browser.isGetter then [] else [QueryOf(req)]
    {
      if req.operation == GET && !browser.isGetter {
        loaded := LoadedFor(req);
      } else {
        loaded := browser.Ask(QueryOf(req));
      }
    }

    method StreamManifest(req: Request, stream: EventStream) returns (failure: Option<MachineError>)
      requires stream.Live() && !stream.terminal && req.operation == MANIFEST && SemanticsProblem(req).None?
      requires stream.operation == req.operation && stream.product == Product(req) && stream.resource == Resource(req)
      requires stream.sink.delivered == [Opening(req)]
      modifies stream, stream.sink
      ensures Reported(req, OutcomeOf(req), stream, failure)
    {
      if req.capability != "" && req.capability != RESOURCES_READ {
        failure := FailWith(req, stream, Problem(req, UNSUPPORTED_CAPABILITY, "unsupported capability"));
        return;
      }
      var closing := Plain(Unset, Product(req), Resource(req)).(manifest := Some(env.manifest));
      ghost var trace := TraceFrom(req, Described(env.manifest));
      assert trace == [Opening(req)] + [Closing(req, Described(env.manifest))] == trace[..|trace|];
      assert stream.Scoped(closing.(kind := Completed)) == Closing(req, Described(env.manifest));
      failure := stream.Complete(closing);
    }

    // -------------------------------------------------------- one shot

    /** responseForRequest */
    function Blank(req: Request): Response {
      Response(req.requestId, req.capability, req.operation,
               Meta(req.requestId, Product(req), Resource(req), true, 0), None, None, None)
    }

    /** What Execute returns for an outcome. */
    function ResponseTo(req: Request, outcome: Outcome): Response
      requires !outcome.Panics?
    {
      match outcome
      case Delivers(records) => Blank(req).(records := Some(records), meta := Blank(req).meta.(count := |records|))
      case Described(manifest) =>
        Blank(req).(manifest := Some(manifest), meta := Blank(req).meta.(count := |manifest.capabilities|))
      case Refused(err) => Blank(req).(error := Some(WithContext(err, req.operation, Product(req), Resource(req))))
    }

    lemma FrontRecords(req: Request, records: seq<Record>)
      requires records != []
      ensures var n := |records| - 1;
        RecordEvents(req, records) == RecordEvents(req, records[..n]) + [RecordEventOf(req, records[n])]
    {
    }

    lemma {:induction false} RecordsAccumulate(req: Request, resp: Response, records: seq<Record>)
      requires resp.records.None?
      ensures Accumulated(resp, RecordEvents(req, records))
           == if records == [] then resp else resp.(records := Some(records))
    {
      if records != [] {
        var n := |records| - 1;
        FrontRecords(req, records);
        RecordsAccumulate(req, resp, records[..n]);
        AccumulatedLast(resp, RecordEvents(req, records[..n]), RecordEventOf(req, records[n]));
        assert records == records[..n] + [records[n]];
      }
    }

    lemma OpeningAccumulates(req: Request)
      ensures Accumulated(Blank(req), [Opening(req)]) == Blank(req)
    {
      AccumulatedLast(Blank(req), [], Opening(req));
      assert [] + [Opening(req)] == [Opening(req)];
    }

    /** The response after the records of an outcome, before its closing event. */
    function Gathered(req: Request, records: seq<Record>): Response {
      if records == [] then Blank(req) else Blank(req).(records := Some(records))
    }

    lemma RecordsGathered(req: Request, records: seq<Record>)
      ensures Accumulated(Blank(req), [Opening(req)] + RecordEvents(req, records)) == Gathered(req, records)
    {
      OpeningAccumulates(req);
      AccumulatedAppend(Blank(req), [Opening(req)], RecordEvents(req, records));
      RecordsAccumulate(req, Blank(req), records);
    }

    lemma ClosingAccumulates(req: Request, outcome: Outcome)
      requires !outcome.Panics?
      ensures Accumulate(Gathered(req, if outcome.Delivers? then outcome.records else []), Closing(req, outcome))
           == ResponseTo(req, outcome)
    {
    }

    /** The response to an outcome is what its trace accumulates to. */
    lemma TraceAccumulates(req: Request, outcome: Outcome)
      requires !outcome.Panics?
      ensures Accumulated(Blank(req), TraceFrom(req, outcome)) == ResponseTo(req, outcome)
    {
      var records := if outcome.Delivers? then outcome.records else [];
      var before := [Opening(req)] + RecordEvents(req, records);
      assert TraceFrom(req, outcome) == before + [Closing(req, outcome)];
      AccumulatedLast(Blank(req), before, Closing(req, outcome));
      RecordsGathered(req, records);
      ClosingAccumulates(req, outcome);
    }

    lemma ResponseAccepts(req: Request, outcome: Outcome, n: nat)
      requires 0 < n <= |TraceFrom(req, outcome)|
      ensures ResponseAnswer(TraceFrom(req, outcome)[..n]).Accept?
    {
      TraceEvents(req, outcome, n - 1);
    }

    lemma TraceEvents(req: Request, outcome: Outcome, i: nat)
      requires i < |TraceFrom(req, outcome)|
      ensures var trace := TraceFrom(req, outcome);
        if i == 0 then trace[i] == Opening(req)
        else if outcome.Panics? then false
        else if i == |trace| - 1 then trace[i] == Closing(req, outcome)
        else outcome.Delivers? && i - 1 < |outcome.records| && trace[i] == RecordEventOf(req, outcome.records[i - 1])
    {
    }

    lemma ResponseAcceptsAll(req: Request, outcome: Outcome)
      ensures AcceptsAll(ResponseAnswer, TraceFrom(req, outcome))
      ensures ResponseAnswer([Opening(req)]).Accept?
    {
      var trace := TraceFrom(req, outcome);
      forall n | 0 < n <= |trace| ensures ResponseAnswer(trace[..n]).Accept? {
        ResponseAccepts(req, outcome, n);
      }
      assert [Opening(req)] == trace[..1];
    }

    /** What Execute makes of the events accumulated and the error of the stream. */
    function Answered(req: Request, events: seq<Event>, err: Option<MachineError>): Response {
      var resp := Accumulated(Blank(req), events);
      if resp.error.None? && err.Some? then
        resp.(error := Some(WithContext(err.value, req.operation, Product(req), Resource(req))))
      else resp
    }

    lemma AnsweredIsResponse(req: Request, outcome: Outcome)
      requires !outcome.Panics?
      ensures Answered(req, TraceFrom(req, outcome), if outcome.Refused? then Some(outcome.err) else None)
           == ResponseTo(req, outcome)
    {
      TraceAccumulates(req, outcome);
    }

    /** Execute answers with the response to the outcome, unless the loader's answer
        makes it panic. */
    method Execute(req: Request) returns (resp: Response, failure: Option<MachineError>, panicked: bool)
      modifies if browser == null then {} else {browser}
      ensures panicked <==> LoaderPanics(req)
      ensures panicked <==> OutcomeOf(req).Panics?
      ensures !panicked ==> resp == ResponseTo(req, OutcomeOf(req)) && failure == resp.error
      ensures browser != null ==>
        browser.queries == old(browser.queries) + if ReachesLoader(req) then [QueryOf(req)] else []
      ensures browser != null && |browser.queries| > |old(browser.queries)| ==>
        AsksFor(browser.queries[|old(browser.queries)|], req)
    {
      var sink := new Sink(ResponseAnswer);
      ResponseAcceptsAll(req, OutcomeOf(req));
      var err;
      err, panicked := ExecuteStream(req, sink);
      if panicked {
        return Blank(req), None, true;
      }
      AnsweredIsResponse(req, OutcomeOf(req));
      resp := Answered(req, sink.delivered, err);
      failure := resp.error;
    }

    // ------------------------------------------------------- typed reads

    lemma {:induction false} RecordsEmitted(req: Request, records: seq<Record>)
      ensures Emitted([Opening(req)] + RecordEvents(req, records)) == |records|
    {
      if records == [] {
        assert [Opening(req)] + RecordEvents(req, records) == [] + [Opening(req)];
        EmittedLast([], Opening(req));
      } else {
        var n := |records| - 1;
        RecordsEmitted(req, records[..n]);
        FrontRecords(req, records);
        EmittedLast([Opening(req)] + RecordEvents(req, records[..n]), RecordEventOf(req, records[n]));
        assert [Opening(req)] + RecordEvents(req, records)
            == [Opening(req)] + RecordEvents(req, records[..n]) + [RecordEventOf(req, records[n])];
      }
    }

    lemma CompletionAccepted(req: Request, records: seq<Record>)
      ensures ReadAnswer([Opening(req)] + RecordEvents(req, records) + [Closing(req, Delivers(records))]).Accept?
    {
      var before := [Opening(req)] + RecordEvents(req, records);
      RecordsEmitted(req, records);
      assert (before + [Closing(req, Delivers(records))])[..|before|] == before;
    }

    lemma ReadAccepts(req: Request, outcome: Outcome, n: nat)
      requires 0 < n <= |TraceFrom(req, outcome)| && !outcome.Described?
      ensures ReadAnswer(TraceFrom(req, outcome)[..n]).Accept?
    {
      var trace := TraceFrom(req, outcome);
      TraceEvents(req, outcome, n - 1);
      if n == |trace| && outcome.Delivers? {
        CompletionAccepted(req, outcome.records);
        assert trace[..n] == trace == [Opening(req)] + RecordEvents(req, outcome.records) + [Closing(req, outcome)];
      }
    }

    lemma ReadAcceptsAll(req: Request, outcome: Outcome)
      requires !outcome.Described?
      ensures AcceptsAll(ReadAnswer, TraceFrom(req, outcome))
      ensures ReadAnswer([Opening(req)]).Accept?
    {
      var trace := TraceFrom(req, outcome);
      forall n | 0 < n <= |trace| ensures ReadAnswer(trace[..n]).Accept? {
        ReadAccepts(req, outcome, n);
      }
      assert [Opening(req)] == trace[..1];
    }

    /** The generic request of a typed read. */
    function AsRequest(read: ReadRequest): Request {
      Request(read.requestId, RESOURCES_READ, read.operation, Some(read.input))
    }

    /** What a typed read comes to: another operation is refused before the checks a
        generic request meets first. */
    function ReadOutcome(read: ReadRequest): Outcome {
      if IsRead(read.operation) then OutcomeOf(AsRequest(read)) else Refused(NotARead(read))
    }

    function NotARead(read: ReadRequest): MachineError {
      Problem(AsRequest(read), UNSUPPORTED_OPERATION, "unsupported operation for resources.read")
    }

    /** Read: the records of the outcome, or its error as it stands. */
    method Read(read: ReadRequest) returns (result: Option<seq<Record>>, failure: Option<MachineError>, panicked: bool)
      modifies if browser == null then {} else {browser}
      ensures panicked <==> IsRead(read.operation) && LoaderPanics(AsRequest(read))
      ensures match ReadOutcome(read)
        case Delivers(records) => !panicked && result == Some(records) && failure == None
        case Refused(err) => !panicked && result == None && failure == Some(err)
        case Panics => panicked
        case Described(_) => false
      ensures browser != null ==>
        browser.queries == old(browser.queries)
          + if IsRead(read.operation) && ReachesLoader(AsRequest(read)) then [QueryOf(AsRequest(read))] else []
      ensures browser != null && |browser.queries| > |old(browser.queries)| ==>
        AsksFor(browser.queries[|old(browser.queries)|], AsRequest(read))
    {
      var req := AsRequest(read);
      var sink := new Sink(ReadAnswer);
      ReadAcceptsAll(req, ReadOutcome(read));
      failure, panicked := ReadStream(read, sink);
      if panicked || failure.Some? {
        return None, failure, panicked;
      }
      result := sink.delivered[|sink.delivered| - 1].result;
    }

    /** ReadStream and readStream, into any sink. */
    method ReadStream(read: ReadRequest, sink: Sink?) returns (failure: Option<MachineError>, panicked: bool)
      requires sink != null ==> sink.delivered == []
      modifies if sink == null then {} else {sink}
      modifies if browser == null then {} else {browser}
      ensures Streamed(AsRequest(read), ReadOutcome(read), sink, failure, panicked)
      ensures panicked <==>
        && sink != null && sink.answer([Opening(AsRequest(read))]).Accept?
        && IsRead(read.operation) && LoaderPanics(AsRequest(read))
      ensures browser != null ==>
        browser.queries == old(browser.queries)
          + if sink != null && sink.answer([Opening(AsRequest(read))]).Accept?
               && IsRead(read.operation) && ReachesLoader(AsRequest(read))
            then [QueryOf(AsRequest(read))] else []
      ensures browser != null && |browser.queries| > |old(browser.queries)| ==>
        AsksFor(browser.queries[|old(browser.queries)|], AsRequest(read))
    {
      if IsRead(read.operation) {
        failure, panicked := ExecuteStream(AsRequest(read), sink);
      } else {
        failure := RejectRead(read, sink);
        panicked := false;
      }
    }

    method RejectRead(read: ReadRequest, sink: Sink?) returns (failure: Option<MachineError>)
      requires sink != null ==> sink.delivered == []
      modifies if sink == null then {} else {sink}
      ensures Streamed(AsRequest(read), Refused(NotARead(read)), sink, failure, false)
    {
      var req := AsRequest(read);
      var stream, notStarted := StartEventStream(sink, req.operation, Product(req), Resource(req), 0);
      if stream == null {
        if sink != null {
          OpeningRefused(req, Refused(NotARead(read)), sink, notStarted);
        }
        return notStarted;
      }
      failure := FailWith(req, stream, NotARead(read));
    }

    // ------------------------------------------------------- agreement

    /** A read as the documentation of the request describes a valid one. */
    predicate ValidRead(req: Request) {
      && req.capability == RESOURCES_READ && IsRead(req.operation) && req.input.Some?
      && Product(req) != "" && Resource(req) != "" && (req.operation == GET ==> RecordId(req) != "")
      && (req.operation != LIST ==> req.input.value.filters == [] && req.input.value.search == "")
      && (forall filter <- req.input.value.filters :: WellFormedFilter(filter))
      && (req.input.value.fields != [] || req.input.value.filters != [] ==>
            && env.inCatalog(Product(req), Resource(req))
            && env.checkNarrowing(Product(req), Resource(req), NarrowingOf(req).(search := "")).None?)
    }

    predicate WellFormedFilter(filter: Filter) {
      env.trim(filter.field) != "" && env.trim(filter.operator) in {"=", "exact", "~", "contains"}
    }

    lemma AllWellFormed(front: seq<Filter>, last: Filter)
      ensures (forall filter <- front + [last] :: WellFormedFilter(filter))
         <==> (forall filter <- front :: WellFormedFilter(filter)) && WellFormedFilter(last)
    {
      if forall filter <- front + [last] :: WellFormedFilter(filter) {
        forall filter | filter in front ensures WellFormedFilter(filter) {
          assert filter in front + [last];
        }
        assert last in front + [last];
      }
    }

    lemma {:induction false} FiltersParseIff(filters: seq<Filter>)
      ensures FiltersOf(filters).Parsed? <==> forall filter <- filters :: WellFormedFilter(filter)
    {
      if filters != [] {
        var front, last := filters[..|filters| - 1], filters[|filters| - 1];
        FiltersParseIff(front);
        AllWellFormed(front, last);
        assert filters == front + [last];
      }
    }

    /** The loader is asked exactly for the valid reads it can serve. */
    lemma LoaderSeesExactlyValidReads(req: Request)
      ensures ReachesLoader(req) <==>
        ValidRead(req) && browser != null && (req.operation == GET ==> browser.isGetter)
    {
      if req.input.Some? {
        FiltersParseIff(req.input.value.filters);
      }
    }

    /** The loader hands out a machine error that names no kind. */
    predicate LoaderNamesNoKind(req: Request) {
      && ReachesLoader(req)
      && browser.answer(QueryOf(req)).LoadFailed?
      && browser.answer(QueryOf(req)).error.OfMachine?
      && browser.answer(QueryOf(req)).error.err.kind == ""
    }

    /** A refused request fails with the same kind in all three executions, except
        when the loader's own machine error names no kind: Execute then says
        "internal" where streaming and Read hand on the empty kind. */
    lemma SameKindUnlessUnnamed(req: Request)
      requires OutcomeOf(req).Refused?
      ensures var err := OutcomeOf(req).err;
        && (ResponseTo(req, OutcomeOf(req)).error.value.kind == err.kind <==> !LoaderNamesNoKind(req))
        && (LoaderNamesNoKind(req) ==> err.kind == "" && ResponseTo(req, OutcomeOf(req)).error.value.kind == INTERNAL)
    {
      var err := OutcomeOf(req).err;
      if SemanticsProblem(req).Some? {
        SemanticsProblemNamed(req);
      } else if req.operation != MANIFEST {
        if ReadProblem(req).Some? {
          ReadProblemNamed(req);
        } else {
          FinishNamed(req);
        }
      }
    }

    lemma FinishNamed(req: Request)
      requires ReadProblem(req).None? && SemanticsProblem(req).None? && req.operation != MANIFEST
      requires Finish(req, LoadedFor(req)).Refused?
      ensures Finish(req, LoadedFor(req)).err.kind == "" <==> LoaderNamesNoKind(req)
    {
      var loaded := LoadedFor(req);
      if loaded.LoadFailed? && loaded.error.OfCause? {
        CauseNamed(req, loaded.error.cause);
      } else if loaded.Loaded? {
        CauseNamed(req, NarrowedFor(req, loaded.records).cause);
      }
    }

    lemma SemanticsProblemNamed(req: Request)
      requires SemanticsProblem(req).Some?
      ensures SemanticsProblem(req).value.kind != ""
    {
      assert SemanticsProblem(req).value.kind == USAGE;
    }

    lemma CauseNamed(req: Request, cause: Cause)
      ensures FromCause(req, cause).kind != ""
    {
    }

    lemma ReadProblemNamed(req: Request)
      requires ReadProblem(req).Some?
      ensures ReadProblem(req).value.kind != ""
    {
      if ReadProblem(req) == NarrowingProblem(req) && env.inCatalog(Product(req), Resource(req)) {
        var checked := env.checkNarrowing(Product(req), Resource(req), NarrowingOf(req).(search := ""));
        if checked.Some? {
          CauseNamed(req, checked.value);
        }
      }
    }

    /** The records every execution reports are those of the outcome: the record
        events of the stream, in order, and their number in the completion. */
    lemma StreamedRecords(req: Request, records: seq<Record>)
      requires OutcomeOf(req) == Delivers(records)
      ensures RecordsIn(TraceOf(req)) == records
      ensures TraceOf(req)[|TraceOf(req)| - 1].kind.Completed?
      ensures TraceOf(req)[|TraceOf(req)| - 1].records == |records| == ResponseTo(req, OutcomeOf(req)).meta.count
      ensures TraceOf(req)[|TraceOf(req)| - 1].result == ResponseTo(req, OutcomeOf(req)).records == Some(records)
    {
      TraceOfRead(req, records);
      RecordsInEvents(req, records);
      RecordsInLast([Opening(req)] + RecordEvents(req, records), Closing(req, Delivers(records)));
      assert TraceOf(req) == [Opening(req)] + RecordEvents(req, records) + [Closing(req, Delivers(records))];
    }

    lemma {:induction false} RecordsInEvents(req: Request, records: seq<Record>)
      ensures RecordsIn([Opening(req)] + RecordEvents(req, records)) == records
    {
      if records == [] {
        assert [Opening(req)] + RecordEvents(req, records) == [] + [Opening(req)];
        RecordsInLast([], Opening(req));
      } else {
        var n := |records| - 1;
        RecordsInEvents(req, records[..n]);
        FrontRecords(req, records);
        RecordsInLast([Opening(req)] + RecordEvents(req, records[..n]), RecordEventOf(req, records[n]));
        assert [Opening(req)] + RecordEvents(req, records)
            == [Opening(req)] + RecordEvents(req, records[..n]) + [RecordEventOf(req, records[n])];
        assert records == records[..n] + [records[n]];
      }
    }
  }

  datatype ReadRequest = ReadRequest(requestId: string, operation: string, input: Input)

  datatype Meta = Meta(requestId: string, product: string, resource: string, readOnly: bool, count: nat)

  datatype Response = Response(
    requestId: string, capability: string, operation: string, meta: Meta,
    records: Option<seq<Record>>, manifest: Option<Manifest>, error: Option<MachineError>)

  /** accumulateResponseEvent: its effect on the response. */
  function Accumulate(resp: Response, event: Event): Response {
    match event.kind
    case RecordEvent =>
      if event.record.None? then resp
      else resp.(records := Some((if resp.records.Some? then resp.records.value else []) + [event.record.value]))
    case Completed =>
      if event.manifest.Some? then
        resp.(manifest := event.manifest, meta := resp.meta.(count := |event.manifest.value.capabilities|))
      else
        var records := if resp.records.Some? then resp.records.value else [];
        resp.(records := Some(records), meta := resp.meta.(count := |records|))
    case Failed => if event.err.None? then resp else resp.(error := event.err)
    case Canceled => if event.err.None? then resp else resp.(error := event.err)
    case _ => resp
  }

  function Accumulated(resp: Response, events: seq<Event>): Response {
    if events == [] then resp
    else Accumulate(Accumulated(resp, events[..|events| - 1]), events[|events| - 1])
  }

  lemma AccumulatedLast(resp: Response, events: seq<Event>, last: Event)
    ensures Accumulated(resp, events + [last]) == Accumulate(Accumulated(resp, events), last)
  {
    assert (events + [last])[..|events|] == events;
  }

  lemma {:induction false} AccumulatedAppend(resp: Response, a: seq<Event>, b: seq<Event>)
    ensures Accumulated(resp, a + b) == Accumulated(Accumulated(resp, a), b)
    decreases |b|
  {
    if b == [] {
      assert a + b == a;
    } else {
      var n := |b| - 1;
      AccumulatedAppend(resp, a, b[..n]);
      AccumulatedLast(resp, a + b[..n], b[n]);
      assert a + b == a + b[..n] + [b[n]];
    }
  }

  /** accumulateResponseEvent: what it returns. */
  function ResponseAnswer(events: seq<Event>): Answer {
    if events == [] then Accept
    else
      var event := events[|events| - 1];
      match event.kind
      case RecordEvent =>
        if event.record.None? then Refuse(Machine(Internal("record event has no record"))) else Accept
      case Warning => Refuse(Machine(Internal("one-shot response cannot represent warning event")))
      case Failed => if event.err.None? then Refuse(Machine(Internal("terminal event has no machine error"))) else Accept
      case Canceled => if event.err.None? then Refuse(Machine(Internal("terminal event has no machine error"))) else Accept
      case _ => Accept
  }

  /** emittedRecords of Read: the record events so far. */
  function Emitted(events: seq<Event>): nat {
    if events == [] then 0
    else Emitted(events[..|events| - 1]) + if events[|events| - 1].kind.RecordEvent? then 1 else 0
  }

  lemma EmittedLast(events: seq<Event>, last: Event)
    ensures Emitted(events + [last]) == Emitted(events) + if last.kind.RecordEvent? then 1 else 0
  {
    assert (events + [last])[..|events|] == events;
  }

  /** What the sink of Read returns. */
  function ReadAnswer(events: seq<Event>): Answer {
    if events == [] then Accept
    else
      var event := events[|events| - 1];
      var emitted := Emitted(events[..|events| - 1]);
      match event.kind
      case RecordEvent =>
        if event.record.None? then Refuse(Machine(Internal("record event has no record"))) else Accept
      case Warning => Refuse(Machine(Internal("resource read result cannot represent warning event")))
      case Completed =>
        if event.manifest.Some? then Refuse(Machine(Internal("resource read completed with manifest payload")))
        else if event.result.None? || |event.result.value| != emitted || event.records != emitted then
          Refuse(Machine(Internal("resource read completed with inconsistent typed result")))
        else Accept
      case _ => Accept
  }

  /** The records of the record events, in order. */
  function RecordsIn(events: seq<Event>): seq<Record> {
    if events == [] then []
    else
      var last := events[|events| - 1];
      RecordsIn(events[..|events| - 1])
        + if last.kind.RecordEvent? && last.record.Some? then [last.record.value] else []
  }

  lemma RecordsInLast(events: seq<Event>, last: Event)
    ensures RecordsIn(events + [last])
         == RecordsIn(events) + if last.kind.RecordEvent? && last.record.Some? then [last.record.value] else []
  {
    assert (events + [last])[..|events|] == events;
  }

  /** The sink accepts every prefix of a trace. */
  ghost predicate AcceptsAll(answer: seq<Event> -> Answer, trace: seq<Event>) {
    forall n :: 0 < n <= |trace| ==> answer(trace[..n]).Accept?
  }

  /** The sink has refused an event, has been told so in one more, and the caller gets
      the same error if the sink has taken that. */
  predicate TellsBoth(sink: Sink, operation: string, failure: Option<MachineError>)
    reads sink
  {
    var n := |sink.delivered|;
    && n >= 2
    && var last := sink.delivered[n - 1];
    && last.kind.Failed? && last.err.Some? && Reports(last, last.err.value)
    && RefusalIs(last.err.value, sink.answer(sink.delivered[..n - 1]), sink.delivered[n - 2], operation)
    && (sink.answer(sink.delivered).Accept? ==> failure == last.err)
  }

  /** Delivered is a beginning of the trace, or one followed by a single failure. */
  predicate Follows(delivered: seq<Event>, trace: seq<Event>) {
    || delivered <= trace
    || (delivered != [] && delivered[|delivered| - 1].kind.Failed? && delivered[..|delivered| - 1] <= trace)
  }

  lemma FollowsFailed(delivered: seq<Event>, trace: seq<Event>, n: nat)
    requires n <= |trace| && |delivered| == n + 1 && delivered[..n] == trace[..n] && delivered[n].kind.Failed?
    ensures Follows(delivered, trace)
  {
  }

  const EXAMPLE_ENVIRONMENT := Environment(
    text => text, text => text, (product, resource) => "unknown resource", (product, resource) => true,
    (product, resource, narrowing) => None, (product, resource, narrowing, records) => Narrowed(records), Manifest([]))

  function UnnamedFailure(query: Query): Loaded {
    LoadFailed(OfMachine(MachineError("", "boom", [], "", "", "")))
  }

  /** The two executions do disagree: a list request whose loader fails with an
      unnamed machine error. */
  method KindsCanDisagree() returns (oneShot: string, typed: string)
    ensures oneShot == INTERNAL && typed == "" && oneShot != typed
  {
    var loader := new Loader(UnnamedFailure, true);
    var executor := Executor(loader, EXAMPLE_ENVIRONMENT);
    var read := ReadRequest("", LIST, Input("zia", "locations", "", [], [], ""));
    var req := executor.AsRequest(read);
    assert executor.Missing(req) == [];
    assert executor.LoaderNamesNoKind(req);
    executor.SameKindUnlessUnnamed(req);
    var resp, _, _ := executor.Execute(req);
    var _, failure, _ := executor.Read(read);
    oneShot, typed := resp.error.value.kind, failure.value.kind;
  }
}
