// What a request comes to (internal/machine/executor.go), said of the request and of
// the loader's answer to the query that the request names: records, narrowing, errors
// and the scope of everything that is reported.
module ExecutorReads {
  import opened Options
  import opened Events
  import opened Executor

  /** The fields of a request, trimmed, without the empty ones. */
  function Trimmed(fields: seq<string>, trim: string -> string): seq<string> {
    if fields == [] then []
    else (if trim(fields[0]) == "" then [] else [trim(fields[0])]) + Trimmed(fields[1..], trim)
  }

  lemma {:induction false} TrimmedSnoc(fields: seq<string>, last: string, trim: string -> string)
    ensures Trimmed(fields + [last], trim) == Trimmed(fields, trim) + if trim(last) == "" then [] else [trim(last)]
  {
    if fields == [] {
      assert fields + [last] == [last] && [last][1..] == [];
    } else {
      TrimmedSnoc(fields[1..], last, trim);
      assert (fields + [last])[1..] == fields[1..] + [last];
    }
  }

  lemma {:induction false} FieldsAreTrimmed(x: Executor, fields: seq<string>)
    ensures x.FieldsOf(fields) == Trimmed(fields, x.env.trim)
  {
    if fields != [] {
      var front, last := fields[..|fields| - 1], fields[|fields| - 1];
      FieldsAreTrimmed(x, front);
      TrimmedSnoc(front, last, x.env.trim);
      assert fields == front + [last];
    }
  }

  /** One filter as the resource layer gets it. */
  predicate Projects(p: ProjectedFilter, f: Filter, trim: string -> string) {
    && p.field == trim(f.field) && p.value == f.value
    && (p.substring <==> trim(f.operator) == "~" || trim(f.operator) == "contains")
  }

  lemma {:induction false} FiltersAreProjected(x: Executor, filters: seq<Filter>)
    requires x.FiltersOf(filters).Parsed?
    ensures var parsed := x.FiltersOf(filters).filters;
      |parsed| == |filters| && forall i :: 0 <= i < |filters| ==> Projects(parsed[i], filters[i], x.env.trim)
  {
    if filters != [] {
      FiltersAreProjected(x, filters[..|filters| - 1]);
    }
  }

  /** The narrowing a request names. */
  predicate NarrowsBy(n: Narrowing, input: Input, trim: string -> string) {
    && n.search == input.search && n.fields == Trimmed(input.fields, trim)
    && |n.filters| == |input.filters| && forall i :: 0 <= i < |input.filters| ==> Projects(n.filters[i], input.filters[i], trim)
  }

  lemma NarrowingIsNamed(x: Executor, req: Request)
    requires req.input.Some? && x.FiltersOf(req.input.value.filters).Parsed?
    ensures NarrowsBy(x.NarrowingOf(req), req.input.value, x.env.trim)
  {
    FieldsAreTrimmed(x, req.input.value.fields);
    FiltersAreProjected(x, req.input.value.filters);
  }

  lemma NarrowingIsUnique(n: Narrowing, m: Narrowing, input: Input, trim: string -> string)
    requires NarrowsBy(n, input, trim) && NarrowsBy(m, input, trim)
    ensures n == m
  {
    assert forall i :: 0 <= i < |n.filters| ==> n.filters[i] == m.filters[i];
  }

  /** The error a cause of the resource layer comes out as. */
  predicate CauseIs(err: MachineError, cause: Cause, req: Request, env: Environment)
    requires req.input.Some?
  {
    var product, resource := env.trim(req.input.value.product), env.trim(req.input.value.resource);
    && err.operation == req.operation && err.product == product && err.resource == resource && err.missing == []
    && match cause
       case ContextCanceled => err.kind == "canceled" && err.message == "request canceled"
       case ContextDeadline => err.kind == "deadline_exceeded" && err.message == "request deadline exceeded"
       case UnknownResource => err.kind == "unknown_resource" && err.message == env.unknownMessage(product, resource)
       case RecordNotFound => err.kind == "not_found" && err.message == "record not found"
       case InvalidId => err.kind == "invalid_resource_id" && err.message == "invalid resource ID"
       case FieldProblem(message) => err.kind == "usage" && err.message == env.sanitize(message)
       case UnsupportedLoad => err.kind == "unsupported_operation" && err.message == "unsupported resource read operation"
       case OtherCause => err.kind == "live_access_failed" && err.message == "resource read failed"
  }

  /** What a sound read comes to, given the query it names and the narrowing it names. */
  ghost predicate Serves(x: Executor, req: Request, query: Query, n: Narrowing, outcome: Outcome)
    requires req.input.Some? && x.browser != null
  {
    var input := req.input.value;
    match x.browser.answer(query)
    case LoadFailed(NilMachine) => outcome.Panics?
    case LoadFailed(OfMachine(err)) => outcome == Refused(err.(message := x.env.sanitize(err.message)))
    case LoadFailed(OfCause(cause)) => outcome.Refused? && CauseIs(outcome.err, cause, req, x.env)
    case Loaded(records) =>
      if input.fields == [] && input.filters == [] && input.search == "" then outcome == Delivers(records)
      else if !x.env.inCatalog(query.product, query.resource) then
        outcome.Refused? && CauseIs(outcome.err, UnknownResource, req, x.env)
      else
        match x.env.narrow(query.product, query.resource, n, records)
        case Narrowed(narrowed) => outcome == Delivers(narrowed)
        case NarrowFailed(cause) => outcome.Refused? && CauseIs(outcome.err, cause, req, x.env)
  }

  /** A read that every check lets through, given the narrowing it names. */
  predicate SoundRead(x: Executor, req: Request, n: Narrowing) {
    && req.capability == "resources.read" && req.operation in {"list", "get", "show"} && req.input.Some?
    && var input := req.input.value;
    && var product, resource := x.env.trim(input.product), x.env.trim(input.resource);
    && product != "" && resource != "" && (req.operation == "get" ==> x.env.trim(input.recordId) != "")
    && (req.operation != "list" ==> input.filters == [] && input.search == "")
    && (forall f :: f in input.filters ==> x.env.trim(f.field) != "" && x.env.trim(f.operator) in {"=", "exact", "~", "contains"})
    && NarrowsBy(n, input, x.env.trim)
    && (input.fields != [] || input.filters != [] ==>
          x.env.inCatalog(product, resource) && x.env.checkNarrowing(product, resource, n.(search := "")).None?)
  }

  lemma SoundIsValid(x: Executor, req: Request, n: Narrowing)
    requires req.input.Some? && NarrowsBy(n, req.input.value, x.env.trim)
    ensures SoundRead(x, req, n) <==> x.ValidRead(req)
  {
    x.FiltersParseIff(req.input.value.filters);
    if x.FiltersOf(req.input.value.filters).Parsed? {
      NarrowingIsNamed(x, req);
      NarrowingIsUnique(n, x.NarrowingOf(req), req.input.value, x.env.trim);
    }
  }

  /** A request asks the loader exactly when it is a sound read that the loader can serve. */
  lemma AsksExactlySoundReads(x: Executor, req: Request, n: Narrowing)
    requires req.input.Some? ==> NarrowsBy(n, req.input.value, x.env.trim)
    ensures x.ReachesLoader(req) <==>
      SoundRead(x, req, n) && x.browser != null && (req.operation == "get" ==> x.browser.isGetter)
  {
    x.LoaderSeesExactlyValidReads(req);
    if req.input.Some? {
      SoundIsValid(x, req, n);
    }
  }

  /** A sound read that the loader can serve comes to the loader's answer to the query
      it names: the records as they are when it names no fields, filters or search, and
      what narrowing by exactly those leaves of them otherwise. */
  lemma ReadServed(x: Executor, req: Request, query: Query, n: Narrowing)
    requires SoundRead(x, req, n) && x.browser != null && (req.operation == "get" ==> x.browser.isGetter)
    requires x.AsksFor(query, req)
    ensures Serves(x, req, query, n, x.OutcomeOf(req))
  {
    AsksExactlySoundReads(x, req, n);
    x.FiltersParseIff(req.input.value.filters);
    NarrowingIsNamed(x, req);
    NarrowingIsUnique(n, x.NarrowingOf(req), req.input.value, x.env.trim);
    assert query == x.QueryOf(req);
    FinishServes(x, req, query, n);
  }

  lemma CauseComesOut(x: Executor, req: Request, cause: Cause)
    requires req.input.Some?
    ensures CauseIs(x.FromCause(req, cause), cause, req, x.env)
  {
  }

  lemma RecordsServed(x: Executor, req: Request, query: Query, n: Narrowing, records: seq<Record>)
    requires req.input.Some? && x.browser != null && query == x.QueryOf(req) && n == x.NarrowingOf(req)
    requires x.browser.answer(query) == Loaded(records)
    ensures Serves(x, req, query, n, x.Finish(req, Loaded(records)))
  {
    var narrowed := x.NarrowedFor(req, records);
    if narrowed.NarrowFailed? {
      CauseComesOut(x, req, narrowed.cause);
    }
  }

  lemma FailureServed(x: Executor, req: Request, query: Query, n: Narrowing, error: LoadError)
    requires req.input.Some? && x.browser != null && x.browser.answer(query) == LoadFailed(error)
    ensures Serves(x, req, query, n, x.Finish(req, LoadFailed(error)))
  {
    if error.OfCause? {
      CauseComesOut(x, req, error.cause);
    }
  }

  lemma FinishServes(x: Executor, req: Request, query: Query, n: Narrowing)
    requires x.ReachesLoader(req) && req.input.Some? && query == x.QueryOf(req) && n == x.NarrowingOf(req)
    ensures Serves(x, req, query, n, x.OutcomeOf(req))
  {
    var loaded := x.browser.answer(query);
    assert x.OutcomeOf(req) == x.Finish(req, loaded);
    match loaded {
      case Loaded(records) => RecordsServed(x, req, query, n, records);
      case LoadFailed(error) => FailureServed(x, req, query, n, error);
    }
  }

  // ------------------------------------------------------- other requests

  /** What is wrong with a request, and how it is refused; the first that applies. */
  lemma RefusedBeforeLoading(x: Executor, req: Request)
    requires x.SemanticsProblem(req).None? && req.operation != "manifest"
    ensures var product := if req.input.None? then "" else x.env.trim(req.input.value.product);
      var resource := if req.input.None? then "" else x.env.trim(req.input.value.resource);
      var id := if req.input.None? then "" else x.env.trim(req.input.value.recordId);
      var problem := req.capability != "resources.read" || req.operation !in {"list", "get", "show"}
        || product == "" || resource == "" || (req.operation == "get" && id == "");
      problem ==>
        && x.OutcomeOf(req).Refused?
        && x.OutcomeOf(req).err.kind ==
             (if req.capability != "resources.read" then "unsupported_capability"
              else if req.operation !in {"list", "get", "show"} then "unsupported_operation"
              else "usage")
        && (x.OutcomeOf(req).err.kind == "usage" ==>
              x.OutcomeOf(req).err.missing ==
                (if req.input.None? then ["input"]
                 else (if product == "" then ["input.product"] else [])
                      + (if resource == "" then ["input.resource"] else [])
                      + (if req.operation == "get" && id == "" then ["input.record_id"] else [])))
  {
  }

  /** Narrowing an operation that takes none, and filters that do not parse, are usage
      errors before anything else. */
  lemma MisusedInput(x: Executor, req: Request)
    requires req.input.Some?
    requires
      || (req.input.value.fields != [] && req.operation !in {"list", "get", "show"})
      || ((req.input.value.filters != [] || req.input.value.search != "") && req.operation != "list")
      || (exists f :: f in req.input.value.filters
            && (x.env.trim(f.field) == "" || x.env.trim(f.operator) !in {"=", "exact", "~", "contains"}))
    ensures x.OutcomeOf(req).Refused? && x.OutcomeOf(req).err.kind == "usage"
  {
    x.FiltersParseIff(req.input.value.filters);
    assert forall f :: f in req.input.value.filters ==> (x.WellFormedFilter(f) <==>
      x.env.trim(f.field) != "" && x.env.trim(f.operator) in {"=", "exact", "~", "contains"});
  }

  /** A narrowing that does not suit the resource. */
  lemma UnsuitableNarrowing(x: Executor, req: Request, n: Narrowing)
    requires req.capability == "resources.read" && req.operation in {"list", "get", "show"} && x.SemanticsProblem(req).None?
    requires x.Missing(req) == [] && NarrowsBy(n, req.input.value, x.env.trim)
    requires req.input.value.fields != [] || req.input.value.filters != []
    ensures var input := req.input.value;
      var product, resource := x.env.trim(input.product), x.env.trim(input.resource);
      if !x.env.inCatalog(product, resource) then
        x.OutcomeOf(req).Refused? && CauseIs(x.OutcomeOf(req).err, UnknownResource, req, x.env)
      else if x.env.checkNarrowing(product, resource, n.(search := "")).Some? then
        x.OutcomeOf(req).Refused?
        && CauseIs(x.OutcomeOf(req).err, x.env.checkNarrowing(product, resource, n.(search := "")).value, req, x.env)
      else x.NarrowingProblem(req).None?
  {
    NarrowingIsNamed(x, req);
    NarrowingIsUnique(n, x.NarrowingOf(req), req.input.value, x.env.trim);
    CauseComesOut(x, req, UnknownResource);
    var checked := x.env.checkNarrowing(x.Product(req), x.Resource(req), n.(search := ""));
    if checked.Some? {
      CauseComesOut(x, req, checked.value);
    }
  }

  /** A loader that is missing, or cannot load by id. */
  lemma MissingLoader(x: Executor, req: Request)
    requires req.capability == "resources.read" && req.operation in {"list", "get", "show"} && x.SemanticsProblem(req).None?
    requires x.Missing(req) == [] && x.NarrowingProblem(req).None?
    ensures
      if x.browser == null || (req.operation == "get" && !x.browser.isGetter) then
        x.OutcomeOf(req).Refused? && x.OutcomeOf(req).err.kind == "internal"
      else x.ReachesLoader(req)
  {
  }

  lemma ManifestRequest(x: Executor, req: Request)
    requires req.operation == "manifest" && x.SemanticsProblem(req).None?
    ensures if req.capability == "" || req.capability == "resources.read" then x.OutcomeOf(req) == Described(x.env.manifest)
            else x.OutcomeOf(req).Refused? && x.OutcomeOf(req).err.kind == "unsupported_capability"
  {
  }

  /** A typed read is a generic request for the same records; another operation than the
      three is refused for what it is. */
  lemma TypedRead(x: Executor, read: ReadRequest)
    ensures x.AsRequest(read) == Request(read.requestId, "resources.read", read.operation, Some(read.input))
    ensures read.operation in {"list", "get", "show"} ==> x.ReadOutcome(read) == x.OutcomeOf(x.AsRequest(read))
    ensures read.operation !in {"list", "get", "show"} ==>
      && x.ReadOutcome(read).Refused?
      && var err := x.ReadOutcome(read).err;
         err.kind == "unsupported_operation" && err.operation == read.operation && err.missing == []
         && err.product == x.env.trim(read.input.product) && err.resource == x.env.trim(read.input.resource)
  {
  }

  // ------------------------------------------------------ what is reported

  /** The one-shot response to an outcome, field by field. */
  lemma ResponseSays(x: Executor, req: Request, outcome: Outcome)
    requires !outcome.Panics?
    ensures var resp := x.ResponseTo(req, outcome);
      && resp.requestId == req.requestId && resp.capability == req.capability && resp.operation == req.operation
      && resp.meta.requestId == req.requestId && resp.meta.readOnly
      && resp.meta.product == (if req.input.None? then "" else x.env.trim(req.input.value.product))
      && resp.meta.resource == (if req.input.None? then "" else x.env.trim(req.input.value.resource))
      && match outcome
         case Delivers(records) =>
           resp.records == Some(records) && resp.meta.count == |records| && resp.manifest.None? && resp.error.None?
         case Described(manifest) =>
           resp.manifest == Some(manifest) && resp.meta.count == |manifest.capabilities|
           && resp.records.None? && resp.error.None?
         case Refused(err) =>
           && resp.error.Some? && resp.records.None? && resp.manifest.None? && resp.meta.count == 0
           && ErrorIs(resp.error.value, err, req.operation, resp.meta.product, resp.meta.resource)
  {
  }

  /** Event i of the stream of an outcome, field by field. */
  lemma TraceSays(x: Executor, req: Request, outcome: Outcome, i: nat)
    requires !outcome.Panics? && i < |x.TraceFrom(req, outcome)|
    ensures var event := x.TraceFrom(req, outcome)[i]; var n := |x.TraceFrom(req, outcome)|;
      var product := if req.input.None? then "" else x.env.trim(req.input.value.product);
      var resource := if req.input.None? then "" else x.env.trim(req.input.value.resource);
      && n == 2 + (if outcome.Delivers? then |outcome.records| else 0)
      && (i == 0 ==> event.kind.Started? && event.product == product && event.resource == resource)
      && (0 < i < n - 1 ==>
            && event.kind.RecordEvent? && event.product == product && event.resource == resource
            && event.record == Some(outcome.records[i - 1]))
      && (i == n - 1 ==>
            match outcome
            case Delivers(records) =>
              && event.kind.Completed? && event.product == product && event.resource == resource
              && event.records == |records| && event.resources == 1 && event.result == Some(records)
            case Described(manifest) =>
              event.kind.Completed? && event.product == product && event.resource == resource && event.manifest == Some(manifest)
            case Refused(err) =>
              && event.kind == (if err.kind == "canceled" then Canceled else Failed) && event.err.Some?
              && Reports(event, event.err.value) && ErrorIs(event.err.value, err, req.operation, product, resource))
  {
    x.TraceEvents(req, outcome, i);
  }

  // ------------------------------------------------------ the two sinks

  /** What the one-shot response cannot hold: a warning, and events without their load. */
  lemma ResponseRefuses(events: seq<Event>, e: Event)
    ensures ResponseAnswer(events + [e]).Accept? <==>
      && !e.kind.Warning? && (e.kind.RecordEvent? ==> e.record.Some?)
      && (e.kind.Failed? || e.kind.Canceled? ==> e.err.Some?)
  {
  }

  /** What a typed read cannot: also a manifest, or a completion whose records are not as
      many as there were record events. */
  lemma ReadRefuses(events: seq<Event>, e: Event)
    ensures ReadAnswer(events + [e]).Accept? <==>
      && !e.kind.Warning? && (e.kind.RecordEvent? ==> e.record.Some?)
      && (e.kind.Completed? ==>
            && e.manifest.None? && e.result.Some? && |e.result.value| == e.records
            && e.records == |set i | 0 <= i < |events| && events[i].kind.RecordEvent?|)
  {
    assert (events + [e])[..|events|] == events;
    EmittedCounts(events);
  }

  lemma {:induction false} EmittedCounts(events: seq<Event>)
    ensures Emitted(events) == |set i | 0 <= i < |events| && events[i].kind.RecordEvent?|
  {
    if events != [] {
      var n := |events| - 1;
      EmittedCounts(events[..n]);
      var all := set i | 0 <= i < |events| && events[i].kind.RecordEvent?;
      var some := set i | 0 <= i < |events[..n]| && events[..n][i].kind.RecordEvent?;
      CountsOneMore(all, some, n);
    }
  }

  lemma CountsOneMore(all: set<int>, some: set<int>, n: int)
    requires n !in some
    requires forall i :: i in some <==> (i in all && i != n)
    ensures |all| == |some| + if n in all then 1 else 0
  {
    var last := if n in all then {n} else {};
    forall i ensures i in all <==> i in some + last {
      assert i in some <==> (i in all && i != n);
    }
    assert all == some + last;
  }
}
