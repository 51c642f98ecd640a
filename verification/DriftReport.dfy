// The comparison of two whole dumps (CompareContext in internal/diff/diff.go):
// one comparison per resource, summed into the report, and the proof that the
// sums balance and that drift is reported exactly when some data differs.
module DriftReport {
  import opened JsonValues
  import opened KeyedDiff
  import opened KeyedDiffProperties
  import opened RawRecords
  import HashDiff

  datatype Mode = Singleton | ByKey | ByContent

  /** What one dump holds of a resource. */
  datatype Side = NotSelected | Succeeded(records: seq<Record>) | Failed

  datatype Resource = Resource(mode: Mode, spec: Spec, before: Side, after: Side)

  datatype ResourceDiff =
    | Records(diff: Diff)
    | Contents(added: seq<HashDiff.HashRef>, removed: seq<HashDiff.HashRef>)
    | Skipped
  {
    function Added(): nat {
      match this case Records(d) => |d.added| case Contents(a, _) => |a| case Skipped => 0
    }

    function Removed(): nat {
      match this case Records(d) => |d.removed| case Contents(_, r) => |r| case Skipped => 0
    }

    function Changed(): nat {
      if this.Records? then |diff.changed| else 0
    }

    predicate HasDrift() {
      Added() > 0 || Removed() > 0 || Changed() > 0
    }
  }

  datatype Summary = Summary(compared: nat, drifted: nat, added: nat, removed: nat, changed: nat)

  datatype Report = Report(summary: Summary, resources: seq<ResourceDiff>)
  {
    predicate HasDrift() {
      summary.added > 0 || summary.removed > 0 || summary.changed > 0
    }
  }

  datatype Error = InvalidDump | ScopeMismatch
  datatype Result<T> = Ok(value: T) | Err(error: Error)

  const SINGLETON_KEY := "singleton"

  // ------------------------------------------------------ one resource

  ghost function SingletonDiff(oldRecords: seq<Record>, newRecords: seq<Record>, spec: Spec, guard: Guard): Diff
    requires |oldRecords| <= 1 && |newRecords| <= 1
  {
    if oldRecords == [] && newRecords == [] then EMPTY
    else if oldRecords == [] then EMPTY.(added := [RecordRef(SINGLETON_KEY, Filtered(newRecords[0], spec))])
    else if newRecords == [] then EMPTY.(removed := [RecordRef(SINGLETON_KEY, Filtered(oldRecords[0], spec))])
    else
      var changes := FieldChanges(Filtered(oldRecords[0], spec), Filtered(newRecords[0], spec), guard);
      if changes == [] then EMPTY else EMPTY.(changed := [RecordChange(SINGLETON_KEY, changes)])
  }

  /** What the three lists say of the records as loaded: one that came, one that went,
      or the compared fields in which one differs. */
  ghost predicate SingletonMeans(d: Diff, oldRecords: seq<Record>, newRecords: seq<Record>, ignored: set<string>, guard: Guard)
    requires |oldRecords| <= 1 && |newRecords| <= 1
  {
    && (d.added != [] <==> |oldRecords| < |newRecords|)
    && (d.removed != [] <==> |newRecords| < |oldRecords|)
    && (d.changed != [] <==>
          |oldRecords| == |newRecords| == 1 && exists field :: DiffersIn(field, oldRecords[0], newRecords[0], ignored, guard))
    && (forall r :: r in d.added ==> r.key == "singleton" && Keeps(r.record, newRecords[0], ignored))
    && (forall r :: r in d.removed ==> r.key == "singleton" && Keeps(r.record, oldRecords[0], ignored))
    && (forall c :: c in d.changed ==> c.key == "singleton" && Lists(c.changes, oldRecords[0], newRecords[0], ignored, guard))
  }

  lemma SingletonDiffMeans(oldRecords: seq<Record>, newRecords: seq<Record>, spec: Spec, guard: Guard)
    requires |oldRecords| <= 1 && |newRecords| <= 1
    ensures SingletonMeans(SingletonDiff(oldRecords, newRecords, spec, guard), oldRecords, newRecords,
                           if spec.ignoreOperational then spec.operational else {}, guard)
  {
    if oldRecords != [] && newRecords != [] {
      SomeChangeIffDiffers(oldRecords[0], newRecords[0], if spec.ignoreOperational then spec.operational else {}, spec, guard);
      FilteredLists(oldRecords[0], newRecords[0], spec, guard);
    } else if newRecords != [] {
      FilteredKeeps(newRecords[0], spec);
    } else if oldRecords != [] {
      FilteredKeeps(oldRecords[0], spec);
    }
  }

  method CompareSingleton(oldRecords: seq<Record>, newRecords: seq<Record>, spec: Spec, guard: Guard)
    returns (result: Result<Diff>)
    ensures result.Ok? <==> |oldRecords| <= 1 && |newRecords| <= 1
    ensures result.Ok? ==> result.value == SingletonDiff(oldRecords, newRecords, spec, guard)
    ensures result.Ok? ==>
      SingletonMeans(result.value, oldRecords, newRecords, if spec.ignoreOperational then spec.operational else {}, guard)
  {
    if |oldRecords| > 1 || |newRecords| > 1 {
      return Err(InvalidDump);
    }
    var out := EMPTY;
    if |oldRecords| == 0 && |newRecords| == 1 {
      out := out.(added := out.added + [RecordRef(SINGLETON_KEY, Filtered(newRecords[0], spec))]);
    } else if |oldRecords| == 1 && |newRecords| == 0 {
      out := out.(removed := out.removed + [RecordRef(SINGLETON_KEY, Filtered(oldRecords[0], spec))]);
    } else if |oldRecords| == 1 && |newRecords| == 1 {
      var changes := DiffFields(Filtered(oldRecords[0], spec), Filtered(newRecords[0], spec), guard);
      if changes != [] {
        out := out.(changed := out.changed + [RecordChange(SINGLETON_KEY, changes)]);
      }
    }
    SingletonDiffMeans(oldRecords, newRecords, spec, guard);
    return Ok(out);
  }

  /** The two sides can be compared under the resource's identity mode. */
  ghost predicate Comparable(oldRecords: seq<Record>, newRecords: seq<Record>, mode: Mode, spec: Spec, host: Host)
  {
    match mode
    case Singleton => |oldRecords| <= 1 && |newRecords| <= 1
    case ByKey => Keyable(oldRecords, spec, host) && Keyable(newRecords, spec, host)
    case ByContent =>
      HashDiff.Hashable(oldRecords, spec, host.guard) && HashDiff.Hashable(newRecords, spec, host.guard)
  }

  ghost predicate IsDiff(diff: ResourceDiff, oldRecords: seq<Record>, newRecords: seq<Record>,
                         mode: Mode, spec: Spec, host: Host, digest: HashDiff.Digest)
    requires Comparable(oldRecords, newRecords, mode, spec, host)
  {
    match mode
    case Singleton => diff == Records(SingletonDiff(oldRecords, newRecords, spec, host.guard))
    case ByKey => diff.Records? && Comparison(oldRecords, newRecords, spec, host) == Compared(diff.diff)
    case ByContent =>
      && diff.Contents?
      && HashDiff.Rows(oldRecords, spec, host.guard, digest).Some? && HashDiff.Rows(newRecords, spec, host.guard, digest).Some?
      && HashDiff.IsHashDiff(HashDiff.Outcome.Compared(diff.added, diff.removed),
                             HashDiff.Rows(oldRecords, spec, host.guard, digest).value,
                             HashDiff.Rows(newRecords, spec, host.guard, digest).value)
  }

  /** compareResource */
  method CompareResource(oldRecords: seq<Record>, newRecords: seq<Record>, mode: Mode, spec: Spec, host: Host, digest: HashDiff.Digest)
    returns (result: Result<ResourceDiff>)
    ensures result.Ok? <==> Comparable(oldRecords, newRecords, mode, spec, host)
    ensures result.Ok? ==> IsDiff(result.value, oldRecords, newRecords, mode, spec, host, digest)
    ensures result.Err? ==> result.error == InvalidDump
  {
    match mode
    case Singleton =>
      var singleton := CompareSingleton(oldRecords, newRecords, spec, host.guard);
      if singleton.Err? {
        return Err(InvalidDump);
      }
      return Ok(Records(singleton.value));
    case ByKey =>
      var keyed := CompareKeyed(oldRecords, newRecords, spec, host);
      ComparedIffKeyable(oldRecords, newRecords, spec, host);
      if keyed.Rejected? {
        return Err(InvalidDump);
      }
      return Ok(Records(keyed.diff));
    case ByContent =>
      HashDiff.RowsIffHashable(oldRecords, spec, host.guard, digest);
      HashDiff.RowsIffHashable(newRecords, spec, host.guard, digest);
      var hashed := HashDiff.CompareContentHash(oldRecords, newRecords, spec, host.guard, digest);
      if hashed.Unhashable? {
        return Err(InvalidDump);
      }
      return Ok(Contents(hashed.added, hashed.removed));
  }

  /** Added minus removed is the growth in records, in every mode. */
  lemma DiffBalances(diff: ResourceDiff, oldRecords: seq<Record>, newRecords: seq<Record>,
                     mode: Mode, spec: Spec, host: Host, digest: HashDiff.Digest)
    requires Comparable(oldRecords, newRecords, mode, spec, host)
    requires IsDiff(diff, oldRecords, newRecords, mode, spec, host, digest)
    ensures diff.Added() - diff.Removed() == |newRecords| - |oldRecords|
  {
    match mode
    case Singleton =>
    case ByKey =>
      KeyedCounts(oldRecords, newRecords, spec, host);
    case ByContent =>
      var oldRows := HashDiff.Rows(oldRecords, spec, host.guard, digest).value;
      var newRows := HashDiff.Rows(newRecords, spec, host.guard, digest).value;
      HashDiff.HashCounts(HashDiff.Outcome.Compared(diff.added, diff.removed), oldRows, newRows);
      HashDiff.RowsHash(oldRecords, spec, host.guard, digest);
      HashDiff.RowsHash(newRecords, spec, host.guard, digest);
  }

  /** Both sides, as loaded, hold the same data: nothing to report. */
  ghost predicate SameData(oldRecords: seq<Record>, newRecords: seq<Record>, mode: Mode, spec: Spec, host: Host)
    requires Comparable(oldRecords, newRecords, mode, spec, host)
  {
    match mode
    case Singleton =>
      |oldRecords| == |newRecords|
      && (oldRecords != [] ==>
            var ignored := if spec.ignoreOperational then spec.operational else {};
            forall field :: !DiffersIn(field, oldRecords[0], newRecords[0], ignored, host.guard))
    case ByKey => SameKeyedData(oldRecords, newRecords, spec, host)
    case ByContent => HashDiff.SameContents(oldRecords, newRecords, spec, host.guard)
  }

  lemma DriftIffDataDiffers(diff: ResourceDiff, oldRecords: seq<Record>, newRecords: seq<Record>,
                            mode: Mode, spec: Spec, host: Host, digest: HashDiff.Digest)
    requires Comparable(oldRecords, newRecords, mode, spec, host)
    requires IsDiff(diff, oldRecords, newRecords, mode, spec, host, digest) && HashDiff.Injective(digest)
    ensures diff.HasDrift() <==> !SameData(oldRecords, newRecords, mode, spec, host)
  {
    match mode
    case Singleton =>
      SingletonDiffMeans(oldRecords, newRecords, spec, host.guard);
    case ByKey =>
      EmptyIffSameKeyedData(oldRecords, newRecords, spec, host, diff.diff);
      assert !diff.HasDrift() <==> diff.diff == EMPTY;
    case ByContent =>
      HashDiff.NoHashDriftIffSameCounts(HashDiff.Outcome.Compared(diff.added, diff.removed),
                                        HashDiff.Rows(oldRecords, spec, host.guard, digest).value,
                                        HashDiff.Rows(newRecords, spec, host.guard, digest).value);
      HashDiff.SameContentsIffSameCounts(oldRecords, newRecords, spec, host.guard, digest);
  }

  // ------------------------------------------------------ the whole report

  predicate BothSucceeded(r: Resource) {
    r.before.Succeeded? && r.after.Succeeded?
  }

  /** The resource was selected in both dumps or in neither. */
  predicate InScope(r: Resource) {
    r.before.NotSelected? == r.after.NotSelected?
  }

  /** Nothing stops the resource from being compared. */
  ghost predicate Sound(r: Resource, host: Host) {
    && InScope(r)
    && (BothSucceeded(r) ==> Comparable(r.before.records, r.after.records, r.mode, r.spec, host))
  }

  ghost predicate Drifted(r: Resource, host: Host) {
    && BothSucceeded(r)
    && Comparable(r.before.records, r.after.records, r.mode, r.spec, host)
    && !SameData(r.before.records, r.after.records, r.mode, r.spec, host)
  }

  predicate Counted(r: Resource) {
    BothSucceeded(r) && !(r.before.records == [] && r.after.records == [])
  }

  /** New minus old records over the compared resources. */
  function Growth(resources: seq<Resource>): int {
    if resources == [] then 0
    else
      var last := resources[|resources| - 1];
      Growth(resources[..|resources| - 1])
      + if BothSucceeded(last) then |last.after.records| - |last.before.records| else 0
  }

  function CountedIn(resources: seq<Resource>): nat {
    if resources == [] then 0
    else CountedIn(resources[..|resources| - 1]) + if Counted(resources[|resources| - 1]) then 1 else 0
  }

  ghost function DriftedIn(resources: seq<Resource>, host: Host): nat {
    if resources == [] then 0
    else
      DriftedIn(resources[..|resources| - 1], host)
      + if Drifted(resources[|resources| - 1], host) then 1 else 0
  }

  /** What the summary says about the resources compared so far. */
  ghost predicate Sums(s: Summary, resources: seq<Resource>, host: Host) {
    && s.added - s.removed == Growth(resources)
    && s.compared == CountedIn(resources)
    && s.drifted == DriftedIn(resources, host)
    && (s.added > 0 || s.removed > 0 || s.changed > 0 <==> s.drifted > 0)
  }

  function AddDiff(s: Summary, diff: ResourceDiff): Summary {
    Summary(s.compared + 1, s.drifted + (if diff.HasDrift() then 1 else 0),
            s.added + diff.Added(), s.removed + diff.Removed(), s.changed + diff.Changed())
  }

  lemma SumsSkip(s: Summary, resources: seq<Resource>, last: Resource, host: Host)
    requires Sums(s, resources, host) && Sound(last, host) && !Counted(last)
    ensures Sums(s, resources + [last], host)
  {
    assert (resources + [last])[..|resources|] == resources;
    if BothSucceeded(last) {
      NothingDriftsInNothing(last, host);
    }
  }

  lemma NothingDriftsInNothing(r: Resource, host: Host)
    requires BothSucceeded(r) && !Counted(r) && Sound(r, host)
    ensures !Drifted(r, host)
  {
  }

  lemma SumsAdd(s: Summary, resources: seq<Resource>, last: Resource, diff: ResourceDiff, host: Host, digest: HashDiff.Digest)
    requires Sums(s, resources, host) && Sound(last, host) && Counted(last)
    requires IsDiff(diff, last.before.records, last.after.records, last.mode, last.spec, host, digest) && HashDiff.Injective(digest)
    ensures Sums(AddDiff(s, diff), resources + [last], host)
  {
    assert (resources + [last])[..|resources|] == resources;
    DiffBalances(diff, last.before.records, last.after.records, last.mode, last.spec, host, digest);
    DriftIffDataDiffers(diff, last.before.records, last.after.records, last.mode, last.spec, host, digest);
  }

  /** The report has an entry for the resource. */
  predicate Shown(r: Resource) {
    InScope(r) && !r.before.NotSelected? && (BothSucceeded(r) ==> Counted(r))
  }

  /** The entry: a placeholder where a collection failed, the comparison otherwise. */
  ghost predicate ShownAs(r: Resource, entry: ResourceDiff, host: Host, digest: HashDiff.Digest) {
    if !BothSucceeded(r) then entry == Skipped
    else
      && Comparable(r.before.records, r.after.records, r.mode, r.spec, host)
      && IsDiff(entry, r.before.records, r.after.records, r.mode, r.spec, host, digest)
  }

  /** The entries are those of the resources shown, in order. */
  ghost predicate Entries(resources: seq<Resource>, entries: seq<ResourceDiff>, host: Host, digest: HashDiff.Digest)
    decreases |resources|
  {
    if resources == [] then entries == []
    else
      var front, last := resources[..|resources| - 1], resources[|resources| - 1];
      if !Shown(last) then Entries(front, entries, host, digest)
      else
        && entries != [] && ShownAs(last, entries[|entries| - 1], host, digest)
        && Entries(front, entries[..|entries| - 1], host, digest)
  }

  lemma EntriesSkip(resources: seq<Resource>, entries: seq<ResourceDiff>, last: Resource, host: Host, digest: HashDiff.Digest)
    requires Entries(resources, entries, host, digest) && !Shown(last)
    ensures Entries(resources + [last], entries, host, digest)
  {
    assert (resources + [last])[..|resources|] == resources;
  }

  lemma EntriesAdd(resources: seq<Resource>, entries: seq<ResourceDiff>, last: Resource, entry: ResourceDiff,
                   host: Host, digest: HashDiff.Digest)
    requires Entries(resources, entries, host, digest) && Shown(last) && ShownAs(last, entry, host, digest)
    ensures Entries(resources + [last], entries + [entry], host, digest)
  {
    assert (resources + [last])[..|resources|] == resources;
    assert (entries + [entry])[..|entries|] == entries;
  }

  function Total(entries: seq<ResourceDiff>, of: ResourceDiff -> nat): nat {
    if entries == [] then 0 else Total(entries[..|entries| - 1], of) + of(entries[|entries| - 1])
  }

  /** The record counts of the summary are totals over the entries. */
  ghost predicate Totals(s: Summary, entries: seq<ResourceDiff>) {
    && s.added == Total(entries, (e: ResourceDiff) => match e case Records(d) => |d.added| case Contents(a, _) => |a| case _ => 0)
    && s.removed == Total(entries, (e: ResourceDiff) => match e case Records(d) => |d.removed| case Contents(_, r) => |r| case _ => 0)
    && s.changed == Total(entries, (e: ResourceDiff) => match e case Records(d) => |d.changed| case _ => 0)
  }

  lemma TotalsAdd(s: Summary, entries: seq<ResourceDiff>, entry: ResourceDiff)
    requires Totals(s, entries)
    ensures Totals(if entry.Skipped? then s else AddDiff(s, entry), entries + [entry])
  {
    assert (entries + [entry])[..|entries|] == entries;
  }

  /** The report so far. */
  ghost predicate Reports(report: Report, resources: seq<Resource>, host: Host, digest: HashDiff.Digest) {
    && Sums(report.summary, resources, host)
    && Entries(resources, report.resources, host, digest)
    && Totals(report.summary, report.resources)
  }

  /** One turn of the loop of CompareContext. */
  method AddResource(report: Report, r: Resource, host: Host, digest: HashDiff.Digest, ghost earlier: seq<Resource>)
    returns (result: Result<Report>)
    requires Reports(report, earlier, host, digest) && HashDiff.Injective(digest)
    ensures result.Ok? <==> Sound(r, host)
    ensures result == Err(ScopeMismatch) <==> r.before.NotSelected? != r.after.NotSelected?
    ensures result.Ok? ==> Reports(result.value, earlier + [r], host, digest)
  {
    if r.before.NotSelected? != r.after.NotSelected? {
      return Err(ScopeMismatch);
    }
    if r.before.NotSelected? {
      SumsSkip(report.summary, earlier, r, host);
      EntriesSkip(earlier, report.resources, r, host, digest);
      return Ok(report);
    }
    if r.before.Failed? || r.after.Failed? {
      SumsSkip(report.summary, earlier, r, host);
      EntriesAdd(earlier, report.resources, r, Skipped, host, digest);
      TotalsAdd(report.summary, report.resources, Skipped);
      return Ok(report.(resources := report.resources + [Skipped]));
    }
    result := AddCompared(report, r, host, digest, earlier);
  }

  /** The turn for a resource that both dumps hold. */
  method AddCompared(report: Report, r: Resource, host: Host, digest: HashDiff.Digest, ghost earlier: seq<Resource>)
    returns (result: Result<Report>)
    requires Reports(report, earlier, host, digest) && HashDiff.Injective(digest) && BothSucceeded(r)
    ensures result.Ok? <==> Sound(r, host)
    ensures result.Err? ==> result.error == InvalidDump
    ensures result.Ok? ==> Reports(result.value, earlier + [r], host, digest)
  {
    var diff := CompareResource(r.before.records, r.after.records, r.mode, r.spec, host, digest);
    if diff.Err? {
      return Err(diff.error);
    }
    if |r.before.records| == 0 && |r.after.records| == 0 {
      SumsSkip(report.summary, earlier, r, host);
      EntriesSkip(earlier, report.resources, r, host, digest);
      return Ok(report);
    }
    AddedIsReported(report, r, diff.value, host, digest, earlier);
    return Ok(Report(AddDiff(report.summary, diff.value), report.resources + [diff.value]));
  }

  lemma AddedIsReported(report: Report, r: Resource, diff: ResourceDiff, host: Host, digest: HashDiff.Digest, earlier: seq<Resource>)
    requires Reports(report, earlier, host, digest) && HashDiff.Injective(digest) && Sound(r, host) && Counted(r)
    requires IsDiff(diff, r.before.records, r.after.records, r.mode, r.spec, host, digest)
    ensures Reports(Report(AddDiff(report.summary, diff), report.resources + [diff]), earlier + [r], host, digest)
  {
    SumsAdd(report.summary, earlier, r, diff, host, digest);
    EntriesAdd(earlier, report.resources, r, diff, host, digest);
    TotalsAdd(report.summary, report.resources, diff);
  }

  /** The loop of CompareContext over the selected resources. */
  method CompareAll(resources: seq<Resource>, host: Host, digest: HashDiff.Digest) returns (result: Result<Report>)
    requires HashDiff.Injective(digest)
    ensures result.Ok? <==> forall i :: 0 <= i < |resources| ==> Sound(resources[i], host)
    ensures result.Ok? ==> Reports(result.value, resources, host, digest)
    ensures result == Err(ScopeMismatch) ==> exists r :: r in resources && r.before.NotSelected? != r.after.NotSelected?
    ensures result.Ok? ==> forall r :: r in resources ==> r.before.NotSelected? == r.after.NotSelected?
  {
    var report := Report(Summary(0, 0, 0, 0, 0), []);
    for i := 0 to |resources|
      invariant forall k :: 0 <= k < i ==> Sound(resources[k], host)
      invariant forall k :: 0 <= k < i ==> resources[k].before.NotSelected? == resources[k].after.NotSelected?
      invariant Reports(report, resources[..i], host, digest)
    {
      assert resources[..i + 1] == resources[..i] + [resources[i]];
      var next := AddResource(report, resources[i], host, digest, resources[..i]);
      if next.Err? {
        return next;
      }
      report := next.value;
    }
    assert resources[..|resources|] == resources;
    return Ok(report);
  }

  lemma AllButLast(all: set<int>, some: set<int>, n: int)
    requires n !in some
    requires forall i :: i in some <==> (i in all && i != n)
    ensures |all| == |some| + if n in all then 1 else 0
  {
    var last := if n in all then {n} else {};
    forall i ensures i in all <==> i in some + last {
      assert i in some <==> (i in all && i != n);
    }
    assert all == some + last;
  }

  /** What the report counts, resource by resource: those compared are the ones both
      dumps hold with a record in either, and those shown are these and the ones a dump
      failed to collect. */
  lemma {:induction false} SummaryCounts(resources: seq<Resource>, host: Host)
    ensures DriftedIn(resources, host) == |set i | 0 <= i < |resources| && Drifted(resources[i], host)|
    ensures CountedIn(resources)
         == |set i | 0 <= i < |resources| && resources[i].before.Succeeded? && resources[i].after.Succeeded?
                 && (resources[i].before.records != [] || resources[i].after.records != [])|
  {
    if resources != [] {
      var n := |resources| - 1;
      var front := resources[..n];
      SummaryCounts(front, host);
      var all := set i | 0 <= i < |resources| && resources[i].before.Succeeded? && resources[i].after.Succeeded?
                   && (resources[i].before.records != [] || resources[i].after.records != []);
      var some := set i | 0 <= i < |front| && front[i].before.Succeeded? && front[i].after.Succeeded?
                   && (front[i].before.records != [] || front[i].after.records != []);
      AllButLast(all, some, n);
      var allDrifted := set i | 0 <= i < |resources| && Drifted(resources[i], host);
      var someDrifted := set i | 0 <= i < |front| && Drifted(front[i], host);
      AllButLast(allDrifted, someDrifted, n);
    }
  }

  /** The entry of a resource: that of the comparison, or a placeholder where a dump has
      failed to collect it. */
  lemma {:induction false} EntryOf(resources: seq<Resource>, entries: seq<ResourceDiff>, i: nat, host: Host, digest: HashDiff.Digest)
    returns (k: nat)
    requires Entries(resources, entries, host, digest) && i < |resources|
    requires !resources[i].before.NotSelected? && !resources[i].after.NotSelected?
    requires
      || resources[i].before.Failed? || resources[i].after.Failed?
      || resources[i].before.records != [] || resources[i].after.records != []
    ensures k < |entries|
    ensures resources[i].before.Failed? || resources[i].after.Failed? ==> entries[k] == Skipped
    ensures resources[i].before.Succeeded? && resources[i].after.Succeeded? ==>
      ShownAs(resources[i], entries[k], host, digest) && !entries[k].Skipped?
  {
    var n := |resources| - 1;
    var front := if Shown(resources[n]) then entries[..|entries| - 1] else entries;
    if i == n {
      k := |entries| - 1;
    } else {
      k := EntryOf(resources[..n], front, i, host, digest);
      assert front[k] == entries[k];
    }
  }

  lemma {:induction false} EntryCount(resources: seq<Resource>, entries: seq<ResourceDiff>, host: Host, digest: HashDiff.Digest)
    requires Entries(resources, entries, host, digest)
    requires forall i :: 0 <= i < |resources| ==> resources[i].before.NotSelected? == resources[i].after.NotSelected?
    ensures |entries|
         == |set i | 0 <= i < |resources| && !resources[i].before.NotSelected?
                 && (resources[i].before.Succeeded? && resources[i].after.Succeeded? ==>
                       resources[i].before.records != [] || resources[i].after.records != [])|
  {
    if resources != [] {
      var n := |resources| - 1;
      var front := resources[..n];
      EntryCount(front, if Shown(resources[n]) then entries[..|entries| - 1] else entries, host, digest);
      var all := set i | 0 <= i < |resources| && !resources[i].before.NotSelected?
                   && (resources[i].before.Succeeded? && resources[i].after.Succeeded? ==>
                         resources[i].before.records != [] || resources[i].after.records != []);
      var some := set i | 0 <= i < |front| && !front[i].before.NotSelected?
                   && (front[i].before.Succeeded? && front[i].after.Succeeded? ==>
                         front[i].before.records != [] || front[i].after.records != []);
      AllButLast(all, some, n);
    }
  }

  lemma {:induction false} SomeDriftedIff(resources: seq<Resource>, host: Host)
    ensures DriftedIn(resources, host) > 0 <==>
      exists i :: 0 <= i < |resources| && Drifted(resources[i], host)
  {
    if resources != [] {
      var front, last := resources[..|resources| - 1], resources[|resources| - 1];
      SomeDriftedIff(front, host);
      assert forall i :: 0 <= i < |front| ==> front[i] == resources[i];
    }
  }

  /** The report shows drift exactly when some compared resource holds different data. */
  lemma ReportDriftExact(report: Report, resources: seq<Resource>, host: Host)
    requires Sums(report.summary, resources, host)
    ensures report.HasDrift() <==> exists i :: 0 <= i < |resources| && Drifted(resources[i], host)
  {
    SomeDriftedIff(resources, host);
  }
}
