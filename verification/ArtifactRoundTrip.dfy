// The round trip of internal/dump: the strict validator accepts what the writer
// produced exactly when the input is well-formed, and returns what was written.
module ArtifactRoundTrip {
  import opened Options
  import opened Artifact
  import opened ArtifactValidator
  import opened ArtifactWriter

  // ---------------------------------------- what the validator makes of it

  /** The parts of the input the writer leaves unchecked but the validator does not. */
  predicate HeaderFit(input: Input, host: Host) {
    host.isTime(input.collectedAt) && !Blank(input.toolVersion) && IsMode(EffectiveMode(input.mode))
  }

  predicate ErrorFit(e: ResourceError, host: Host) {
    && SafeSegment(e.product, host) && SafeSegment(e.name, host)
    && e.operation in {"list", "show"} && !Blank(e.kind)
  }

  function AllKeys(input: Input): seq<Key> {
    seq(|input.entries|, i requires 0 <= i < |input.entries| => input.entries[i].Id())
    + seq(|input.errors|, i requires 0 <= i < |input.errors| => input.errors[i].Id())
  }

  predicate ShapesFit(es: seq<Entry>) {
    forall e :: e in es ==> ManifestShape(e.shape) in {"", "singleton"}
  }

  predicate ErrorsFit(es: seq<ResourceError>, host: Host) {
    forall e :: e in es ==> ErrorFit(e, host)
  }

  predicate SchemasFit(es: seq<ResourceError>) {
    forall e :: e in es ==> e.schema == ERROR_SCHEMA
  }

  predicate PayloadSizesFit(input: Input, host: Host) {
    forall e :: e in input.entries ==> EntryFile(e, host).size <= MAX_RESOURCE_BYTES
  }

  predicate ManifestSizeFits(input: Input, host: Host) {
    host.encodedSize(ManifestBody(OutputManifest(input))) <= MAX_MANIFEST_BYTES
  }

  predicate ReportSizeFits(input: Input, host: Host) {
    host.encodedSize(ReportBody(OutputReport(input))) <= MAX_REPORT_BYTES
  }

  predicate ErrorsSizeFits(input: Input, host: Host) {
    input.errors != [] ==> host.encodedSize(ErrorsBody(input.errors)) <= MAX_ERRORS_BYTES
  }

  /** What makes a finished write acceptable: a readable header, supported shapes,
      list or show errors of the current schema, no key twice, and files within the
      sizes the validator reads. */
  predicate WellFormed(input: Input, host: Host) {
    && HeaderFit(input, host)
    && ShapesFit(input.entries)
    && ErrorsFit(input.errors, host) && SchemasFit(input.errors)
    && Distinct(AllKeys(input))
    && ManifestSizeFits(input, host) && ReportSizeFits(input, host)
    && ErrorsSizeFits(input, host) && PayloadSizesFit(input, host)
  }

  function OutputRows(input: Input): seq<ManifestResource> {
    EntryRows(input.entries) + ErrorRows(input.errors)
  }

  lemma RowKeys(input: Input)
    ensures ManifestKeys(OutputRows(input)) == AllKeys(input)
  {
  }

  lemma {:induction false} LowerCaseFixed(s: string)
    requires forall i :: 0 <= i < |s| ==> !('A' <= s[i] <= 'Z')
    ensures ToLower(s) == s
  {
    if s != "" {
      LowerCaseFixed(s[1..]);
      assert s == [s[0]] + s[1..];
    }
  }

  lemma TrimFixed(s: string)
    requires s != "" && !IsSpace(s[0]) && !IsSpace(s[|s| - 1])
    ensures TrimSpace(s) == s
  {
  }

  lemma CanonicalMode(mode: string)
    requires mode != "" && forall i :: 0 <= i < |mode| ==> 'a' <= mode[i] <= 'z'
    ensures ToLower(TrimSpace(mode)) == mode
  {
    TrimFixed(mode);
    LowerCaseFixed(mode);
  }

  /** A mode reads back as itself exactly when it is one of the three canonical names. */
  lemma ParseModeExact(mode: string)
    ensures ParseMode(mode) == Some(mode) <==> IsMode(mode)
  {
    if mode == "standard" {
      CanonicalMode(mode);
    } else if mode == "share" {
      CanonicalMode(mode);
    } else if mode == "paranoid" {
      CanonicalMode(mode);
    }
  }

  lemma {:induction false} StatusOfConcat(a: seq<ManifestResource>, b: seq<ManifestResource>, status: string)
    ensures WithStatus(a + b, status) == WithStatus(a, status) + WithStatus(b, status)
    decreases |b|
  {
    if b == [] {
      assert a + b == a;
    } else {
      var front := b[..|b| - 1];
      StatusOfConcat(a, front, status);
      assert (a + b)[..|a + b| - 1] == a + front;
    }
  }

  lemma {:induction false} StatusNone(rs: seq<ManifestResource>, status: string)
    requires forall r :: r in rs ==> r.status != status
    ensures WithStatus(rs, status) == map[]
  {
    if rs != [] {
      StatusNone(rs[..|rs| - 1], status);
    }
  }

  lemma StatusSnoc(front: seq<ManifestResource>, last: ManifestResource, status: string)
    requires last.status == status
    ensures WithStatus(front + [last], status) == WithStatus(front, status)[last.Id() := last]
  {
    assert (front + [last])[..|front|] == front;
  }

  lemma {:induction false} StatusKeys(rs: seq<ManifestResource>, status: string, key: Key)
    ensures key in WithStatus(rs, status) ==> key in ManifestKeys(rs)
  {
    if rs != [] {
      var front, last := rs[..|rs| - 1], rs[|rs| - 1];
      StatusKeys(front, status, key);
      assert ManifestKeys(rs) == ManifestKeys(front) + [last.Id()];
    }
  }

  /** Rows of one status with distinct keys: each is found under its key. */
  lemma {:induction false} StatusAll(rs: seq<ManifestResource>, status: string)
    requires forall r :: r in rs ==> r.status == status
    requires Distinct(ManifestKeys(rs))
    ensures |WithStatus(rs, status)| == |rs|
    ensures forall r :: r in rs ==> r.Id() in WithStatus(rs, status) && WithStatus(rs, status)[r.Id()] == r
  {
    if rs != [] {
      var front, last := rs[..|rs| - 1], rs[|rs| - 1];
      assert rs == front + [last];
      assert ManifestKeys(rs) == ManifestKeys(front) + [last.Id()];
      DistinctSnoc(ManifestKeys(front), last.Id());
      StatusAll(front, status);
      StatusSnoc(front, last, status);
      StatusKeys(front, status, last.Id());
      forall r | r in front ensures r.Id() != last.Id() {
        var i :| 0 <= i < |front| && front[i] == r;
        assert ManifestKeys(front)[i] == r.Id();
      }
    }
  }

  lemma DistinctPrefix(a: seq<Key>, b: seq<Key>)
    requires Distinct(a + b)
    ensures Distinct(a) && Distinct(b)
  {
    forall i, j | 0 <= i < j < |a| ensures a[i] != a[j] {
      assert (a + b)[i] != (a + b)[j];
    }
    forall i, j | 0 <= i < j < |b| ensures b[i] != b[j] {
      assert (a + b)[|a| + i] != (a + b)[|a| + j];
    }
  }

  lemma OutputStatus(input: Input)
    requires Distinct(AllKeys(input))
    ensures WithStatus(OutputRows(input), "ok") == WithStatus(EntryRows(input.entries), "ok")
    ensures WithStatus(OutputRows(input), "error") == WithStatus(ErrorRows(input.errors), "error")
    ensures Distinct(ManifestKeys(EntryRows(input.entries))) && Distinct(ManifestKeys(ErrorRows(input.errors)))
  {
    var a, b := EntryRows(input.entries), ErrorRows(input.errors);
    assert ManifestKeys(a) + ManifestKeys(b) == AllKeys(input);
    DistinctPrefix(ManifestKeys(a), ManifestKeys(b));
    StatusOfConcat(a, b, "ok");
    StatusOfConcat(a, b, "error");
    StatusNone(b, "ok");
    StatusNone(a, "error");
  }

  lemma OutputOkCount(input: Input)
    requires Distinct(AllKeys(input))
    ensures |WithStatus(OutputRows(input), "ok")| == |input.entries|
    ensures forall e :: e in input.entries ==>
      e.Id() in WithStatus(OutputRows(input), "ok") && WithStatus(OutputRows(input), "ok")[e.Id()] == EntryRow(e)
  {
    OutputStatus(input);
    var a := EntryRows(input.entries);
    StatusAll(a, "ok");
    forall e | e in input.entries ensures EntryRow(e) in a {
      var i :| 0 <= i < |input.entries| && input.entries[i] == e;
      assert a[i] == EntryRow(e);
    }
  }

  lemma OutputErrorCount(input: Input)
    requires Distinct(AllKeys(input))
    ensures |WithStatus(OutputRows(input), "error")| == |input.errors|
    ensures forall e :: e in input.errors ==>
      e.Id() in WithStatus(OutputRows(input), "error") && WithStatus(OutputRows(input), "error")[e.Id()] == ErrorRow(e)
  {
    OutputStatus(input);
    var b := ErrorRows(input.errors);
    StatusAll(b, "error");
    forall e | e in input.errors ensures ErrorRow(e) in b {
      var i :| 0 <= i < |input.errors| && input.errors[i] == e;
      assert b[i] == ErrorRow(e);
    }
  }

  predicate RowsPass(rs: seq<ManifestResource>, host: Host) {
    forall i :: 0 <= i < |rs| ==> ResourceOk(rs[i], host)
  }

  lemma EntryRowsPass(es: seq<Entry>, host: Host)
    requires SafeEntries(es, host)
    ensures RowsPass(EntryRows(es), host) <==> ShapesFit(es)
  {
    forall i | 0 <= i < |es|
      ensures ResourceOk(EntryRows(es)[i], host) <==> ManifestShape(es[i].shape) in {"", "singleton"}
    {
      assert es[i] in es;
    }
    if RowsPass(EntryRows(es), host) {
      forall e | e in es ensures ManifestShape(e.shape) in {"", "singleton"} {
        var i :| 0 <= i < |es| && es[i] == e;
      }
    }
  }

  lemma ErrorRowsPass(es: seq<ResourceError>, host: Host)
    ensures RowsPass(ErrorRows(es), host) <==> ErrorsFit(es, host)
  {
    forall i | 0 <= i < |es| ensures ResourceOk(ErrorRows(es)[i], host) <==> ErrorFit(es[i], host) {
    }
    if RowsPass(ErrorRows(es), host) {
      forall e | e in es ensures ErrorFit(e, host) {
        var i :| 0 <= i < |es| && es[i] == e;
      }
    }
    if ErrorsFit(es, host) {
      forall i | 0 <= i < |es| ensures ResourceOk(ErrorRows(es)[i], host) {
        assert es[i] in es;
      }
    }
  }

  lemma RowsPassConcat(a: seq<ManifestResource>, b: seq<ManifestResource>, host: Host)
    ensures RowsPass(a + b, host) <==> RowsPass(a, host) && RowsPass(b, host)
  {
    if RowsPass(a + b, host) {
      forall i | 0 <= i < |a| ensures ResourceOk(a[i], host) {
        assert (a + b)[i] == a[i];
      }
      forall i | 0 <= i < |b| ensures ResourceOk(b[i], host) {
        assert (a + b)[|a| + i] == b[i];
      }
    }
  }

  /** Resource rows pass exactly when shapes and error rows are fit. */
  lemma RowsFit(input: Input, host: Host)
    requires SafeEntries(input.entries, host)
    ensures RowsPass(OutputRows(input), host) <==> ShapesFit(input.entries) && ErrorsFit(input.errors, host)
  {
    EntryRowsPass(input.entries, host);
    ErrorRowsPass(input.errors, host);
    RowsPassConcat(EntryRows(input.entries), ErrorRows(input.errors), host);
  }

  predicate ManifestFit(input: Input, host: Host) {
    && host.isTime(input.collectedAt) && !Blank(input.toolVersion) && ParseMode(EffectiveMode(input.mode)).Some?
    && ShapesFit(input.entries) && ErrorsFit(input.errors, host)
    && Distinct(AllKeys(input))
  }

  lemma ManifestAccepted(input: Input, host: Host)
    requires SafeEntries(input.entries, host)
    ensures ManifestOk(OutputManifest(input), host) <==> ManifestFit(input, host)
  {
    RowsFit(input, host);
    RowKeys(input);
    assert WARNING[|WARNING| - 1] == 'a';
    if Distinct(AllKeys(input)) {
      OutputErrorCount(input);
    }
  }

  lemma OutputFiles(input: Input, host: Host)
    requires HostOk(host) && Writable(input, host)
    ensures var out := Output(input, host);
      && out.files.Keys == ResourceTree(input.entries, host).files.Keys
                           + {MANIFEST_PATH, REPORT_PATH} + (if input.errors == [] then {} else {ERRORS_PATH})
      && out.dirs == ResourceTree(input.entries, host).dirs
      && out.files[MANIFEST_PATH] == Encoded(ManifestBody(OutputManifest(input)), host)
      && out.files[REPORT_PATH] == Encoded(ReportBody(OutputReport(input)), host)
      && (input.errors != [] ==> out.files[ERRORS_PATH] == Encoded(ErrorsBody(input.errors), host))
      && forall e :: e in input.entries ==> PathOf(e) in out.files && out.files[PathOf(e)] == EntryFile(e, host)
  {
    TopLevelUnused(input.entries, host);
    EntryFilesKept(input.entries, host);
  }

  lemma EntriesReported(input: Input)
    requires Distinct(AllKeys(input))
    ensures Distinct(ReportKeys(EntryReports(input.entries)))
    ensures forall i :: 0 <= i < |input.entries| ==> EntryOk(EntryReports(input.entries)[i], WithStatus(OutputRows(input), "ok"))
  {
    OutputStatus(input);
    OutputOkCount(input);
    assert ReportKeys(EntryReports(input.entries)) == ManifestKeys(EntryRows(input.entries));
    forall i | 0 <= i < |input.entries|
      ensures EntryOk(EntryReports(input.entries)[i], WithStatus(OutputRows(input), "ok"))
    {
      assert input.entries[i] in input.entries;
    }
  }

  lemma OutputReportOk(input: Input)
    requires Distinct(AllKeys(input))
    ensures ReportOk(OutputReport(input), EffectiveMode(input.mode), WithStatus(OutputRows(input), "ok"))
  {
    OutputOkCount(input);
    EntriesReported(input);
  }

  lemma ReportAccepted(input: Input, host: Host)
    requires HostOk(host) && Writable(input, host) && Distinct(AllKeys(input))
    requires ParseMode(EffectiveMode(input.mode)).Some?
    ensures ReportFileOk(Output(input, host), ParseMode(EffectiveMode(input.mode)).value, WithStatus(OutputRows(input), "ok"))
       <==> ReportSizeFits(input, host) && IsMode(EffectiveMode(input.mode))
  {
    OutputFiles(input, host);
    OutputReportOk(input);
    ParseModeExact(EffectiveMode(input.mode));
  }

  lemma PayloadCounts(payload: Payload)
    ensures PayloadCount(payload.Encoded()) == Some(payload.Count())
  {
  }

  lemma EntryRowListed(input: Input, e: Entry)
    requires e in input.entries
    ensures EntryRow(e) in OutputRows(input)
  {
    var i :| 0 <= i < |input.entries| && input.entries[i] == e;
    assert OutputRows(input)[i] == EntryRow(e);
  }

  lemma OkRowIsEntry(input: Input, r: ManifestResource) returns (e: Entry)
    requires r in OutputRows(input) && r.status == "ok"
    ensures e in input.entries && r == EntryRow(e)
  {
    var i :| 0 <= i < |OutputRows(input)| && OutputRows(input)[i] == r;
    assert i >= |input.entries| ==> r == ErrorRow(input.errors[i - |input.entries|]);
    e := input.entries[i];
  }

  lemma EntryPayload(input: Input, e: Entry, host: Host)
    requires HostOk(host) && Writable(input, host) && e in input.entries
    ensures PayloadOk(Output(input, host), EntryRow(e)) <==> EntryFile(e, host).size <= MAX_RESOURCE_BYTES
  {
    OutputFiles(input, host);
    PayloadCounts(e.payload);
  }

  lemma PayloadsAccepted(input: Input, host: Host)
    requires HostOk(host) && Writable(input, host)
    ensures PayloadsOk(Output(input, host), OutputRows(input)) <==> PayloadSizesFit(input, host)
  {
    var rows, out := OutputRows(input), Output(input, host);
    if PayloadsOk(out, rows) {
      forall e | e in input.entries ensures EntryFile(e, host).size <= MAX_RESOURCE_BYTES {
        EntryRowListed(input, e);
        EntryPayload(input, e, host);
      }
    }
    if PayloadSizesFit(input, host) {
      forall i | 0 <= i < |rows| && rows[i].status == "ok" ensures PayloadOk(out, rows[i]) {
        var e := OkRowIsEntry(input, rows[i]);
        EntryPayload(input, e, host);
      }
    }
  }

  lemma RowsAccepted(input: Input)
    requires Distinct(AllKeys(input))
    ensures RowsOk(input.errors, OutputManifest(input), WithStatus(OutputRows(input), "error")) <==> SchemasFit(input.errors)
  {
    OutputStatus(input);
    OutputErrorCount(input);
    var failed := WithStatus(OutputRows(input), "error");
    assert ErrorKeys(input.errors) == ManifestKeys(ErrorRows(input.errors));
    forall i | 0 <= i < |input.errors|
      ensures RowOk(input.errors[i], failed) <==> input.errors[i].schema == ERROR_SCHEMA
    {
      assert input.errors[i] in input.errors;
    }
    if RowsOk(input.errors, OutputManifest(input), failed) {
      forall e | e in input.errors ensures e.schema == ERROR_SCHEMA {
        var i :| 0 <= i < |input.errors| && input.errors[i] == e;
        assert RowOk(input.errors[i], failed);
      }
    }
  }

  lemma OutputErrorsFile(input: Input, host: Host)
    requires HostOk(host) && Writable(input, host)
    ensures input.errors == [] ==> ERRORS_PATH !in Output(input, host).files
    ensures input.errors != [] ==>
      ERRORS_PATH in Output(input, host).files
      && Output(input, host).files[ERRORS_PATH] == Encoded(ErrorsBody(input.errors), host)
  {
    TopLevelUnused(input.entries, host);
  }

  lemma ErrorsAccepted(input: Input, host: Host)
    requires HostOk(host) && Writable(input, host) && Distinct(AllKeys(input))
    ensures ErrorsOk(Output(input, host), OutputManifest(input)) <==> ErrorsSizeFits(input, host) && SchemasFit(input.errors)
  {
    OutputErrorsFile(input, host);
    ErrorsNoDirectory(input, host);
    if input.errors != [] {
      RowsAccepted(input);
    }
  }

  lemma RowDirs(input: Input, host: Host, d: string)
    requires HostOk(host) && SafeEntries(input.entries, host)
    ensures d in ResourceDirs(OutputRows(input)) <==> exists e :: e in input.entries && d in EntryDirs(e)
  {
    var rows := OutputRows(input);
    if d in ResourceDirs(rows) {
      var r :| r in rows && r.status == "ok" && d in Ancestors(r.path);
      var e := OkRowIsEntry(input, r);
      ResourceAncestors(e.product, e.name, host);
      assert d in EntryDirs(e);
    }
    if e :| e in input.entries && d in EntryDirs(e) {
      EntryRowListed(input, e);
      ResourceAncestors(e.product, e.name, host);
      assert d in Ancestors(EntryRow(e).path);
    }
  }

  lemma RowFiles(input: Input, f: string)
    ensures f in ResourceFiles(OutputRows(input)) <==> exists e :: e in input.entries && f == PathOf(e)
  {
    var rows := OutputRows(input);
    if f in ResourceFiles(rows) {
      var r :| r in rows && r.status == "ok" && r.path == f;
      var e := OkRowIsEntry(input, r);
      assert f == PathOf(e);
    }
    if e :| e in input.entries && f == PathOf(e) {
      EntryRowListed(input, e);
      assert EntryRow(e).path == f;
    }
  }

  lemma OutputDirsAre(input: Input, host: Host)
    ensures Output(input, host).dirs == set e, d | e in input.entries && d in EntryDirs(e) :: d
  {
    ResourceTreeFiles(input.entries, host);
  }

  lemma ErrorsNoDirectory(input: Input, host: Host)
    requires HostOk(host) && Writable(input, host)
    ensures ERRORS_PATH !in Output(input, host).dirs
  {
    OutputDirsAre(input, host);
    TopLevelNames();
    forall e | e in input.entries ensures ERRORS_PATH !in EntryDirs(e) {
      FolderHasNoDot(e.product, host);
    }
  }

  /** The directories written are those the manifest calls for. */
  lemma OutputDirs(input: Input, host: Host)
    requires HostOk(host) && Writable(input, host)
    ensures Output(input, host).dirs == ResourceDirs(OutputRows(input))
  {
    OutputDirsAre(input, host);
    forall d ensures d in Output(input, host).dirs <==> d in ResourceDirs(OutputRows(input)) {
      RowDirs(input, host, d);
    }
  }

  lemma OutputResourceFiles(input: Input, host: Host)
    ensures ResourceFiles(OutputRows(input)) == ResourceTree(input.entries, host).files.Keys
  {
    ResourceTreeFiles(input.entries, host);
    forall f ensures f in ResourceFiles(OutputRows(input)) <==> f in ResourceTree(input.entries, host).files {
      RowFiles(input, f);
    }
  }

  lemma OutputKeys(input: Input, host: Host)
    ensures Output(input, host).files.Keys
         == ResourceTree(input.entries, host).files.Keys + {MANIFEST_PATH, REPORT_PATH}
            + if input.errors == [] then {} else {ERRORS_PATH}
  {
  }

  lemma InventoryAccepted(input: Input, host: Host)
    requires HostOk(host) && Writable(input, host)
    ensures InventoryOk(Output(input, host), OutputManifest(input))
  {
    OutputKeys(input, host);
    OutputDirs(input, host);
    OutputResourceFiles(input, host);
    TopLevelNames();
    assert ExpectedDirs(OutputManifest(input)) == ResourceDirs(OutputRows(input));
  }

  lemma ModeFit(input: Input, host: Host)
    ensures HeaderFit(input, host) && ShapesFit(input.entries) && ErrorsFit(input.errors, host) && Distinct(AllKeys(input))
       <==> ManifestFit(input, host) && IsMode(EffectiveMode(input.mode))
  {
    ParseModeExact(EffectiveMode(input.mode));
  }

  lemma ManifestFileAccepted(input: Input, host: Host)
    requires HostOk(host) && Writable(input, host)
    ensures HasManifest(Output(input, host)) <==> ManifestSizeFits(input, host)
    ensures HasManifest(Output(input, host)) ==> ManifestOf(Output(input, host)) == OutputManifest(input)
  {
    OutputFiles(input, host);
  }

  lemma ContentsAccepted(input: Input, host: Host)
    requires HostOk(host) && Writable(input, host) && ManifestOk(OutputManifest(input), host)
    ensures ContentsOk(Output(input, host), OutputManifest(input), host) <==>
      && ReportSizeFits(input, host) && IsMode(EffectiveMode(input.mode))
      && PayloadSizesFit(input, host)
      && ErrorsSizeFits(input, host) && SchemasFit(input.errors)
  {
    ManifestAccepted(input, host);
    ReportAccepted(input, host);
    PayloadsAccepted(input, host);
    ErrorsAccepted(input, host);
  }

  lemma ReadBackEntries(input: Input)
    requires Distinct(AllKeys(input))
    ensures WithStatus(OutputRows(input), "ok").Keys == set e | e in input.entries :: e.Id()
  {
    OutputStatus(input);
    OutputOkCount(input);
    forall key | key in WithStatus(OutputRows(input), "ok") ensures exists e :: e in input.entries && e.Id() == key {
      StatusKeys(EntryRows(input.entries), "ok", key);
    }
  }

  lemma ReadBackErrors(input: Input)
    requires Distinct(AllKeys(input))
    ensures WithStatus(OutputRows(input), "error").Keys == set e | e in input.errors :: e.Id()
  {
    OutputStatus(input);
    OutputErrorCount(input);
    forall key | key in WithStatus(OutputRows(input), "error") ensures exists e :: e in input.errors && e.Id() == key {
      StatusKeys(ErrorRows(input.errors), "error", key);
    }
  }

  /** The successes and failures the validator reads back are those that were written. */
  lemma ReadBackSets(input: Input)
    requires Distinct(AllKeys(input))
    ensures WithStatus(OutputRows(input), "ok").Keys == set e | e in input.entries :: e.Id()
    ensures WithStatus(OutputRows(input), "error").Keys == set e | e in input.errors :: e.Id()
    ensures |WithStatus(OutputRows(input), "ok")| == |input.entries|
    ensures |WithStatus(OutputRows(input), "error")| == |input.errors|
  {
    OutputOkCount(input);
    OutputErrorCount(input);
    ReadBackEntries(input);
    ReadBackErrors(input);
  }

  lemma AcceptedIffWellFormed(input: Input, host: Host)
    requires HostOk(host) && Writable(input, host)
    ensures Accepts(Output(input, host), host) <==> WellFormed(input, host)
    ensures Accepts(Output(input, host), host) ==>
      OutputManifest(input).resources == Some(OutputRows(input)) && Distinct(AllKeys(input))
      && Entries(Output(input, host)) == ExpectedFiles(OutputManifest(input)) + ExpectedDirs(OutputManifest(input))
  {
    ManifestFileAccepted(input, host);
    ManifestAccepted(input, host);
    InventoryAccepted(input, host);
    ModeFit(input, host);
    if ManifestOk(OutputManifest(input), host) {
      ContentsAccepted(input, host);
    }
  }

  /** Writing then validating round-trips: a finished write is accepted exactly when
      the input is well-formed, and the validator reads back what was written: the
      records of every entry among it, one by one. */
  lemma RoundTrip(input: Input, host: Host)
    requires HostOk(host) && Writable(input, host)
    ensures Accepts(Output(input, host), host) <==> WellFormed(input, host)
    ensures Written(Output(input, host), input)
    ensures Accepts(Output(input, host), host) ==>
      && ManifestOf(Output(input, host)) == OutputManifest(input)
      && Output(input, host).files[REPORT_PATH].body == ReportBody(OutputReport(input))
      && (if input.errors == [] then ERRORS_PATH !in Output(input, host).files
          else Output(input, host).files[ERRORS_PATH].body == ErrorsBody(input.errors))
      && OutputManifest(input).resources == Some(OutputRows(input)) && Distinct(AllKeys(input))
      && Entries(Output(input, host)) == ExpectedFiles(OutputManifest(input)) + ExpectedDirs(OutputManifest(input))
  {
    OutputWritten(input, host);
    OutputFiles(input, host);
    AcceptedIffWellFormed(input, host);
  }

  // ------------------------------------------------------ two concrete writes

  const EXAMPLE_HOST := Host(c => c != '/' && c != '.', _ => true, _ => 0)

  /** Nothing collected and nothing failed. */
  const EMPTY_INPUT := Input([], [], "standard", "2026-01-01T00:00:00Z", "v1")

  /** The same resource collected and reported as failed. */
  const CLASHING_INPUT := EMPTY_INPUT.(
    entries := [Entry("zia", "locations", "list", Records([]))],
    errors := [ResourceError(ERROR_SCHEMA, "zia", "locations", "list", "live_access_failed", "")])

  lemma EmptyInputAccepted()
    ensures Writable(EMPTY_INPUT, EXAMPLE_HOST) && Accepts(Output(EMPTY_INPUT, EXAMPLE_HOST), EXAMPLE_HOST)
  {
    assert AllKeys(EMPTY_INPUT) == [];
    assert !Blank("v1") by {
      assert "v1"[0] == 'v';
    }
    RoundTrip(EMPTY_INPUT, EXAMPLE_HOST);
  }

  /** The writer writes it, and the validator then refuses what was written. */
  lemma SharedKeyRefused()
    ensures Writable(CLASHING_INPUT, EXAMPLE_HOST) && !Accepts(Output(CLASHING_INPUT, EXAMPLE_HOST), EXAMPLE_HOST)
  {
    var keys := AllKeys(CLASHING_INPUT);
    assert |keys| == 2 && keys[0] == Key("zia", "locations") == keys[1];
    RoundTrip(CLASHING_INPUT, EXAMPLE_HOST);
  }

  // -------------------------------------- the output is a walkable tree

  lemma OutputFileHomes(input: Input, host: Host, f: string)
    requires HostOk(host) && Writable(input, host) && f in Output(input, host).files
    ensures HasDot(f) && |f| > 1 && (Dir(f) == "." || Dir(f) in Output(input, host).dirs)
  {
    OutputKeys(input, host);
    OutputDirsAre(input, host);
    ResourceTreeFiles(input.entries, host);
    TopLevelNames();
    if f in ResourceTree(input.entries, host).files {
      var e :| e in input.entries && f == PathOf(e);
      ResourceAncestors(e.product, e.name, host);
      ResourcePathHasDot(e.product, e.name);
      assert Dir(f) in EntryDirs(e);
    }
  }

  lemma OutputDirHomes(input: Input, host: Host, d: string)
    requires HostOk(host) && Writable(input, host) && d in Output(input, host).dirs
    ensures !HasDot(d) && |d| > 1 && (Dir(d) == "." || Dir(d) in Output(input, host).dirs)
  {
    OutputDirsAre(input, host);
    var e :| e in input.entries && d in EntryDirs(e);
    ResourceAncestors(e.product, e.name, host);
    FolderHasNoDot(e.product, host);
    if d != "resources" {
      assert "resources" in EntryDirs(e);
    }
  }

  lemma OutputTreeOk(input: Input, host: Host)
    requires HostOk(host) && Writable(input, host)
    ensures TreeOk(Output(input, host))
  {
    var out := Output(input, host);
    forall f | f in out.files ensures HasDot(f) && |f| > 1 && (Dir(f) == "." || Dir(f) in out.dirs) {
      OutputFileHomes(input, host, f);
    }
    forall d | d in out.dirs ensures !HasDot(d) && |d| > 1 && (Dir(d) == "." || Dir(d) in out.dirs) {
      OutputDirHomes(input, host, d);
    }
  }
}
