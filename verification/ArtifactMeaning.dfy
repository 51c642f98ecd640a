// What an artifact accepted by the strict validator of internal/dump/artifact.go is,
// file by file and row by row: the manifest, a report and error rows that match it one
// to one, the declared files with the declared counts, and nothing else.
module ArtifactMeaning {
  import opened Options
  import opened JsonValues
  import opened Artifact
  import opened ArtifactValidator

  /** The rows with a status, by key, when no two rows share one. */
  lemma {:induction false} StatusExactly(rs: seq<ManifestResource>, status: string)
    requires Distinct(ManifestKeys(rs))
    ensures forall r :: r in rs && r.status == status ==>
      r.Id() in WithStatus(rs, status) && WithStatus(rs, status)[r.Id()] == r
    ensures forall key :: key in WithStatus(rs, status) ==>
      WithStatus(rs, status)[key] in rs && WithStatus(rs, status)[key].status == status && WithStatus(rs, status)[key].Id() == key
  {
    if rs != [] {
      var front, last := rs[..|rs| - 1], rs[|rs| - 1];
      assert ManifestKeys(rs) == ManifestKeys(front) + [last.Id()];
      DistinctSnoc(ManifestKeys(front), last.Id());
      StatusExactly(front, status);
      assert rs == front + [last];
      forall r | r in front ensures r.Id() != last.Id() {
        var i :| 0 <= i < |front| && front[i] == r;
        assert ManifestKeys(front)[i] == r.Id();
      }
    }
  }

  /** Distinct keys of a map, as many as it has, are all of them. */
  lemma AllKeysMet(keys: seq<Key>, m: map<Key, ManifestResource>)
    requires Distinct(keys) && (forall k :: k in keys ==> k in m) && |keys| == |m|
    ensures forall k :: k in m ==> k in keys
  {
    SeenCount(keys);
    var seen := set k | k in keys;
    assert seen <= m.Keys && |seen| == |m.Keys|;
    SubsetOfSameSize(seen, m.Keys);
    forall k | k in m ensures k in keys {
      assert k in m.Keys && k in seen;
    }
  }

  // ------------------------------------------------------------ the parts

  predicate Names(value: string, host: Host) {
    value != "" && forall i :: 0 <= i < |value| ==> host.isWord(value[i]) || value[i] in {'-', '_'}
  }

  /** Something is left of the text once white space is trimmed. */
  predicate Says(s: string) {
    exists i :: 0 <= i < |s| && !IsSpace(s[i])
  }

  /** A declared resource: collected, or failed. */
  predicate Declares(r: ManifestResource, host: Host) {
    && Names(r.product, host) && Names(r.name, host)
    && if r.status == "ok" then
         && r.shape in {"", "singleton"} && r.records >= 0 && r.operation == "" && r.errorKind == ""
         && r.path == "resources/" + r.product + "/" + r.name + ".json"
       else
         && r.status == "error" && r.shape == "" && r.records == 0 && r.path == ""
         && r.operation in {"list", "show"} && Says(r.errorKind)
  }

  /** What a manifest of an artifact is. */
  predicate Declared(m: Manifest, host: Host) {
    && m.schema == "zscalerctl.dump.manifest.v2" && host.isTime(m.collectedAt) && ParseMode(m.redaction).Some?
    && Says(m.toolVersion) && Says(m.warning) && m.resources.Some?
    && (forall r :: r in m.resources.value ==> Declares(r, host))
    && (forall i, j :: 0 <= i < j < |m.resources.value| ==>
          m.resources.value[i].product != m.resources.value[j].product || m.resources.value[i].name != m.resources.value[j].name)
    && (m.status == "complete" || m.status == "partial")
    && (m.status == "complete" ==>
          m.errors == 0 && m.errorsPath == "" && forall r :: r in m.resources.value ==> r.status == "ok")
    && (m.status == "partial" ==> m.errors > 0 && m.errorsPath == "errors.ndjson")
  }

  lemma RowDeclares(r: ManifestResource, host: Host)
    requires ResourceOk(r, host)
    ensures Declares(r, host)
  {
  }

  lemma HeaderDeclares(m: Manifest, host: Host)
    requires ManifestOk(m, host)
    ensures Declared(m, host)
  {
    var rs := m.resources.value;
    StatusExactly(rs, "error");
    forall r | r in rs ensures Declares(r, host) {
      var i :| 0 <= i < |rs| && rs[i] == r;
      RowDeclares(rs[i], host);
    }
    forall i, j | 0 <= i < j < |rs| ensures rs[i].Id() != rs[j].Id() {
      assert ManifestKeys(rs)[i] != ManifestKeys(rs)[j];
    }
  }

  /** The manifest declares what the rest of the artifact is held against. */
  lemma ManifestMeans(tree: Tree, host: Host)
    requires Accepts(tree, host)
    ensures "manifest.json" in tree.files && tree.files["manifest.json"].body.ManifestBody?
    ensures tree.files["manifest.json"].size <= 0x10_0000
    ensures Declared(tree.files["manifest.json"].body.manifest, host)
  {
    HeaderDeclares(ManifestOf(tree), host);
  }

  /** Each row repeats a collected resource, and each has a row. */
  ghost predicate ReportMatches(rows: seq<ResourceReport>, rs: seq<ManifestResource>) {
    && (forall i, j :: 0 <= i < j < |rows| ==> rows[i].Id() != rows[j].Id())
    && ReportRepeats(rows, rs) && ReportCovers(rows, rs)
  }

  ghost predicate ReportRepeats(rows: seq<ResourceReport>, rs: seq<ManifestResource>) {
    forall row :: row in rows ==> exists r :: (r in rs && r.status == "ok"
      && r.Id() == row.Id() && r.path == row.path && r.records == row.records)
  }

  predicate HasReportRow(rows: seq<ResourceReport>, key: Key) {
    exists row :: row in rows && row.Id() == key
  }

  ghost predicate ReportCovers(rows: seq<ResourceReport>, rs: seq<ManifestResource>) {
    forall r :: r in rs && r.status == "ok" ==> HasReportRow(rows, r.Id())
  }

  /** A map holds rows of a status, each under its key, and all of them. */
  ghost predicate HoldsStatus(m: map<Key, ManifestResource>, rs: seq<ManifestResource>, status: string) {
    && (forall key :: key in m ==> m[key] in rs && m[key].status == status && m[key].Id() == key)
    && (forall r :: r in rs && r.status == status ==> r.Id() in m)
  }

  lemma ReportRowKnown(row: ResourceReport, rs: seq<ManifestResource>, ok: map<Key, ManifestResource>)
    requires EntryOk(row, ok) && HoldsStatus(ok, rs, "ok")
    ensures exists r :: (r in rs && r.status == "ok" && r.Id() == row.Id() && r.path == row.path && r.records == row.records)
  {
    assert ok[row.Id()] in rs;
  }

  lemma ReportKeyAt(rows: seq<ResourceReport>, key: Key) returns (row: ResourceReport)
    requires key in ReportKeys(rows)
    ensures row in rows && row.Id() == key
  {
    var i :| 0 <= i < |rows| && ReportKeys(rows)[i] == key;
    row := rows[i];
  }

  lemma ReportKeysDiffer(rows: seq<ResourceReport>)
    requires Distinct(ReportKeys(rows))
    ensures forall i, j :: 0 <= i < j < |rows| ==> rows[i].Id() != rows[j].Id()
  {
    forall i, j | 0 <= i < j < |rows| ensures rows[i].Id() != rows[j].Id() {
      assert ReportKeys(rows)[i] != ReportKeys(rows)[j];
    }
  }

  lemma ReportRowsRepeat(rows: seq<ResourceReport>, rs: seq<ManifestResource>, ok: map<Key, ManifestResource>)
    requires forall i :: 0 <= i < |rows| ==> EntryOk(rows[i], ok)
    requires HoldsStatus(ok, rs, "ok")
    ensures ReportRepeats(rows, rs)
  {
    forall row | row in rows
      ensures exists r :: (r in rs && r.status == "ok" && r.Id() == row.Id() && r.path == row.path && r.records == row.records)
    {
      var i :| 0 <= i < |rows| && rows[i] == row;
      ReportRowKnown(row, rs, ok);
    }
  }

  lemma ReportRowsCover(rows: seq<ResourceReport>, rs: seq<ManifestResource>, ok: map<Key, ManifestResource>)
    requires Distinct(ReportKeys(rows)) && |rows| == |ok|
    requires forall i :: 0 <= i < |rows| ==> EntryOk(rows[i], ok)
    requires HoldsStatus(ok, rs, "ok")
    ensures ReportCovers(rows, rs)
  {
    forall k | k in ReportKeys(rows) ensures k in ok {
      ReportKeyKnown(rows, ok, k);
    }
    AllKeysMet(ReportKeys(rows), ok);
    forall r | r in rs && r.status == "ok" ensures HasReportRow(rows, r.Id()) {
      var row := ReportKeyAt(rows, r.Id());
    }
  }

  lemma ReportRowsMatch(rows: seq<ResourceReport>, rs: seq<ManifestResource>, ok: map<Key, ManifestResource>)
    requires Distinct(ReportKeys(rows)) && |rows| == |ok|
    requires forall i :: 0 <= i < |rows| ==> EntryOk(rows[i], ok)
    requires HoldsStatus(ok, rs, "ok")
    ensures ReportMatches(rows, rs)
  {
    ReportKeysDiffer(rows);
    ReportRowsRepeat(rows, rs, ok);
    ReportRowsCover(rows, rs, ok);
  }

  /** The redaction report has one row for each collected resource, and no other. */
  lemma ReportMeans(tree: Tree, host: Host)
    requires Accepts(tree, host)
    ensures "redaction_report.json" in tree.files && tree.files["redaction_report.json"].body.ReportBody?
    ensures tree.files["redaction_report.json"].size <= 0x400_0000
    ensures var m := ManifestOf(tree); var report := tree.files["redaction_report.json"].body.report;
      && report.schema == "zscalerctl.redaction_report.v1" && Some(report.redaction) == ParseMode(m.redaction)
      && report.resources.Some? && ReportMatches(report.resources.value, m.resources.value)
  {
    var m, report := ManifestOf(tree), tree.files[REPORT_PATH].body.report;
    var ok := WithStatus(m.resources.value, "ok");
    StatusExactly(m.resources.value, "ok");
    assert HoldsStatus(ok, m.resources.value, "ok");
    assert ReportOk(report, ParseMode(m.redaction).value, ok);
    ReportRowsMatch(report.resources.value, m.resources.value, ok);
  }

  /** The same for error rows and failed resources. */
  ghost predicate ErrorsMatch(rows: seq<ResourceError>, rs: seq<ManifestResource>) {
    && (forall i, j :: 0 <= i < j < |rows| ==> rows[i].Id() != rows[j].Id())
    && (forall row :: row in rows ==> row.schema == "zscalerctl.dump.error.v2")
    && ErrorsRepeat(rows, rs) && ErrorsCover(rows, rs)
  }

  ghost predicate ErrorsRepeat(rows: seq<ResourceError>, rs: seq<ManifestResource>) {
    forall row :: row in rows ==> exists r :: (r in rs && r.status == "error"
      && r.Id() == row.Id() && r.operation == row.operation && r.errorKind == row.kind)
  }

  predicate HasErrorRow(rows: seq<ResourceError>, key: Key) {
    exists row :: row in rows && row.Id() == key
  }

  ghost predicate ErrorsCover(rows: seq<ResourceError>, rs: seq<ManifestResource>) {
    forall r :: r in rs && r.status == "error" ==> HasErrorRow(rows, r.Id())
  }

  /** A partial artifact has one error row for each failed resource, and no other. */
  lemma ErrorsMean(tree: Tree, host: Host)
    requires Accepts(tree, host)
    ensures var m := ManifestOf(tree);
      if m.status == "complete" then "errors.ndjson" !in tree.files
      else
        && "errors.ndjson" in tree.files && tree.files["errors.ndjson"].body.ErrorsBody?
        && tree.files["errors.ndjson"].size <= 0x400_0000
        && |tree.files["errors.ndjson"].body.rows| == m.errors
        && ErrorsMatch(tree.files["errors.ndjson"].body.rows, m.resources.value)
  {
    var m := ManifestOf(tree);
    var failed := WithStatus(m.resources.value, "error");
    StatusExactly(m.resources.value, "error");
    if m.status != "complete" {
      assert HoldsStatus(failed, m.resources.value, "error");
      assert RowsOk(tree.files[ERRORS_PATH].body.rows, m, failed);
      ErrorRowsMatch(tree.files[ERRORS_PATH].body.rows, m.resources.value, failed);
    }
  }

  lemma ErrorRowKnown(row: ResourceError, rs: seq<ManifestResource>, failed: map<Key, ManifestResource>)
    requires RowOk(row, failed) && HoldsStatus(failed, rs, "error")
    ensures row.schema == "zscalerctl.dump.error.v2"
    ensures exists r :: (r in rs && r.status == "error"
      && r.Id() == row.Id() && r.operation == row.operation && r.errorKind == row.kind)
  {
    assert failed[row.Id()] in rs;
  }

  lemma ErrorKeyAt(rows: seq<ResourceError>, key: Key) returns (row: ResourceError)
    requires key in ErrorKeys(rows)
    ensures row in rows && row.Id() == key
  {
    var i :| 0 <= i < |rows| && ErrorKeys(rows)[i] == key;
    row := rows[i];
  }

  lemma ErrorKeysDiffer(rows: seq<ResourceError>)
    requires Distinct(ErrorKeys(rows))
    ensures forall i, j :: 0 <= i < j < |rows| ==> rows[i].Id() != rows[j].Id()
  {
    forall i, j | 0 <= i < j < |rows| ensures rows[i].Id() != rows[j].Id() {
      assert ErrorKeys(rows)[i] != ErrorKeys(rows)[j];
    }
  }

  lemma ErrorKeysKnown(rows: seq<ResourceError>, failed: map<Key, ManifestResource>)
    requires Distinct(ErrorKeys(rows)) && |rows| == |failed|
    requires forall i :: 0 <= i < |rows| ==> RowOk(rows[i], failed)
    ensures forall k :: k in failed ==> k in ErrorKeys(rows)
  {
    forall k | k in ErrorKeys(rows) ensures k in failed {
      var i :| 0 <= i < |rows| && ErrorKeys(rows)[i] == k;
      assert RowOk(rows[i], failed);
    }
    AllKeysMet(ErrorKeys(rows), failed);
  }

  lemma ErrorRowsRepeat(rows: seq<ResourceError>, rs: seq<ManifestResource>, failed: map<Key, ManifestResource>)
    requires forall i :: 0 <= i < |rows| ==> RowOk(rows[i], failed)
    requires HoldsStatus(failed, rs, "error")
    ensures ErrorsRepeat(rows, rs) && forall row :: row in rows ==> row.schema == "zscalerctl.dump.error.v2"
  {
    forall row | row in rows
      ensures row.schema == "zscalerctl.dump.error.v2"
      ensures exists r :: (r in rs && r.status == "error"
        && r.Id() == row.Id() && r.operation == row.operation && r.errorKind == row.kind)
    {
      var i :| 0 <= i < |rows| && rows[i] == row;
      ErrorRowKnown(row, rs, failed);
    }
  }

  lemma ErrorRowsCover(rows: seq<ResourceError>, rs: seq<ManifestResource>, failed: map<Key, ManifestResource>)
    requires Distinct(ErrorKeys(rows)) && |rows| == |failed|
    requires forall i :: 0 <= i < |rows| ==> RowOk(rows[i], failed)
    requires HoldsStatus(failed, rs, "error")
    ensures ErrorsCover(rows, rs)
  {
    ErrorKeysKnown(rows, failed);
    forall r | r in rs && r.status == "error" ensures HasErrorRow(rows, r.Id()) {
      var row := ErrorKeyAt(rows, r.Id());
    }
  }

  lemma ErrorRowsMatch(rows: seq<ResourceError>, rs: seq<ManifestResource>, failed: map<Key, ManifestResource>)
    requires Distinct(ErrorKeys(rows)) && |rows| == |failed|
    requires forall i :: 0 <= i < |rows| ==> RowOk(rows[i], failed)
    requires HoldsStatus(failed, rs, "error")
    ensures ErrorsMatch(rows, rs)
  {
    ErrorKeysDiffer(rows);
    ErrorRowsRepeat(rows, rs, failed);
    ErrorRowsCover(rows, rs, failed);
  }

  /** Every collected resource has its file, with an object or with as many objects as
      declared. */
  lemma PayloadsMean(tree: Tree, host: Host, r: ManifestResource)
    requires Accepts(tree, host) && r in ManifestOf(tree).resources.value && r.status == "ok"
    ensures r.path in tree.files && tree.files[r.path].size <= 0x2000_0000 && tree.files[r.path].body.ResourceBody?
    ensures var payload := tree.files[r.path].body.payload;
      || (payload.Object? && r.records == 1)
      || (payload.Array? && |payload.items| == r.records && forall i :: 0 <= i < |payload.items| ==> payload.items[i].Object?)
  {
    var rs := ManifestOf(tree).resources.value;
    var i :| 0 <= i < |rs| && rs[i] == r;
    assert PayloadOk(tree, rs[i]);
  }

  lemma CollectedAncestors(tree: Tree, host: Host, r: ManifestResource)
    requires Accepts(tree, host) && HostOk(host) && r in ManifestOf(tree).resources.value && r.status == "ok"
    ensures Ancestors(r.path) == {"resources/" + r.product, "resources"}
  {
    var rs := ManifestOf(tree).resources.value;
    var i :| 0 <= i < |rs| && rs[i] == r;
    assert ResourceOk(rs[i], host);
    ResourceAncestors(r.product, r.name, host);
  }

  lemma NoAncestors()
    ensures Ancestors("") == {} && Ancestors(ERRORS_PATH) == {}
  {
    LastSlashNone(ERRORS_PATH);
  }

  lemma ExpectedFile(m: Manifest, path: string)
    requires m.resources.Some? && m.errorsPath in {"", "errors.ndjson"}
    ensures path in ExpectedFiles(m) <==>
      || path == "manifest.json" || path == "redaction_report.json"
      || (path == "errors.ndjson" && m.errorsPath != "")
      || exists r :: r in m.resources.value && r.status == "ok" && r.path == path
  {
    assert path in ResourceFiles(m.resources.value) <==> exists r :: r in m.resources.value && r.status == "ok" && r.path == path;
  }

  lemma ErrorsPathKnown(tree: Tree, host: Host)
    requires Accepts(tree, host)
    ensures var m := ManifestOf(tree);
      m.errorsPath == (if m.status == "complete" then "" else "errors.ndjson") && m.status in {"complete", "partial"}
  {
  }

  /** There is no file but those. */
  lemma NoOtherFile(tree: Tree, host: Host, path: string)
    requires Accepts(tree, host)
    ensures path in tree.files <==>
      || path == "manifest.json" || path == "redaction_report.json"
      || (path == "errors.ndjson" && ManifestOf(tree).status == "partial")
      || exists r :: r in ManifestOf(tree).resources.value && r.status == "ok" && r.path == path
  {
    var m := ManifestOf(tree);
    ErrorsPathKnown(tree, host);
    ExpectedFile(m, path);
    assert path in tree.files <==> path in ExpectedFiles(m);
  }

  predicate IsAbove(d: string, r: ManifestResource) {
    d == "resources" || d == "resources/" + r.product
  }

  lemma AboveCollected(tree: Tree, host: Host, r: ManifestResource, d: string)
    requires Accepts(tree, host) && HostOk(host) && r in ManifestOf(tree).resources.value && r.status == "ok"
    ensures d in Ancestors(r.path) <==> IsAbove(d, r)
  {
    CollectedAncestors(tree, host, r);
  }

  lemma DirectoryAbove(tree: Tree, host: Host, d: string)
    requires Accepts(tree, host) && HostOk(host)
    ensures d in ResourceDirs(ManifestOf(tree).resources.value) <==>
      exists r :: r in ManifestOf(tree).resources.value && r.status == "ok" && IsAbove(d, r)
  {
    var rs := ManifestOf(tree).resources.value;
    forall r | r in rs && r.status == "ok" ensures d in Ancestors(r.path) <==> IsAbove(d, r) {
      AboveCollected(tree, host, r, d);
    }
  }

  /** And no directory but their parents. */
  lemma NoOtherDirectory(tree: Tree, host: Host, d: string)
    requires Accepts(tree, host) && HostOk(host)
    ensures d in tree.dirs <==>
      exists r :: r in ManifestOf(tree).resources.value && r.status == "ok" && (d == "resources" || d == "resources/" + r.product)
  {
    NoAncestors();
    ErrorsPathKnown(tree, host);
    DirectoryAbove(tree, host, d);
    assert forall r: ManifestResource :: IsAbove(d, r) <==> d == "resources" || d == "resources/" + r.product;
  }

  // ------------------------------------------------------- and conversely

  /** A report that stands for the collected resources. */
  ghost predicate ReportStands(report: RedactionReport, m: Manifest)
    requires m.resources.Some?
  {
    && report.schema == "zscalerctl.redaction_report.v1" && Some(report.redaction) == ParseMode(m.redaction)
    && report.resources.Some? && ReportMatches(report.resources.value, m.resources.value)
  }

  /** The file of a collected resource. */
  predicate PayloadStands(tree: Tree, r: ManifestResource) {
    && r.path in tree.files && tree.files[r.path].size <= 0x2000_0000 && tree.files[r.path].body.ResourceBody?
    && var payload := tree.files[r.path].body.payload;
    || (payload.Object? && r.records == 1)
    || (payload.Array? && |payload.items| == r.records && forall i :: 0 <= i < |payload.items| ==> payload.items[i].Object?)
  }

  ghost predicate ErrorsStand(tree: Tree, m: Manifest)
    requires m.resources.Some?
  {
    m.status == "partial" ==>
      && "errors.ndjson" in tree.files && tree.files["errors.ndjson"].body.ErrorsBody?
      && tree.files["errors.ndjson"].size <= 0x400_0000
      && |tree.files["errors.ndjson"].body.rows| == m.errors
      && ErrorsMatch(tree.files["errors.ndjson"].body.rows, m.resources.value)
  }

  /** A strict artifact: each part as declared, and no other file or directory. */
  ghost predicate Strict(tree: Tree, host: Host) {
    && "manifest.json" in tree.files && tree.files["manifest.json"].body.ManifestBody?
    && tree.files["manifest.json"].size <= 0x10_0000
    && "redaction_report.json" in tree.files && tree.files["redaction_report.json"].body.ReportBody?
    && tree.files["redaction_report.json"].size <= 0x400_0000
    && var m := tree.files["manifest.json"].body.manifest;
    && Declared(m, host)
    && ReportStands(tree.files["redaction_report.json"].body.report, m)
    && ErrorsStand(tree, m)
    && (forall r :: r in m.resources.value && r.status == "ok" ==> PayloadStands(tree, r))
    && (forall path :: path in tree.files <==>
          || path == "manifest.json" || path == "redaction_report.json"
          || (path == "errors.ndjson" && m.status == "partial")
          || exists r :: r in m.resources.value && r.status == "ok" && r.path == path)
    && (forall d :: d in tree.dirs <==>
          exists r :: r in m.resources.value && r.status == "ok" && (d == "resources" || d == "resources/" + r.product))
  }

  lemma AcceptedIsStrict(tree: Tree, host: Host)
    requires Accepts(tree, host) && HostOk(host)
    ensures Strict(tree, host)
  {
    ManifestMeans(tree, host);
    ReportMeans(tree, host);
    ErrorsMean(tree, host);
    var m := ManifestOf(tree);
    forall r | r in m.resources.value && r.status == "ok" ensures PayloadStands(tree, r) {
      PayloadsMean(tree, host, r);
    }
    forall path {
      NoOtherFile(tree, host, path);
    }
    forall d {
      NoOtherDirectory(tree, host, d);
    }
  }

  lemma DeclaredIsOk(m: Manifest, host: Host)
    requires Declared(m, host)
    ensures HeaderOk(m, host) && Distinct(ManifestKeys(m.resources.value))
    ensures forall i :: 0 <= i < |m.resources.value| ==> ResourceOk(m.resources.value[i], host)
  {
    var rs := m.resources.value;
    forall i | 0 <= i < |rs| ensures ResourceOk(rs[i], host) {
      assert rs[i] in rs && Declares(rs[i], host);
    }
    forall i, j | 0 <= i < j < |rs| ensures ManifestKeys(rs)[i] != ManifestKeys(rs)[j] {
    }
  }

  /** Distinct keys that are exactly those of a map are as many. */
  lemma SameCount(keys: seq<Key>, m: map<Key, ManifestResource>)
    requires Distinct(keys) && forall k :: k in keys <==> k in m
    ensures |keys| == |m|
  {
    SeenCount(keys);
    assert (set k | k in keys) == m.Keys;
  }

  lemma KeyedByStatus(rs: seq<ManifestResource>, status: string)
    requires Distinct(ManifestKeys(rs))
    ensures HoldsStatus(WithStatus(rs, status), rs, status)
    ensures forall r :: r in rs && r.status == status ==> WithStatus(rs, status)[r.Id()] == r
  {
    StatusExactly(rs, status);
  }

  lemma KeyInReport(rows: seq<ResourceReport>, row: ResourceReport)
    requires row in rows
    ensures row.Id() in ReportKeys(rows)
  {
    var i :| 0 <= i < |rows| && rows[i] == row;
    assert ReportKeys(rows)[i] == row.Id();
  }

  lemma KeyInErrors(rows: seq<ResourceError>, row: ResourceError)
    requires row in rows
    ensures row.Id() in ErrorKeys(rows)
  {
    var i :| 0 <= i < |rows| && rows[i] == row;
    assert ErrorKeys(rows)[i] == row.Id();
  }

  lemma ReportEntriesOk(rows: seq<ResourceReport>, rs: seq<ManifestResource>, ok: map<Key, ManifestResource>)
    requires ReportMatches(rows, rs) && HoldsStatus(ok, rs, "ok")
    requires forall r :: r in rs && r.status == "ok" ==> ok[r.Id()] == r
    ensures forall i :: 0 <= i < |rows| ==> EntryOk(rows[i], ok)
  {
    forall i | 0 <= i < |rows| ensures EntryOk(rows[i], ok) {
      assert rows[i] in rows;
      var r :| r in rs && r.status == "ok" && r.Id() == rows[i].Id() && r.path == rows[i].path && r.records == rows[i].records;
    }
  }

  lemma ReportKeyKnown(rows: seq<ResourceReport>, ok: map<Key, ManifestResource>, k: Key)
    requires k in ReportKeys(rows) && forall i :: 0 <= i < |rows| ==> EntryOk(rows[i], ok)
    ensures k in ok
  {
    var i :| 0 <= i < |rows| && ReportKeys(rows)[i] == k;
    assert EntryOk(rows[i], ok);
  }

  lemma ReportKeyMet(rows: seq<ResourceReport>, rs: seq<ManifestResource>, ok: map<Key, ManifestResource>, k: Key)
    requires ReportCovers(rows, rs) && HoldsStatus(ok, rs, "ok") && k in ok
    ensures k in ReportKeys(rows)
  {
    var r := ok[k];
    assert r in rs && r.status == "ok" && r.Id() == k;
    var row :| row in rows && row.Id() == k;
    KeyInReport(rows, row);
  }

  lemma ReportStandsIsOk(report: RedactionReport, m: Manifest, mode: string)
    requires m.resources.Some? && Distinct(ManifestKeys(m.resources.value)) && ReportStands(report, m)
    requires ParseMode(m.redaction) == Some(mode)
    ensures ReportOk(report, mode, WithStatus(m.resources.value, "ok"))
  {
    var rows, rs := report.resources.value, m.resources.value;
    var ok := WithStatus(rs, "ok");
    KeyedByStatus(rs, "ok");
    ReportEntriesOk(rows, rs, ok);
    forall k | k in ReportKeys(rows) ensures k in ok {
      ReportKeyKnown(rows, ok, k);
    }
    forall k | k in ok ensures k in ReportKeys(rows) {
      ReportKeyMet(rows, rs, ok, k);
    }
    SameCount(ReportKeys(rows), ok);
  }

  lemma ErrorRowsOk(rows: seq<ResourceError>, rs: seq<ManifestResource>, failed: map<Key, ManifestResource>)
    requires ErrorsMatch(rows, rs) && HoldsStatus(failed, rs, "error")
    requires forall r :: r in rs && r.status == "error" ==> failed[r.Id()] == r
    ensures forall i :: 0 <= i < |rows| ==> RowOk(rows[i], failed)
  {
    forall i | 0 <= i < |rows| ensures RowOk(rows[i], failed) {
      assert rows[i] in rows;
      var r :| r in rs && r.status == "error" && r.Id() == rows[i].Id() && r.operation == rows[i].operation && r.errorKind == rows[i].kind;
    }
  }

  lemma ErrorKeyKnown(rows: seq<ResourceError>, failed: map<Key, ManifestResource>, k: Key)
    requires k in ErrorKeys(rows) && forall i :: 0 <= i < |rows| ==> RowOk(rows[i], failed)
    ensures k in failed
  {
    var i :| 0 <= i < |rows| && ErrorKeys(rows)[i] == k;
    assert RowOk(rows[i], failed);
  }

  lemma ErrorKeyMet(rows: seq<ResourceError>, rs: seq<ManifestResource>, failed: map<Key, ManifestResource>, k: Key)
    requires ErrorsCover(rows, rs) && HoldsStatus(failed, rs, "error") && k in failed
    ensures k in ErrorKeys(rows)
  {
    var r := failed[k];
    assert r in rs && r.status == "error" && r.Id() == k;
    var row :| row in rows && row.Id() == k;
    KeyInErrors(rows, row);
  }

  lemma ErrorsMatchIsOk(rows: seq<ResourceError>, m: Manifest)
    requires m.resources.Some? && Distinct(ManifestKeys(m.resources.value))
    requires ErrorsMatch(rows, m.resources.value) && |rows| == m.errors
    ensures RowsOk(rows, m, WithStatus(m.resources.value, "error")) && m.errors == |WithStatus(m.resources.value, "error")|
  {
    var rs := m.resources.value;
    var failed := WithStatus(rs, "error");
    KeyedByStatus(rs, "error");
    ErrorRowsOk(rows, rs, failed);
    forall k | k in ErrorKeys(rows) ensures k in failed {
      ErrorKeyKnown(rows, failed, k);
    }
    forall k | k in failed ensures k in ErrorKeys(rows) {
      ErrorKeyMet(rows, rs, failed, k);
    }
    SameCount(ErrorKeys(rows), failed);
  }

  lemma StrictStatus(tree: Tree, host: Host)
    requires Strict(tree, host) && HostOk(host)
    ensures var m := tree.files["manifest.json"].body.manifest; StatusOk(m) && ErrorsOk(tree, m)
  {
    var m := tree.files["manifest.json"].body.manifest;
    DeclaredIsOk(m, host);
    KeyedByStatus(m.resources.value, "error");
    if m.status == "partial" {
      ErrorsMatchIsOk(tree.files["errors.ndjson"].body.rows, m);
    } else {
      NoFileNamedErrors(tree, host);
    }
  }

  lemma NoFileNamedErrors(tree: Tree, host: Host)
    requires Strict(tree, host) && tree.files["manifest.json"].body.manifest.status == "complete"
    ensures "errors.ndjson" !in tree.files && "errors.ndjson" !in tree.dirs
  {
    var m := tree.files["manifest.json"].body.manifest;
    assert "errors.ndjson"[0] == 'e' && "resources"[0] == 'r';
    forall r | r in m.resources.value && r.status == "ok"
      ensures r.path != "errors.ndjson" && "errors.ndjson" != "resources/" + r.product
    {
      assert Declares(r, host);
      assert ("resources/" + r.product + "/" + r.name + ".json")[0] == 'r' && ("resources/" + r.product)[0] == 'r';
    }
  }

  lemma StrictInventory(tree: Tree, host: Host)
    requires Strict(tree, host) && HostOk(host)
    ensures InventoryOk(tree, tree.files["manifest.json"].body.manifest)
  {
    var m := tree.files["manifest.json"].body.manifest;
    forall path ensures path in tree.files <==> path in ExpectedFiles(m) {
      ExpectedFile(m, path);
    }
    forall r | r in m.resources.value && r.status == "ok" ensures Ancestors(r.path) == {"resources/" + r.product, "resources"} {
      assert Declares(r, host);
      ResourceAncestors(r.product, r.name, host);
    }
    NoAncestors();
    forall d ensures d in tree.dirs <==> d in ExpectedDirs(m) {
      DirectoryExpected(tree, m, d);
    }
  }

  lemma DirectoryExpected(tree: Tree, m: Manifest, d: string)
    requires m.resources.Some? && Ancestors(m.errorsPath) == {}
    requires forall r :: r in m.resources.value && r.status == "ok" ==> Ancestors(r.path) == {"resources/" + r.product, "resources"}
    ensures d in ExpectedDirs(m) <==>
      exists r :: r in m.resources.value && r.status == "ok" && (d == "resources" || d == "resources/" + r.product)
  {
    if r :| r in m.resources.value && r.status == "ok" && (d == "resources" || d == "resources/" + r.product) {
      assert d in Ancestors(r.path);
    }
  }

  lemma StrictPayloads(tree: Tree, host: Host)
    requires Strict(tree, host)
    ensures PayloadsOk(tree, tree.files["manifest.json"].body.manifest.resources.value)
  {
    var rs := tree.files["manifest.json"].body.manifest.resources.value;
    forall i | 0 <= i < |rs| && rs[i].status == "ok" ensures PayloadOk(tree, rs[i]) {
      assert rs[i] in rs && PayloadStands(tree, rs[i]);
    }
  }

  /** The validator accepts exactly the strict artifacts. */
  lemma AcceptsExactly(tree: Tree, host: Host)
    requires HostOk(host)
    ensures Accepts(tree, host) <==> Strict(tree, host)
  {
    if Accepts(tree, host) {
      AcceptedIsStrict(tree, host);
    }
    if Strict(tree, host) {
      var m := tree.files["manifest.json"].body.manifest;
      DeclaredIsOk(m, host);
      StrictStatus(tree, host);
      ReportStandsIsOk(tree.files["redaction_report.json"].body.report, m, ParseMode(m.redaction).value);
      StrictPayloads(tree, host);
      StrictInventory(tree, host);
    }
  }

  // ---------------------------------------------------------- mode names

  /** The word is the mode's name in any mixture of cases. */
  predicate Spells(word: string, mode: string) {
    |word| == |mode| && forall k :: 0 <= k < |word| ==>
      word[k] == mode[k] || ('A' <= word[k] <= 'Z' && word[k] as int + 32 == mode[k] as int)
  }

  lemma {:induction false} LowerSpells(word: string)
    ensures Spells(word, ToLower(word))
  {
    if word != "" {
      LowerSpells(word[1..]);
      assert word == [word[0]] + word[1..];
    }
  }

  lemma {:induction false} SpellsIsLower(word: string, mode: string)
    requires Spells(word, mode) && forall k :: 0 <= k < |mode| ==> 'a' <= mode[k] <= 'z'
    ensures ToLower(word) == mode
  {
    if word != "" {
      SpellsIsLower(word[1..], mode[1..]);
      assert mode == [mode[0]] + mode[1..];
    }
  }

  lemma TailSlice(s: string, i: nat, j: nat)
    requires s != "" && i <= j < |s|
    ensures s[1..][i..j] == s[i + 1..j + 1]
  {
    forall k | 0 <= k < j - i ensures s[1..][i..j][k] == s[i + 1..j + 1][k] {
    }
  }

  lemma FrontSlice(s: string, i: nat, j: nat)
    requires s != "" && i <= j < |s|
    ensures s[..|s| - 1][i..j] == s[i..j]
  {
    forall k | 0 <= k < j - i ensures s[..|s| - 1][i..j][k] == s[i..j][k] {
    }
  }

  /** Trimming takes white space off both ends, and only that. */
  lemma {:induction false} Trimming(s: string) returns (i: nat, j: nat)
    ensures i <= j <= |s| && TrimSpace(s) == s[i..j]
    ensures (forall k :: 0 <= k < i ==> IsSpace(s[k])) && (forall k :: j <= k < |s| ==> IsSpace(s[k]))
    decreases |s|
  {
    if s != "" && IsSpace(s[0]) {
      i, j := Trimming(s[1..]);
      TailSlice(s, i, j);
      forall k | 0 <= k < i + 1 || j + 1 <= k < |s| ensures IsSpace(s[k]) {
        assert k > 0 ==> s[k] == s[1..][k - 1];
      }
      i, j := i + 1, j + 1;
    } else if s != "" && IsSpace(s[|s| - 1]) {
      i, j := Trimming(s[..|s| - 1]);
      FrontSlice(s, i, j);
    } else {
      i, j := 0, |s|;
    }
  }

  lemma {:induction false} TrimmedTo(s: string, i: nat, j: nat)
    requires i < j <= |s| && !IsSpace(s[i]) && !IsSpace(s[j - 1])
    requires (forall k :: 0 <= k < i ==> IsSpace(s[k])) && (forall k :: j <= k < |s| ==> IsSpace(s[k]))
    ensures TrimSpace(s) == s[i..j]
    decreases |s|
  {
    if i > 0 {
      TrimmedTo(s[1..], i - 1, j - 1);
      TailSlice(s, i - 1, j - 1);
    } else if j < |s| {
      TrimmedTo(s[..|s| - 1], i, j);
      FrontSlice(s, i, j);
    } else {
      assert s[i..j] == s;
    }
  }

  /** A redaction mode is one of three names, in any case, with white space around it. */
  lemma ModeParsed(value: string) returns (i: nat, j: nat)
    requires ParseMode(value).Some?
    ensures ParseMode(value).value in {"standard", "share", "paranoid"}
    ensures i <= j <= |value| && Spells(value[i..j], ParseMode(value).value)
    ensures (forall k :: 0 <= k < i ==> IsSpace(value[k])) && (forall k :: j <= k < |value| ==> IsSpace(value[k]))
  {
    i, j := Trimming(value);
    LowerSpells(value[i..j]);
  }

  /** And every such text is a mode. */
  lemma ModeAccepted(value: string, i: nat, j: nat, mode: string)
    requires mode in {"standard", "share", "paranoid"} && i <= j <= |value| && Spells(value[i..j], mode)
    requires (forall k :: 0 <= k < i ==> IsSpace(value[k])) && (forall k :: j <= k < |value| ==> IsSpace(value[k]))
    ensures ParseMode(value) == Some(mode)
  {
    var word := value[i..j];
    assert forall k :: 0 <= k < |mode| ==> 'a' <= mode[k] <= 'z';
    assert word[0] == value[i] && word[|word| - 1] == value[j - 1];
    TrimmedTo(value, i, j);
    SpellsIsLower(word, mode);
  }
}
