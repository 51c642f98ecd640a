// The dump artifact of internal/dump: its manifest, redaction report, error rows
// and resource files, the directory tree that holds them, and what the strict
// validator of internal/dump/artifact.go accepts, stated declaratively.
module Artifact {
  import opened Options
  import opened JsonValues

  const MANIFEST_SCHEMA := "zscalerctl.dump.manifest.v2"
  const REPORT_SCHEMA := "zscalerctl.redaction_report.v1"
  const ERROR_SCHEMA := "zscalerctl.dump.error.v2"
  const WARNING := "sanitized dumps remain confidential operational data"

  const MANIFEST_PATH := "manifest.json"
  const REPORT_PATH := "redaction_report.json"
  const ERRORS_PATH := "errors.ndjson"

  const MAX_MANIFEST_BYTES := 0x10_0000       // 1 MiB
  const MAX_REPORT_BYTES := 0x400_0000        // 64 MiB
  const MAX_ERRORS_BYTES := 0x400_0000        // 64 MiB
  const MAX_RESOURCE_BYTES := 0x2000_0000     // 512 MiB

  datatype Key = Key(product: string, name: string)

  datatype ManifestResource = ManifestResource(
    product: string, name: string, shape: string, status: string,
    path: string, records: int, operation: string, errorKind: string)
  {
    function Id(): Key {
      Key(product, name)
    }
  }

  /** None stands for a missing or null resources list. */
  datatype Manifest = Manifest(
    schema: string, collectedAt: string, toolVersion: string, redaction: string, warning: string,
    status: string, errors: int, errorsPath: string, resources: Option<seq<ManifestResource>>)

  datatype ResourceReport = ResourceReport(product: string, name: string, path: string, records: int)
  {
    function Id(): Key {
      Key(product, name)
    }
  }

  datatype RedactionReport = RedactionReport(schema: string, redaction: string, resources: Option<seq<ResourceReport>>)

  /** detail stands for the optional reason, status and retry hint. */
  datatype ResourceError = ResourceError(
    schema: string, product: string, name: string, operation: string, kind: string, detail: string)
  {
    function Id(): Key {
      Key(product, name)
    }
  }

  /** What a file decodes to under the validator's strict decoding. */
  datatype Body =
    | ManifestBody(manifest: Manifest)
    | ReportBody(report: RedactionReport)
    | ErrorsBody(rows: seq<ResourceError>)
    | ResourceBody(payload: Json)
    | Other

  datatype File = File(body: Body, size: nat)

  /** A directory tree by slash-separated relative path; the root is not listed. */
  datatype Tree = Tree(files: map<string, File>, dirs: set<string>)

  const EMPTY_TREE := Tree(map[], {})

  /** Library judgements outside the model: Unicode letters and digits, RFC 3339
      timestamps, and the number of bytes a body encodes to. */
  datatype Host = Host(isWord: char -> bool, isTime: string -> bool, encodedSize: Body -> nat)

  /** Neither the path separator nor the full stop is a letter or digit. */
  predicate HostOk(host: Host) {
    !host.isWord('/') && !host.isWord('.')
  }

  // ------------------------------------------------------- names and paths

  predicate SafeSegment(value: string, host: Host) {
    value != "" && forall i :: 0 <= i < |value| ==> host.isWord(value[i]) || value[i] == '-' || value[i] == '_'
  }

  function ResourcePath(product: string, name: string): string {
    "resources/" + product + "/" + name + ".json"
  }

  function LastSlashBefore(path: string, n: nat): (i: int)
    requires n <= |path|
    ensures -1 <= i < n
    ensures i >= 0 ==> path[i] == '/'
    ensures forall k :: i < k < n ==> path[k] != '/'
  {
    if n == 0 then -1
    else if path[n - 1] == '/' then n - 1
    else LastSlashBefore(path, n - 1)
  }

  function LastSlash(path: string): int {
    LastSlashBefore(path, |path|)
  }

  /** filepath.Dir of a clean relative path. */
  function Dir(path: string): string {
    if LastSlash(path) > 0 then path[..LastSlash(path)] else "."
  }

  /** The directories addExpectedDirs adds for a file. */
  function Ancestors(path: string): set<string>
    decreases |path|
  {
    if LastSlash(path) > 0 then {Dir(path)} + Ancestors(Dir(path)) else {}
  }

  function IsSpace(c: char): bool {
    var x := c as int;
    || 9 <= x <= 13 || x == 0x20 || x == 0x85 || x == 0xA0 || x == 0x1680
    || 0x2000 <= x <= 0x200A || x == 0x2028 || x == 0x2029 || x == 0x202F || x == 0x205F || x == 0x3000
  }

  /** strings.TrimSpace leaves nothing. */
  predicate Blank(s: string) {
    forall i :: 0 <= i < |s| ==> IsSpace(s[i])
  }

  // --------------------------------------------------------- the manifest

  /** The three redaction modes as redact.ParseMode returns them. */
  predicate IsMode(mode: string) {
    mode in {"standard", "share", "paranoid"}
  }

  function ToLower(s: string): string {
    if s == "" then ""
    else [if 'A' <= s[0] <= 'Z' then (s[0] as int + 32) as char else s[0]] + ToLower(s[1..])
  }

  function TrimSpace(s: string): string
    decreases |s|
  {
    if s != "" && IsSpace(s[0]) then TrimSpace(s[1..])
    else if s != "" && IsSpace(s[|s| - 1]) then TrimSpace(s[..|s| - 1])
    else s
  }

  function ParseMode(value: string): Option<string> {
    var mode := ToLower(TrimSpace(value));
    if IsMode(mode) then Some(mode) else None
  }

  predicate HeaderOk(m: Manifest, host: Host) {
    && m.schema == MANIFEST_SCHEMA
    && host.isTime(m.collectedAt)
    && !Blank(m.toolVersion)
    && ParseMode(m.redaction).Some?
    && !Blank(m.warning)
    && m.resources.Some?
    && m.status in {"complete", "partial"}
  }

  predicate OkResource(r: ManifestResource) {
    && r.status == "ok"
    && r.shape in {"", "singleton"}
    && r.path == ResourcePath(r.product, r.name)
    && r.operation == "" && r.errorKind == ""
  }

  predicate FailedResource(r: ManifestResource) {
    && r.status == "error"
    && r.path == "" && r.records == 0 && r.shape == ""
    && r.operation in {"list", "show"}
    && !Blank(r.errorKind)
  }

  predicate ResourceOk(r: ManifestResource, host: Host) {
    && SafeSegment(r.product, host) && SafeSegment(r.name, host)
    && r.records >= 0
    && (OkResource(r) || FailedResource(r))
  }

  predicate Distinct(keys: seq<Key>) {
    forall i, j :: 0 <= i < j < |keys| ==> keys[i] != keys[j]
  }

  function ManifestKeys(rs: seq<ManifestResource>): seq<Key> {
    seq(|rs|, i requires 0 <= i < |rs| => rs[i].Id())
  }

  /** The resources with the given status, by key. */
  function WithStatus(rs: seq<ManifestResource>, status: string): map<Key, ManifestResource> {
    if rs == [] then map[]
    else
      var last := rs[|rs| - 1];
      var earlier := WithStatus(rs[..|rs| - 1], status);
      if last.status == status then earlier[last.Id() := last] else earlier
  }

  predicate StatusOk(m: Manifest)
    requires m.resources.Some?
  {
    var failed := WithStatus(m.resources.value, "error");
    if m.status == "complete" then m.errors == 0 && m.errorsPath == "" && failed == map[]
    else m.errors > 0 && m.errorsPath == ERRORS_PATH && m.errors == |failed|
  }

  /** validateManifest */
  predicate ManifestOk(m: Manifest, host: Host) {
    && HeaderOk(m, host)
    && (forall i :: 0 <= i < |m.resources.value| ==> ResourceOk(m.resources.value[i], host))
    && Distinct(ManifestKeys(m.resources.value))
    && StatusOk(m)
  }

  function ResourceFiles(rs: seq<ManifestResource>): set<string> {
    set r | r in rs && r.status == "ok" :: r.path
  }

  function ResourceDirs(rs: seq<ManifestResource>): set<string> {
    set r, d | r in rs && r.status == "ok" && d in Ancestors(r.path) :: d
  }

  function ExpectedFiles(m: Manifest): set<string>
    requires m.resources.Some?
  {
    {MANIFEST_PATH, REPORT_PATH} + ResourceFiles(m.resources.value)
    + if m.errorsPath != "" then {m.errorsPath} else {}
  }

  function ExpectedDirs(m: Manifest): set<string>
    requires m.resources.Some?
  {
    ResourceDirs(m.resources.value) + Ancestors(m.errorsPath)
  }

  // ------------------------------------------- report, errors and payloads

  function ReportKeys(rs: seq<ResourceReport>): seq<Key> {
    seq(|rs|, i requires 0 <= i < |rs| => rs[i].Id())
  }

  predicate EntryOk(r: ResourceReport, ok: map<Key, ManifestResource>) {
    r.Id() in ok && r.path == ok[r.Id()].path && r.records == ok[r.Id()].records
  }

  /** validateRedactionReport */
  predicate ReportOk(report: RedactionReport, mode: string, ok: map<Key, ManifestResource>) {
    && report.schema == REPORT_SCHEMA
    && report.redaction == mode
    && report.resources.Some?
    && Distinct(ReportKeys(report.resources.value))
    && (forall i :: 0 <= i < |report.resources.value| ==> EntryOk(report.resources.value[i], ok))
    && |report.resources.value| == |ok|
  }

  function ErrorKeys(rows: seq<ResourceError>): seq<Key> {
    seq(|rows|, i requires 0 <= i < |rows| => rows[i].Id())
  }

  predicate RowOk(e: ResourceError, failed: map<Key, ManifestResource>) {
    && e.schema == ERROR_SCHEMA
    && e.Id() in failed
    && e.operation == failed[e.Id()].operation && e.kind == failed[e.Id()].errorKind
  }

  /** The rows of errors.ndjson match the failed resources one to one. */
  predicate RowsOk(rows: seq<ResourceError>, m: Manifest, failed: map<Key, ManifestResource>) {
    && Distinct(ErrorKeys(rows))
    && (forall i :: 0 <= i < |rows| ==> RowOk(rows[i], failed))
    && |rows| == m.errors && |rows| == |failed|
  }

  /** The record count of a resource payload, or None for an unacceptable shape. */
  function PayloadCount(payload: Json): Option<nat> {
    match payload
    case Object(_) => Some(1)
    case Array(items) => if forall i :: 0 <= i < |items| ==> items[i].Object? then Some(|items|) else None
    case _ => None
  }

  predicate HasFile(tree: Tree, path: string, limit: nat) {
    path in tree.files && tree.files[path].size <= limit
  }

  predicate PayloadOk(tree: Tree, r: ManifestResource) {
    && HasFile(tree, r.path, MAX_RESOURCE_BYTES)
    && tree.files[r.path].body.ResourceBody?
    && PayloadCount(tree.files[r.path].body.payload) == Some(r.records)
  }

  predicate ErrorsOk(tree: Tree, m: Manifest)
    requires m.resources.Some?
  {
    if m.status == "complete" then ERRORS_PATH !in tree.files && ERRORS_PATH !in tree.dirs
    else
      && HasFile(tree, m.errorsPath, MAX_ERRORS_BYTES)
      && tree.files[m.errorsPath].body.ErrorsBody?
      && RowsOk(tree.files[m.errorsPath].body.rows, m, WithStatus(m.resources.value, "error"))
  }

  // ------------------------------------------------------ the whole artifact

  predicate HasManifest(tree: Tree) {
    HasFile(tree, MANIFEST_PATH, MAX_MANIFEST_BYTES) && tree.files[MANIFEST_PATH].body.ManifestBody?
  }

  function ManifestOf(tree: Tree): Manifest
    requires HasManifest(tree)
  {
    tree.files[MANIFEST_PATH].body.manifest
  }

  predicate HasReport(tree: Tree) {
    HasFile(tree, REPORT_PATH, MAX_REPORT_BYTES) && tree.files[REPORT_PATH].body.ReportBody?
  }

  /** The tree holds exactly the files and directories the manifest calls for. */
  predicate InventoryOk(tree: Tree, m: Manifest)
    requires m.resources.Some?
  {
    tree.files.Keys == ExpectedFiles(m) && tree.dirs == ExpectedDirs(m)
  }

  predicate PayloadsOk(tree: Tree, rs: seq<ManifestResource>) {
    forall i :: 0 <= i < |rs| && rs[i].status == "ok" ==> PayloadOk(tree, rs[i])
  }

  predicate ReportFileOk(tree: Tree, mode: string, ok: map<Key, ManifestResource>) {
    HasReport(tree) && ReportOk(tree.files[REPORT_PATH].body.report, mode, ok)
  }

  /** Report, resource files and error rows agree with the manifest. */
  predicate ContentsOk(tree: Tree, m: Manifest, host: Host)
    requires ManifestOk(m, host)
  {
    && ReportFileOk(tree, ParseMode(m.redaction).value, WithStatus(m.resources.value, "ok"))
    && PayloadsOk(tree, m.resources.value)
    && ErrorsOk(tree, m)
  }

  /** What validateArtifactRootContext accepts. */
  predicate Accepts(tree: Tree, host: Host) {
    && HasManifest(tree)
    && ManifestOk(ManifestOf(tree), host)
    && ContentsOk(tree, ManifestOf(tree), host)
    && InventoryOk(tree, ManifestOf(tree))
  }
}
