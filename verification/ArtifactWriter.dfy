// The writer of internal/dump/dump.go: what it intends to write, the steps by
// which it writes it, and the proof that the strict validator accepts the result
// exactly when the input is well-formed, and never a write that stopped earlier.
module ArtifactWriter {
  import opened Options
  import opened JsonValues
  import opened Artifact
  import opened Filesystem
  import opened ArtifactValidator

  /** A single projected record, or a list of them. */
  datatype Payload = Record(fields: map<string, Json>) | Records(records: seq<map<string, Json>>)
  {
    function Encoded(): Json {
      match this
      case Record(fields) => Object(fields)
      case Records(records) => Array(seq(|records|, i requires 0 <= i < |records| => Object(records[i])))
    }

    function Count(): nat {
      match this case Record(_) => 1 case Records(records) => |records|
    }
  }

  /** shape is the catalog's effective shape: list, singleton or report. */
  datatype Entry = Entry(product: string, name: string, shape: string, payload: Payload)
  {
    function Id(): Key {
      Key(product, name)
    }
  }

  datatype Input = Input(
    entries: seq<Entry>, errors: seq<ResourceError>, mode: string, collectedAt: string, toolVersion: string)

  function EffectiveMode(mode: string): string {
    if mode == "" then "standard" else mode
  }

  /** ManifestResourceShape: the ordinary list shape is left out. */
  function ManifestShape(shape: string): string {
    if shape == "list" then "" else shape
  }

  function EntryRow(e: Entry): ManifestResource {
    ManifestResource(e.product, e.name, ManifestShape(e.shape), "ok", ResourcePath(e.product, e.name), e.payload.Count(), "", "")
  }

  function ErrorRow(e: ResourceError): ManifestResource {
    ManifestResource(e.product, e.name, "", "error", "", 0, e.operation, e.kind)
  }

  function EntryReport(e: Entry): ResourceReport {
    ResourceReport(e.product, e.name, ResourcePath(e.product, e.name), e.payload.Count())
  }

  function EntryRows(es: seq<Entry>): seq<ManifestResource> {
    seq(|es|, i requires 0 <= i < |es| => EntryRow(es[i]))
  }

  function ErrorRows(es: seq<ResourceError>): seq<ManifestResource> {
    seq(|es|, i requires 0 <= i < |es| => ErrorRow(es[i]))
  }

  function EntryReports(es: seq<Entry>): seq<ResourceReport> {
    seq(|es|, i requires 0 <= i < |es| => EntryReport(es[i]))
  }

  function OutputManifest(input: Input): Manifest {
    Manifest(MANIFEST_SCHEMA, input.collectedAt, input.toolVersion, EffectiveMode(input.mode), WARNING,
             if input.errors == [] then "complete" else "partial",
             |input.errors|,
             if input.errors == [] then "" else ERRORS_PATH,
             Some(EntryRows(input.entries) + ErrorRows(input.errors)))
  }

  function OutputReport(input: Input): RedactionReport {
    RedactionReport(REPORT_SCHEMA, EffectiveMode(input.mode), Some(EntryReports(input.entries)))
  }

  function Encoded(body: Body, host: Host): File {
    File(body, host.encodedSize(body))
  }

  function PathOf(e: Entry): string {
    ResourcePath(e.product, e.name)
  }

  function EntryFile(e: Entry, host: Host): File {
    Encoded(ResourceBody(e.payload.Encoded()), host)
  }

  /** The tree after the resource files of some entries. */
  function ResourceTree(es: seq<Entry>, host: Host): Tree {
    if es == [] then EMPTY_TREE
    else
      var last := es[|es| - 1];
      var earlier := ResourceTree(es[..|es| - 1], host);
      Tree(earlier.files[PathOf(last) := EntryFile(last, host)],
           earlier.dirs + EntryDirs(last))
  }

  function WithFile(tree: Tree, path: string, file: File): Tree {
    tree.(files := tree.files[path := file])
  }

  function BeforeManifest(input: Input, host: Host): Tree {
    var reported := WithFile(ResourceTree(input.entries, host), REPORT_PATH, Encoded(ReportBody(OutputReport(input)), host));
    if input.errors == [] then reported
    else WithFile(reported, ERRORS_PATH, Encoded(ErrorsBody(input.errors), host))
  }

  /** Everything the writer intends to write. */
  function Output(input: Input, host: Host): Tree {
    WithFile(BeforeManifest(input, host), MANIFEST_PATH, Encoded(ManifestBody(OutputManifest(input)), host))
  }

  predicate SafeEntries(es: seq<Entry>, host: Host) {
    forall e :: e in es ==> SafeSegment(e.product, host) && SafeSegment(e.name, host)
  }

  predicate DistinctEntries(es: seq<Entry>) {
    forall i, j :: 0 <= i < j < |es| ==> es[i].Id() != es[j].Id()
  }

  /** The entries the writer can write: safe names, each key once. */
  predicate Writable(input: Input, host: Host) {
    SafeEntries(input.entries, host) && DistinctEntries(input.entries)
  }

  function EntryDirs(e: Entry): set<string> {
    {"resources", "resources/" + e.product}
  }

  // ------------------------------------------------------------ the steps

  /** The states the writer passes through: only directory id changes, and it holds
      no manifest yet. */
  ghost predicate Unfinished(history: seq<World>, n: nat, base: World, id: Id) {
    && OnlyInside(history, n, base, id)
    && forall k :: n <= k < |history| ==> MANIFEST_PATH !in TreeAt(history[k], id).files
  }

  /** The writer at work in directory id since state n. */
  ghost predicate Writing(disk: Disk, n: nat, base: World, id: Id)
    reads disk
  {
    && disk.Valid() && n <= |disk.history| && HoldsTree(disk.world, id)
    && disk.world == WithTree(base, id, TreeAt(disk.world, id))
    && MANIFEST_PATH !in TreeAt(disk.world, id).files
    && Unfinished(disk.history, n, base, id)
  }

  /** One file operation of the writer on directory id. */
  method WriteStep(disk: Disk, id: Id, tree: Tree, ghost n: nat, ghost base: World) returns (done: bool)
    requires Writing(disk, n, base, id) && MANIFEST_PATH !in tree.files
    modifies disk`world, disk`calls, disk`refusals, disk`history
    ensures Writing(disk, n, base, id) && old(disk.history) <= disk.history
    ensures TreeAt(disk.world, id) == if done then tree else old(TreeAt(disk.world, id))
    ensures disk.refusals >= old(disk.refusals) && (!done ==> disk.refusals > old(disk.refusals))
  {
    done := disk.Update(id, tree);
  }

  method Check(disk: Disk, ghost n: nat, ghost base: World, ghost id: Id) returns (ok: bool)
    requires Writing(disk, n, base, id)
    modifies disk`world, disk`calls, disk`refusals, disk`history
    ensures Writing(disk, n, base, id) && disk.history == old(disk.history) && disk.world == old(disk.world)
    ensures disk.refusals >= old(disk.refusals) && (!ok ==> disk.refusals > old(disk.refusals))
  {
    ok := disk.Passes();
  }

  /** ensureDirContext */
  method EnsureDir(disk: Disk, id: Id, dir: string, ghost n: nat, ghost base: World) returns (ok: bool)
    requires Writing(disk, n, base, id)
    modifies disk`world, disk`calls, disk`refusals, disk`history
    ensures Writing(disk, n, base, id) && old(disk.history) <= disk.history
    ensures ok ==> var before := old(TreeAt(disk.world, id)); TreeAt(disk.world, id) == before.(dirs := before.dirs + {dir})
    ensures disk.refusals >= old(disk.refusals) && (!ok ==> disk.refusals > old(disk.refusals))
  {
    ok := Check(disk, n, base, id);
    if !ok {
      return;
    }
    var tree := TreeAt(disk.world, id);
    if dir in tree.dirs {
      assert tree.dirs == tree.dirs + {dir};
      return true;
    }
    ok := WriteStep(disk, id, tree.(dirs := tree.dirs + {dir}), n, base);
  }

  method LongestName(files: set<string>) returns (longest: nat)
    ensures forall f :: f in files ==> |f| <= longest
  {
    longest := 0;
    var rest := files;
    while rest != {}
      invariant rest <= files && forall f :: f in files - rest ==> |f| <= longest
      decreases rest
    {
      var f :| f in rest;
      if |f| > longest {
        longest := |f|;
      }
      rest := rest - {f};
    }
  }

  /** os.CreateTemp: a name in the file's directory that nothing bears. */
  method TempName(tree: Tree, path: string) returns (temp: string)
    ensures temp !in tree.files && temp != MANIFEST_PATH && temp != path
  {
    var longest := LongestName(tree.files.Keys);
    var filler := seq(longest + |MANIFEST_PATH| + 1, i => '0');
    temp := path[..LastSlash(path) + 1] + ".tmp-" + path[LastSlash(path) + 1..] + "-" + filler;
  }

  /** writeFileExclusiveContext up to the final rename: the complete body stands in
      a temporary file; a failure removes that file again if it can. */
  method PrepareFile(disk: Disk, id: Id, path: string, file: File, ghost n: nat, ghost base: World)
    returns (ok: bool, temp: string)
    requires Writing(disk, n, base, id)
    modifies disk`world, disk`calls, disk`refusals, disk`history
    ensures Writing(disk, n, base, id) && old(disk.history) <= disk.history
    ensures ok ==> path !in old(TreeAt(disk.world, id)).files && temp !in old(TreeAt(disk.world, id)).files
    ensures ok ==> temp != path && TreeAt(disk.world, id) == WithFile(old(TreeAt(disk.world, id)), temp, file)
    ensures disk.refusals >= old(disk.refusals)
    ensures !ok ==> disk.refusals > old(disk.refusals) || path in old(TreeAt(disk.world, id)).files
  {
    var tree := TreeAt(disk.world, id);
    temp := "";
    ok := Check(disk, n, base, id);
    if !ok || path in tree.files {
      ok := false;
      return;
    }
    temp := TempName(tree, path);
    ok := WriteStep(disk, id, WithFile(tree, temp, File(Other, 0)), n, base);
    if !ok {
      return;
    }
    ok := WriteStep(disk, id, WithFile(tree, temp, file), n, base);
    if ok {
      ok := Check(disk, n, base, id);
    }
    if !ok {
      var _ := WriteStep(disk, id, tree, n, base);
      return;
    }
  }

  /** writeFileExclusiveContext of any file but the manifest. */
  method WriteFile(disk: Disk, id: Id, path: string, file: File, ghost n: nat, ghost base: World) returns (ok: bool)
    requires Writing(disk, n, base, id) && path != MANIFEST_PATH
    modifies disk`world, disk`calls, disk`refusals, disk`history
    ensures Writing(disk, n, base, id) && old(disk.history) <= disk.history
    ensures ok ==> path !in old(TreeAt(disk.world, id)).files
    ensures ok ==> TreeAt(disk.world, id) == WithFile(old(TreeAt(disk.world, id)), path, file)
    ensures disk.refusals >= old(disk.refusals)
    ensures !ok ==> disk.refusals > old(disk.refusals) || path in old(TreeAt(disk.world, id)).files
  {
    var tree := TreeAt(disk.world, id);
    var temp;
    ok, temp := PrepareFile(disk, id, path, file, n, base);
    if !ok {
      return;
    }
    ok := WriteStep(disk, id, WithFile(tree, path, file), n, base);
    if !ok {
      var _ := WriteStep(disk, id, tree, n, base);
    }
  }

  // ----------------------------------------- paths of different entries differ

  lemma ResourcePathInjective(p: string, n: string, p': string, n': string, host: Host)
    requires HostOk(host)
    requires SafeSegment(p, host) && SafeSegment(n, host) && SafeSegment(p', host) && SafeSegment(n', host)
    requires ResourcePath(p, n) == ResourcePath(p', n')
    ensures p == p' && n == n'
  {
    ResourceAncestors(p, n, host);
    ResourceAncestors(p', n', host);
    assert p == ("resources/" + p)[10..] && p' == ("resources/" + p')[10..];
    var s := ResourcePath(p, n);
    assert n == s[|"resources/" + p| + 1..|s| - 5];
    assert n' == s[|"resources/" + p'| + 1..|s| - 5];
  }

  lemma {:induction false} ResourceTreeFiles(es: seq<Entry>, host: Host)
    ensures ResourceTree(es, host).files.Keys == set e | e in es :: PathOf(e)
    ensures ResourceTree(es, host).dirs == set e, d | e in es && d in EntryDirs(e) :: d
  {
    if es != [] {
      var front, last := es[..|es| - 1], es[|es| - 1];
      ResourceTreeFiles(front, host);
      assert forall e :: e in es <==> e in front || e == last by {
        assert es == front + [last];
      }
    }
  }

  /** The path of an entry is unused while only other entries have been written. */
  lemma EntryPathUnused(es: seq<Entry>, e: Entry, host: Host)
    requires HostOk(host) && SafeSegment(e.product, host) && SafeSegment(e.name, host)
    requires SafeEntries(es, host)
    ensures PathOf(e) in ResourceTree(es, host).files <==> exists x :: x in es && x.Id() == e.Id()
  {
    ResourceTreeFiles(es, host);
    if PathOf(e) in ResourceTree(es, host).files {
      var x :| x in es && PathOf(x) == PathOf(e);
      ResourcePathInjective(x.product, x.name, e.product, e.name, host);
    }
  }

  lemma TopLevelUnused(es: seq<Entry>, host: Host)
    requires HostOk(host)
    requires SafeEntries(es, host)
    ensures ResourceTree(es, host).files.Keys !! {MANIFEST_PATH, REPORT_PATH, ERRORS_PATH}
  {
    ResourceTreeFiles(es, host);
    forall e | e in es ensures PathOf(e) !in {MANIFEST_PATH, REPORT_PATH, ERRORS_PATH} {
      ResourceAncestors(e.product, e.name, host);
      TopLevelNames();
      assert |Dir(PathOf(e))| > |"."|;
    }
  }

  // ------------------------------------------------------- the whole write

  function WithEntry(t: Tree, e: Entry, host: Host): Tree {
    Tree(t.files[PathOf(e) := EntryFile(e, host)], t.dirs + EntryDirs(e))
  }

  lemma ResourceTreeStep(es: seq<Entry>, k: nat, host: Host)
    requires k < |es|
    ensures ResourceTree(es[..k + 1], host) == WithEntry(ResourceTree(es[..k], host), es[k], host)
  {
    assert es[..k + 1][..k] == es[..k];
  }

  lemma EntryPathNotManifest(e: Entry, host: Host)
    requires HostOk(host) && SafeEntries([e], host)
    ensures PathOf(e) != MANIFEST_PATH
  {
    TopLevelUnused([e], host);
    ResourceTreeFiles([e], host);
    assert PathOf(e) in ResourceTree([e], host).files;
  }

  /** Entry k finds its path unused exactly when it repeats no earlier key. */
  lemma NextEntry(es: seq<Entry>, k: nat, host: Host)
    requires HostOk(host) && SafeEntries(es, host) && k < |es| && DistinctEntries(es[..k])
    ensures PathOf(es[k]) != MANIFEST_PATH
    ensures PathOf(es[k]) in ResourceTree(es[..k], host).files ==> !DistinctEntries(es)
    ensures PathOf(es[k]) !in ResourceTree(es[..k], host).files ==> DistinctEntries(es[..k + 1])
  {
    assert es[k] in es;
    assert forall e :: e in es[..k] ==> e in es;
    EntryPathUnused(es[..k], es[k], host);
    EntryPathNotManifest(es[k], host);
    if PathOf(es[k]) in ResourceTree(es[..k], host).files {
      var x :| x in es[..k] && x.Id() == es[k].Id();
      var i :| 0 <= i < k && es[..k][i] == x;
      assert es[i].Id() == es[k].Id();
    } else {
      forall i | 0 <= i < k ensures es[i].Id() != es[k].Id() {
        assert es[..k][i] in es[..k];
      }
      assert forall i :: 0 <= i < k ==> es[..k][i] == es[i];
    }
  }

  /** buildResourceTargetsContext: every entry's product and name are safe. */
  method CheckTargets(entries: seq<Entry>, host: Host) returns (ok: bool)
    ensures ok <==> SafeEntries(entries, host)
  {
    for i := 0 to |entries|
      invariant forall k :: 0 <= k < i ==> SafeSegment(entries[k].product, host) && SafeSegment(entries[k].name, host)
    {
      var product := CheckSafeSegment(entries[i].product, host);
      if !product {
        return false;
      }
      var name := CheckSafeSegment(entries[i].name, host);
      if !name {
        return false;
      }
    }
    return true;
  }

  /** The names it accepts: letters, digits, hyphens and underscores, and at least one. */
  lemma SafeEntriesExactly(entries: seq<Entry>, host: Host)
    ensures SafeEntries(entries, host) <==>
      forall e, s :: e in entries && (s == e.product || s == e.name) ==>
        s != "" && forall i :: 0 <= i < |s| ==> host.isWord(s[i]) || s[i] in {'-', '_'}
  {
    if forall e, s :: e in entries && (s == e.product || s == e.name) ==>
         s != "" && forall i :: 0 <= i < |s| ==> host.isWord(s[i]) || s[i] in {'-', '_'} {
      forall e | e in entries ensures SafeSegment(e.product, host) && SafeSegment(e.name, host) {
        assert e.product == e.product && e.name == e.name;
      }
    }
  }

  /** One entry: its directories, then its file. */
  method WriteEntry(disk: Disk, id: Id, e: Entry, host: Host, ghost n: nat, ghost base: World) returns (ok: bool)
    requires Writing(disk, n, base, id) && PathOf(e) != MANIFEST_PATH
    modifies disk`world, disk`calls, disk`refusals, disk`history
    ensures Writing(disk, n, base, id) && old(disk.history) <= disk.history
    ensures ok ==> var t := old(TreeAt(disk.world, id));
      && PathOf(e) !in t.files
      && TreeAt(disk.world, id) == WithEntry(t, e, host)
    ensures disk.refusals >= old(disk.refusals)
    ensures !ok ==> disk.refusals > old(disk.refusals) || PathOf(e) in old(TreeAt(disk.world, id)).files
  {
    ok := EnsureDir(disk, id, "resources", n, base);
    if !ok {
      return;
    }
    ok := EnsureDir(disk, id, "resources/" + e.product, n, base);
    if !ok {
      return;
    }
    assert TreeAt(disk.world, id).dirs == old(TreeAt(disk.world, id)).dirs + EntryDirs(e);
    ok := WriteFile(disk, id, PathOf(e), EntryFile(e, host), n, base);
  }

  lemma RowsStep(entries: seq<Entry>, k: nat)
    requires k < |entries|
    ensures EntryRows(entries[..k + 1]) == EntryRows(entries[..k]) + [EntryRow(entries[k])]
    ensures EntryReports(entries[..k + 1]) == EntryReports(entries[..k]) + [EntryReport(entries[k])]
  {
    assert entries[..k + 1] == entries[..k] + [entries[k]];
  }

  method WriteEntries(disk: Disk, id: Id, entries: seq<Entry>, host: Host, ghost n: nat, ghost base: World)
    returns (ok: bool, rows: seq<ManifestResource>, reports: seq<ResourceReport>)
    requires Writing(disk, n, base, id) && TreeAt(disk.world, id) == EMPTY_TREE && HostOk(host)
    requires SafeEntries(entries, host)
    modifies disk`world, disk`calls, disk`refusals, disk`history
    ensures Writing(disk, n, base, id) && old(disk.history) <= disk.history
    ensures ok ==> TreeAt(disk.world, id) == ResourceTree(entries, host)
    ensures ok ==> rows == EntryRows(entries) && reports == EntryReports(entries)
    ensures ok ==> DistinctEntries(entries)
    ensures disk.refusals >= old(disk.refusals)
    ensures !ok ==> disk.refusals > old(disk.refusals) || !DistinctEntries(entries)
  {
    ok, rows, reports := true, [], [];
    for k := 0 to |entries|
      invariant Writing(disk, n, base, id) && old(disk.history) <= disk.history
      invariant TreeAt(disk.world, id) == ResourceTree(entries[..k], host)
      invariant rows == EntryRows(entries[..k]) && reports == EntryReports(entries[..k])
      invariant DistinctEntries(entries[..k])
      invariant disk.refusals >= old(disk.refusals)
    {
      NextEntry(entries, k, host);
      ResourceTreeStep(entries, k, host);
      ok := WriteEntry(disk, id, entries[k], host, n, base);
      if !ok {
        return;
      }
      RowsStep(entries, k);
      rows := rows + [EntryRow(entries[k])];
      reports := reports + [EntryReport(entries[k])];
    }
    assert entries[..|entries|] == entries;
  }

  /** The report and, if there are failures, the error rows. */
  method WriteReports(disk: Disk, id: Id, input: Input, reports: seq<ResourceReport>, host: Host, ghost n: nat, ghost base: World)
    returns (ok: bool)
    requires Writing(disk, n, base, id) && HostOk(host) && SafeEntries(input.entries, host)
    requires TreeAt(disk.world, id) == ResourceTree(input.entries, host) && reports == EntryReports(input.entries)
    modifies disk`world, disk`calls, disk`refusals, disk`history
    ensures Writing(disk, n, base, id) && old(disk.history) <= disk.history
    ensures ok ==> TreeAt(disk.world, id) == BeforeManifest(input, host)
    ensures disk.refusals >= old(disk.refusals) && (!ok ==> disk.refusals > old(disk.refusals))
  {
    TopLevelUnused(input.entries, host);
    var report := RedactionReport(REPORT_SCHEMA, EffectiveMode(input.mode), Some(reports));
    ok := WriteFile(disk, id, REPORT_PATH, Encoded(ReportBody(report), host), n, base);
    if ok && |input.errors| > 0 {
      ok := WriteFile(disk, id, ERRORS_PATH, Encoded(ErrorsBody(input.errors), host), n, base);
    }
  }

  lemma PathsDiffer(e: Entry, other: Entry, host: Host)
    requires HostOk(host) && SafeEntries([e, other], host) && e.Id() != other.Id()
    ensures PathOf(e) != PathOf(other)
  {
    assert e in [e, other] && other in [e, other];
    if PathOf(e) == PathOf(other) {
      ResourcePathInjective(e.product, e.name, other.product, other.name, host);
      assert false;
    }
  }

  lemma EarlierPathsDiffer(es: seq<Entry>, host: Host)
    requires HostOk(host) && SafeEntries(es, host) && DistinctEntries(es) && es != []
    ensures forall e :: e in es[..|es| - 1] ==> PathOf(e) != PathOf(es[|es| - 1])
  {
    var n := |es| - 1;
    forall e | e in es[..n] ensures PathOf(e) != PathOf(es[n]) {
      var i :| 0 <= i < n && es[..n][i] == e;
      assert es[i].Id() != es[n].Id();
      assert es[i] in es && es[n] in es;
      PathsDiffer(e, es[n], host);
    }
  }

  /** The file of an entry is where it should be. */
  predicate FileStands(files: map<string, File>, e: Entry, host: Host) {
    PathOf(e) in files && files[PathOf(e)] == EntryFile(e, host)
  }

  lemma StandsAfter(files: map<string, File>, e: Entry, last: Entry, host: Host)
    requires e == last || (FileStands(files, e, host) && PathOf(e) != PathOf(last))
    ensures FileStands(files[PathOf(last) := EntryFile(last, host)], e, host)
  {
  }

  lemma {:induction false} EntryFilesKept(es: seq<Entry>, host: Host)
    requires HostOk(host) && SafeEntries(es, host) && DistinctEntries(es)
    ensures forall e :: e in es ==> FileStands(ResourceTree(es, host).files, e, host)
  {
    if es != [] {
      var front, last := es[..|es| - 1], es[|es| - 1];
      assert es == front + [last];
      assert forall e :: e in front ==> e in es;
      EntryFilesKept(front, host);
      EarlierPathsDiffer(es, host);
      forall e | e in es ensures FileStands(ResourceTree(es, host).files, e, host) {
        StandsAfter(ResourceTree(front, host).files, e, last, host);
      }
    }
  }

  // ------------------------------------------- what a finished write holds

  /** The payload of an entry as it is read back: the object itself, or an array with
      each record in its place. */
  predicate HoldsRecords(body: Body, payload: Payload) {
    && body.ResourceBody?
    && match payload
       case Record(fields) => body.payload == Object(fields)
       case Records(records) =>
         && body.payload.Array? && |body.payload.items| == |records|
         && forall i :: 0 <= i < |records| ==> body.payload.items[i] == Object(records[i])
  }

  predicate HoldsEntry(tree: Tree, e: Entry) {
    var path := "resources/" + e.product + "/" + e.name + ".json";
    path in tree.files && HoldsRecords(tree.files[path].body, e.payload)
  }

  /** A manifest row of an entry, and the row of its redaction report. */
  predicate RowOf(row: ManifestResource, e: Entry) {
    && row.product == e.product && row.name == e.name && row.status == "ok"
    && row.shape == (if e.shape == "list" then "" else e.shape)
    && row.path == "resources/" + e.product + "/" + e.name + ".json"
    && row.records == (match e.payload case Record(_) => 1 case Records(records) => |records|)
    && row.operation == "" && row.errorKind == ""
  }

  predicate ReportOf(row: ResourceReport, e: Entry) {
    && row.product == e.product && row.name == e.name
    && row.path == "resources/" + e.product + "/" + e.name + ".json"
    && row.records == (match e.payload case Record(_) => 1 case Records(records) => |records|)
  }

  /** A manifest row of a failure. */
  predicate FailureOf(row: ManifestResource, e: ResourceError) {
    && row.product == e.product && row.name == e.name && row.status == "error"
    && row.operation == e.operation && row.errorKind == e.kind
    && row.shape == "" && row.path == "" && row.records == 0
  }

  predicate HoldsManifest(tree: Tree, input: Input) {
    && "manifest.json" in tree.files && tree.files["manifest.json"].body.ManifestBody?
    && var m := tree.files["manifest.json"].body.manifest;
    && m.schema == "zscalerctl.dump.manifest.v2" && m.collectedAt == input.collectedAt && m.toolVersion == input.toolVersion
    && m.redaction == (if input.mode == "" then "standard" else input.mode)
    && m.warning == "sanitized dumps remain confidential operational data"
    && m.status == (if input.errors == [] then "complete" else "partial") && m.errors == |input.errors|
    && m.errorsPath == (if input.errors == [] then "" else "errors.ndjson")
    && m.resources.Some? && |m.resources.value| == |input.entries| + |input.errors|
    && (forall i :: 0 <= i < |input.entries| ==> RowOf(m.resources.value[i], input.entries[i]))
    && (forall i :: 0 <= i < |input.errors| ==> FailureOf(m.resources.value[|input.entries| + i], input.errors[i]))
  }

  predicate HoldsReport(tree: Tree, input: Input) {
    && "redaction_report.json" in tree.files && tree.files["redaction_report.json"].body.ReportBody?
    && var r := tree.files["redaction_report.json"].body.report;
    && r.schema == "zscalerctl.redaction_report.v1" && r.redaction == (if input.mode == "" then "standard" else input.mode)
    && r.resources.Some? && |r.resources.value| == |input.entries|
    && (forall i :: 0 <= i < |input.entries| ==> ReportOf(r.resources.value[i], input.entries[i]))
  }

  predicate HoldsFailures(tree: Tree, input: Input) {
    if input.errors == [] then "errors.ndjson" !in tree.files
    else "errors.ndjson" in tree.files && tree.files["errors.ndjson"].body == ErrorsBody(input.errors)
  }

  /** Every entry, the three metadata files, and no other file. */
  ghost predicate Written(tree: Tree, input: Input) {
    && (forall e :: e in input.entries ==> HoldsEntry(tree, e))
    && HoldsManifest(tree, input) && HoldsReport(tree, input) && HoldsFailures(tree, input)
    && HoldsNoMore(tree, input)
  }

  ghost predicate HoldsNoMore(tree: Tree, input: Input) {
    forall path :: path in tree.files ==>
      || path in {"manifest.json", "redaction_report.json", "errors.ndjson"}
      || exists e :: e in input.entries && path == "resources/" + e.product + "/" + e.name + ".json"
  }

  lemma OutputEntries(input: Input, host: Host)
    requires HostOk(host) && Writable(input, host)
    ensures forall e :: e in input.entries ==> HoldsEntry(Output(input, host), e)
  {
    TopLevelUnused(input.entries, host);
    EntryFilesKept(input.entries, host);
  }

  lemma OutputManifestHeld(input: Input, host: Host)
    ensures HoldsManifest(Output(input, host), input)
  {
    var rows := OutputManifest(input).resources.value;
    forall i | 0 <= i < |input.errors| ensures FailureOf(rows[|input.entries| + i], input.errors[i]) {
      assert rows[|input.entries| + i] == ErrorRow(input.errors[i]);
    }
  }

  lemma OutputReportHeld(input: Input, host: Host)
    ensures HoldsReport(Output(input, host), input)
  {
    assert MANIFEST_PATH != REPORT_PATH && ERRORS_PATH != REPORT_PATH by {
      assert "manifest.json"[0] == 'm' && "redaction_report.json"[0] == 'r' && "errors.ndjson"[0] == 'e';
    }
  }

  lemma OutputFailuresHeld(input: Input, host: Host)
    requires HostOk(host) && Writable(input, host)
    ensures HoldsFailures(Output(input, host), input)
  {
    TopLevelUnused(input.entries, host);
    assert MANIFEST_PATH != ERRORS_PATH && REPORT_PATH != ERRORS_PATH by {
      assert "manifest.json"[0] == 'm' && "redaction_report.json"[0] == 'r' && "errors.ndjson"[0] == 'e';
    }
  }

  lemma OutputHoldsNoMore(input: Input, host: Host)
    requires HostOk(host) && Writable(input, host)
    ensures HoldsNoMore(Output(input, host), input)
  {
    ResourceTreeFiles(input.entries, host);
  }

  /** The writer writes its input, the whole of it and nothing else. */
  lemma OutputWritten(input: Input, host: Host)
    requires HostOk(host) && Writable(input, host)
    ensures Written(Output(input, host), input)
  {
    OutputEntries(input, host);
    OutputManifestHeld(input, host);
    OutputReportHeld(input, host);
    OutputFailuresHeld(input, host);
    OutputHoldsNoMore(input, host);
  }

  /** The steps of writeArtifactContext: the manifest comes last. */
  method WriteAll(disk: Disk, id: Id, input: Input, host: Host) returns (ok: bool)
    requires disk.Valid() && HoldsTree(disk.world, id) && TreeAt(disk.world, id) == EMPTY_TREE && HostOk(host)
    modifies disk`world, disk`calls, disk`refusals, disk`history
    ensures disk.Valid() && HoldsTree(disk.world, id) && old(disk.history) <= disk.history
    ensures OnlyInside(disk.history, |old(disk.history)|, old(disk.world), id)
    ensures disk.world == WithTree(old(disk.world), id, TreeAt(disk.world, id))
    ensures ok ==> TreeAt(disk.world, id) == Output(input, host) && Writable(input, host)
    ensures forall k :: |old(disk.history)| <= k < |disk.history| - (if ok then 1 else 0) ==>
      MANIFEST_PATH !in TreeAt(disk.history[k], id).files
    ensures forall k :: |old(disk.history)| <= k < |disk.history| - (if ok then 1 else 0) ==>
      !Accepts(TreeAt(disk.history[k], id), host)
    ensures ok || !Accepts(TreeAt(disk.world, id), host)
    ensures disk.refusals >= old(disk.refusals)
    ensures !ok ==> disk.refusals > old(disk.refusals) || !Writable(input, host)
  {
    ghost var n, base := |disk.history|, disk.world;
    assert disk.world == WithTree(base, id, TreeAt(disk.world, id));
    var rows;
    ok, rows := WriteBefore(disk, id, input, host, n, base);
    if !ok {
      return;
    }
    var manifest := Manifest(
      MANIFEST_SCHEMA, input.collectedAt, input.toolVersion, EffectiveMode(input.mode), WARNING,
      if |input.errors| > 0 then "partial" else "complete", |input.errors|,
      if |input.errors| > 0 then ERRORS_PATH else "", Some(rows));
    assert manifest == OutputManifest(input);
    ok := FinishManifest(disk, id, BeforeManifest(input, host), Encoded(ManifestBody(manifest), host), n, base);
  }

  /** Everything but the manifest, and the rows it will have. */
  method WriteBefore(disk: Disk, id: Id, input: Input, host: Host, ghost n: nat, ghost base: World)
    returns (ok: bool, rows: seq<ManifestResource>)
    requires Writing(disk, n, base, id) && TreeAt(disk.world, id) == EMPTY_TREE && HostOk(host)
    modifies disk`world, disk`calls, disk`refusals, disk`history
    ensures Writing(disk, n, base, id) && old(disk.history) <= disk.history
    ensures ok ==> TreeAt(disk.world, id) == BeforeManifest(input, host) && Writable(input, host)
    ensures ok ==> rows == EntryRows(input.entries) + ErrorRows(input.errors)
    ensures disk.refusals >= old(disk.refusals)
    ensures !ok ==> disk.refusals > old(disk.refusals) || !Writable(input, host)
  {
    rows := [];
    ok := CheckTargets(input.entries, host);
    if !ok {
      return;
    }
    ok := Check(disk, n, base, id);
    if !ok {
      return;
    }
    var reports;
    ok, rows, reports := WriteEntries(disk, id, input.entries, host, n, base);
    if !ok {
      return;
    }
    rows := AppendErrorRows(rows, input.errors);
    ok := WriteReports(disk, id, input, reports, host, n, base);
  }

  /** writeArtifactContext. */
  method WriteArtifact(disk: Disk, id: Id, input: Input, host: Host) returns (ok: bool)
    requires disk.Valid() && HoldsTree(disk.world, id) && TreeAt(disk.world, id) == EMPTY_TREE && HostOk(host)
    modifies disk`world, disk`calls, disk`refusals, disk`history
    ensures disk.Valid() && HoldsTree(disk.world, id) && old(disk.history) <= disk.history
    ensures OnlyInside(disk.history, |old(disk.history)|, old(disk.world), id)
    ensures disk.world == WithTree(old(disk.world), id, TreeAt(disk.world, id))
    ensures ok ==> TreeAt(disk.world, id) == Output(input, host) && Writable(input, host)
    ensures ok ==> Written(TreeAt(disk.world, id), input)
    ensures forall k :: |old(disk.history)| <= k < |disk.history| - (if ok then 1 else 0) ==>
      MANIFEST_PATH !in TreeAt(disk.history[k], id).files
    ensures forall k :: |old(disk.history)| <= k < |disk.history| - (if ok then 1 else 0) ==>
      !Accepts(TreeAt(disk.history[k], id), host)
    ensures ok || !Accepts(TreeAt(disk.world, id), host)
    ensures disk.refusals >= old(disk.refusals)
    ensures !ok ==> disk.refusals > old(disk.refusals) || !Writable(input, host)
  {
    ok := WriteAll(disk, id, input, host);
    if ok {
      OutputWritten(input, host);
    }
  }

  method AppendErrorRows(rows: seq<ManifestResource>, errors: seq<ResourceError>) returns (all: seq<ManifestResource>)
    ensures all == rows + ErrorRows(errors)
  {
    all := rows;
    for i := 0 to |errors|
      invariant all == rows + ErrorRows(errors[..i])
    {
      assert ErrorRows(errors[..i + 1]) == ErrorRows(errors[..i]) + [ErrorRow(errors[i])];
      all := all + [ErrorRow(errors[i])];
    }
    assert errors[..|errors|] == errors;
  }

  /** The rename that turns the finished directory into an artifact. */
  method FinishManifest(disk: Disk, id: Id, tree: Tree, file: File, ghost n: nat, ghost base: World) returns (ok: bool)
    requires Writing(disk, n, base, id) && TreeAt(disk.world, id) == tree
    modifies disk`world, disk`calls, disk`refusals, disk`history
    ensures disk.Valid() && HoldsTree(disk.world, id) && old(disk.history) <= disk.history
    ensures OnlyInside(disk.history, n, base, id)
    ensures disk.world == WithTree(base, id, TreeAt(disk.world, id))
    ensures ok ==> TreeAt(disk.world, id) == WithFile(tree, MANIFEST_PATH, file)
    ensures forall k :: n <= k < |disk.history| - (if ok then 1 else 0) ==> MANIFEST_PATH !in TreeAt(disk.history[k], id).files
    ensures ok || MANIFEST_PATH !in TreeAt(disk.world, id).files
    ensures disk.refusals >= old(disk.refusals) && (!ok ==> disk.refusals > old(disk.refusals))
  {
    var temp;
    ok, temp := PrepareFile(disk, id, MANIFEST_PATH, file, n, base);
    if !ok {
      return;
    }
    ok := disk.Update(id, WithFile(tree, MANIFEST_PATH, file));
    if !ok {
      var _ := WriteStep(disk, id, tree, n, base);
    }
  }
}
