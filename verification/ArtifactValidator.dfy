// The strict validator of internal/dump/artifact.go as it runs: loops that fill
// the seen, expected and inventory collections, each proved to decide the
// corresponding declarative condition of the Artifact module.
module ArtifactValidator {
  import opened Options
  import opened Artifact

  // ------------------------------------------------------- the manifest

  /** What validateManifest hands on. */
  datatype Checked = Checked(
    mode: string,
    ok: map<Key, ManifestResource>, failed: map<Key, ManifestResource>,
    files: set<string>, dirs: set<string>)

  method CheckSafeSegment(value: string, host: Host) returns (ok: bool)
    ensures ok <==> SafeSegment(value, host)
  {
    if value == "" {
      return false;
    }
    for i := 0 to |value|
      invariant forall k :: 0 <= k < i ==> host.isWord(value[k]) || value[k] == '-' || value[k] == '_'
    {
      if host.isWord(value[i]) || value[i] == '-' || value[i] == '_' {
        continue;
      }
      return false;
    }
    return true;
  }

  method AddExpectedDirs(expected: set<string>, path: string) returns (dirs: set<string>)
    ensures dirs == expected + Ancestors(path)
  {
    dirs := expected;
    var dir := path;
    while LastSlash(dir) > 0
      invariant dirs + Ancestors(dir) == expected + Ancestors(path)
      decreases |dir|
    {
      dir := Dir(dir);
      dirs := dirs + {dir};
    }
  }

  method CheckResource(r: ManifestResource, host: Host) returns (ok: bool)
    ensures ok <==> ResourceOk(r, host)
  {
    ok := CheckSafeSegment(r.product, host);
    if !ok {
      return;
    }
    ok := CheckSafeSegment(r.name, host);
    if !ok {
      return;
    }
    if r.records < 0 {
      return false;
    }
    if r.status == "ok" {
      return r.shape in {"", "singleton"} && r.path == ResourcePath(r.product, r.name)
          && r.operation == "" && r.errorKind == "";
    }
    if r.status == "error" {
      return r.path == "" && r.records == 0 && r.shape == ""
          && r.operation in {"list", "show"} && !Blank(r.errorKind);
    }
    return false;
  }

  lemma DistinctSnoc(keys: seq<Key>, key: Key)
    ensures Distinct(keys + [key]) <==> Distinct(keys) && key !in keys
  {
    var longer := keys + [key];
    if Distinct(longer) {
      forall i, j | 0 <= i < j < |keys| ensures keys[i] != keys[j] {
        assert longer[i] != longer[j];
      }
      forall i | 0 <= i < |keys| ensures keys[i] != key {
        assert longer[i] != longer[|keys|];
      }
    }
  }

  lemma FilesSnoc(rs: seq<ManifestResource>, r: ManifestResource)
    ensures ResourceFiles(rs + [r]) == ResourceFiles(rs) + if r.status == "ok" then {r.path} else {}
    ensures ResourceDirs(rs + [r]) == ResourceDirs(rs) + if r.status == "ok" then Ancestors(r.path) else {}
  {
    assert forall x :: x in rs + [r] <==> x in rs || x == r;
  }

  /** The resource loop after some resources: all of them in order, their keys seen. */
  ghost predicate LoopKeys(rs: seq<ManifestResource>, seen: set<Key>, host: Host) {
    && (forall i :: 0 <= i < |rs| ==> ResourceOk(rs[i], host))
    && Distinct(ManifestKeys(rs))
    && seen == (set key | key in ManifestKeys(rs))
  }

  ghost predicate LoopSets(rs: seq<ManifestResource>, c: Checked) {
    && c.ok == WithStatus(rs, "ok") && c.failed == WithStatus(rs, "error")
    && c.files == {MANIFEST_PATH, REPORT_PATH} + ResourceFiles(rs)
    && c.dirs == ResourceDirs(rs)
  }

  lemma LoopKeysSnoc(rs: seq<ManifestResource>, r: ManifestResource, seen: set<Key>, host: Host)
    requires LoopKeys(rs, seen, host) && ResourceOk(r, host) && r.Id() !in seen
    ensures LoopKeys(rs + [r], seen + {r.Id()}, host)
  {
    assert ManifestKeys(rs + [r]) == ManifestKeys(rs) + [r.Id()];
    DistinctSnoc(ManifestKeys(rs), r.Id());
  }

  function AddResource(c: Checked, r: ManifestResource): Checked {
    if r.status == "ok" then c.(ok := c.ok[r.Id() := r], files := c.files + {r.path}, dirs := c.dirs + Ancestors(r.path))
    else c.(failed := c.failed[r.Id() := r])
  }

  lemma LoopSetsSnoc(rs: seq<ManifestResource>, r: ManifestResource, c: Checked)
    requires LoopSets(rs, c) && r.status in {"ok", "error"}
    ensures LoopSets(rs + [r], AddResource(c, r))
  {
    assert (rs + [r])[..|rs|] == rs;
    FilesSnoc(rs, r);
  }

  lemma BadResource(rs: seq<ManifestResource>, i: nat, seen: set<Key>, host: Host)
    requires i < |rs| && LoopKeys(rs[..i], seen, host)
    requires !ResourceOk(rs[i], host) || rs[i].Id() in seen
    ensures !(forall k :: 0 <= k < |rs| ==> ResourceOk(rs[k], host)) || !Distinct(ManifestKeys(rs))
  {
    if rs[i].Id() in seen {
      var k :| 0 <= k < i && ManifestKeys(rs[..i])[k] == rs[i].Id();
      assert ManifestKeys(rs)[k] == ManifestKeys(rs)[i];
    }
  }

  method CheckResources(rs: seq<ManifestResource>, mode: string, host: Host) returns (result: Option<Checked>)
    ensures result.Some? <==>
      (forall i :: 0 <= i < |rs| ==> ResourceOk(rs[i], host)) && Distinct(ManifestKeys(rs))
    ensures result.Some? ==> result.value.mode == mode && LoopSets(rs, result.value)
  {
    var c := Checked(mode, map[], map[], {MANIFEST_PATH, REPORT_PATH}, {});
    var seen: set<Key> := {};
    for i := 0 to |rs|
      invariant LoopKeys(rs[..i], seen, host) && LoopSets(rs[..i], c) && c.mode == mode
    {
      var r := rs[i];
      assert rs[..i + 1] == rs[..i] + [r];
      var ok := CheckResource(r, host);
      if !ok || r.Id() in seen {
        BadResource(rs, i, seen, host);
        return None;
      }
      LoopKeysSnoc(rs[..i], r, seen, host);
      LoopSetsSnoc(rs[..i], r, c);
      seen := seen + {r.Id()};
      if r.status == "ok" {
        var dirs := AddExpectedDirs(c.dirs, r.path);
        c := c.(ok := c.ok[r.Id() := r], files := c.files + {r.path}, dirs := dirs);
      } else {
        c := c.(failed := c.failed[r.Id() := r]);
      }
    }
    assert rs[..|rs|] == rs;
    return Some(c);
  }

  /** validateManifest */
  method ValidateManifest(m: Manifest, host: Host) returns (result: Option<Checked>)
    ensures result.Some? <==> ManifestOk(m, host)
    ensures result.Some? ==>
      result.value.mode == ParseMode(m.redaction).value && LoopSets(m.resources.value, result.value)
  {
    if m.schema != MANIFEST_SCHEMA || !host.isTime(m.collectedAt) || Blank(m.toolVersion) {
      return None;
    }
    var mode := ParseMode(m.redaction);
    if mode.None? || Blank(m.warning) || m.resources.None? {
      return None;
    }
    if m.status !in {"complete", "partial"} {
      return None;
    }
    result := CheckResources(m.resources.value, mode.value, host);
    if result.None? {
      return None;
    }
    if m.status == "complete" {
      if m.errors != 0 || m.errorsPath != "" || |result.value.failed| != 0 {
        return None;
      }
    } else {
      if m.errors <= 0 || m.errorsPath != ERRORS_PATH || m.errors != |result.value.failed| {
        return None;
      }
    }
  }

  // --------------------------------------------- report, errors, payloads

  lemma SeenCount(keys: seq<Key>)
    requires Distinct(keys)
    ensures |set key | key in keys| == |keys|
    decreases |keys|
  {
    if keys != [] {
      var front, last := keys[..|keys| - 1], keys[|keys| - 1];
      DistinctSnoc(front, last);
      assert keys == front + [last];
      SeenCount(front);
      assert (set key | key in keys) == (set key | key in front) + {last};
    }
  }

  lemma RepeatedKey(keys: seq<Key>, i: nat)
    requires i < |keys| && keys[i] in keys[..i]
    ensures !Distinct(keys)
  {
    var k :| 0 <= k < i && keys[..i][k] == keys[i];
    assert keys[k] == keys[i];
  }

  method CheckEntries(rs: seq<ResourceReport>, ok: map<Key, ManifestResource>) returns (seen: Option<set<Key>>)
    ensures seen.Some? <==> (forall i :: 0 <= i < |rs| ==> EntryOk(rs[i], ok)) && Distinct(ReportKeys(rs))
    ensures seen.Some? ==> |seen.value| == |rs|
  {
    ghost var keys := ReportKeys(rs);
    var found: set<Key> := {};
    for i := 0 to |rs|
      invariant forall k :: 0 <= k < i ==> EntryOk(rs[k], ok)
      invariant Distinct(keys[..i])
      invariant found == (set key | key in keys[..i])
    {
      var r := rs[i];
      if r.Id() !in ok {
        return None;
      }
      if r.Id() in found {
        RepeatedKey(keys, i);
        return None;
      }
      assert keys[..i + 1] == keys[..i] + [r.Id()];
      DistinctSnoc(keys[..i], r.Id());
      found := found + {r.Id()};
      if r.path != ok[r.Id()].path || r.records != ok[r.Id()].records {
        return None;
      }
    }
    assert keys[..|rs|] == keys;
    SeenCount(keys);
    return Some(found);
  }

  /** validateRedactionReport */
  method ValidateReport(report: RedactionReport, mode: string, ok: map<Key, ManifestResource>) returns (valid: bool)
    ensures valid <==> ReportOk(report, mode, ok)
  {
    if report.schema != REPORT_SCHEMA || report.redaction != mode || report.resources.None? {
      return false;
    }
    var seen := CheckEntries(report.resources.value, ok);
    return seen.Some? && |seen.value| == |ok|;
  }

  /** The loop of validateArtifactErrors over the decoded rows. */
  method ValidateRows(rows: seq<ResourceError>, m: Manifest, failed: map<Key, ManifestResource>) returns (valid: bool)
    ensures valid <==> RowsOk(rows, m, failed)
  {
    ghost var keys := ErrorKeys(rows);
    var seen: set<Key> := {};
    for i := 0 to |rows|
      invariant forall k :: 0 <= k < i ==> RowOk(rows[k], failed)
      invariant Distinct(keys[..i])
      invariant seen == (set key | key in keys[..i])
    {
      var e := rows[i];
      if e.schema != ERROR_SCHEMA || e.Id() !in failed {
        return false;
      }
      if e.Id() in seen {
        RepeatedKey(keys, i);
        return false;
      }
      assert keys[..i + 1] == keys[..i] + [e.Id()];
      DistinctSnoc(keys[..i], e.Id());
      seen := seen + {e.Id()};
      if e.operation != failed[e.Id()].operation || e.kind != failed[e.Id()].errorKind {
        return false;
      }
    }
    assert keys[..|rows|] == keys;
    SeenCount(keys);
    return |rows| == m.errors && |seen| == |failed|;
  }

  method ValidateErrors(tree: Tree, m: Manifest, failed: map<Key, ManifestResource>) returns (valid: bool)
    requires m.resources.Some? && failed == WithStatus(m.resources.value, "error")
    ensures valid <==> ErrorsOk(tree, m)
  {
    if m.status == "complete" {
      return ERRORS_PATH !in tree.files && ERRORS_PATH !in tree.dirs;
    }
    if !HasFile(tree, m.errorsPath, MAX_ERRORS_BYTES) || !tree.files[m.errorsPath].body.ErrorsBody? {
      return false;
    }
    valid := ValidateRows(tree.files[m.errorsPath].body.rows, m, failed);
  }

  method ValidatePayloads(tree: Tree, rs: seq<ManifestResource>) returns (valid: bool)
    ensures valid <==> PayloadsOk(tree, rs)
  {
    for i := 0 to |rs|
      invariant forall k :: 0 <= k < i && rs[k].status == "ok" ==> PayloadOk(tree, rs[k])
    {
      if rs[i].status != "ok" {
        continue;
      }
      if !HasFile(tree, rs[i].path, MAX_RESOURCE_BYTES) || !tree.files[rs[i].path].body.ResourceBody? {
        return false;
      }
      if PayloadCount(tree.files[rs[i].path].body.payload) != Some(rs[i].records) {
        return false;
      }
    }
    return true;
  }

  // ---------------------------------------------------------- inventory

  /** Every listed directory and file sits in a listed directory or at the root. */
  predicate TreeOk(tree: Tree) {
    && tree.files.Keys !! tree.dirs
    && forall e :: e in tree.files.Keys + tree.dirs ==>
      e != "" && e != "." && (Dir(e) == "." || Dir(e) in tree.dirs)
  }

  function Entries(tree: Tree): set<string> {
    tree.files.Keys + tree.dirs
  }

  /** e lies somewhere below directory path. */
  predicate Under(e: string, path: string)
    decreases |e|
  {
    Dir(e) == path || (LastSlash(e) > 0 && Under(Dir(e), path))
  }

  function Below(tree: Tree, path: string): set<string> {
    set e | e in Entries(tree) && Under(e, path)
  }

  function Children(tree: Tree, path: string): set<string> {
    set e | e in Entries(tree) && Dir(e) == path
  }

  predicate Wanted(tree: Tree, e: string, files: set<string>, dirs: set<string>)
    requires e in Entries(tree)
  {
    if e in tree.dirs then e !in files && e in dirs else e in files
  }

  lemma {:induction false} AllUnderRoot(tree: Tree, e: string)
    requires TreeOk(tree) && e in Entries(tree)
    ensures Under(e, ".")
    decreases |e|
  {
    if Dir(e) != "." {
      AllUnderRoot(tree, Dir(e));
    }
  }

  lemma {:induction false} UnderLonger(e: string, path: string)
    requires Under(e, path) && path != "."
    ensures |e| > |path|
    decreases |e|
  {
    if Dir(e) != path {
      UnderLonger(Dir(e), path);
    }
  }

  /** What lies below a directory lies in it, or below one of its directories. */
  lemma {:induction false} UnderViaChild(tree: Tree, e: string, path: string) returns (child: string)
    requires TreeOk(tree) && e in Entries(tree) && Under(e, path)
    ensures child in Children(tree, path)
    ensures child == e || (child in tree.dirs && Under(e, child))
    decreases |e|
  {
    if Dir(e) == path {
      child := e;
    } else {
      assert Dir(e) in tree.dirs;
      child := UnderViaChild(tree, Dir(e), path);
    }
  }

  lemma {:induction false} UnderTransitive(e: string, child: string, path: string)
    requires Under(e, child) && Dir(child) == path && child != "."
    ensures Under(e, path)
    decreases |e|
  {
    if Dir(e) == child {
      UnderLonger(e, child);
      assert LastSlash(e) > 0;
    } else {
      UnderTransitive(Dir(e), child, path);
    }
  }

  ghost predicate AllWanted(tree: Tree, es: set<string>, files: set<string>, dirs: set<string>)
    requires es <= Entries(tree)
  {
    forall e :: e in es ==> Wanted(tree, e, files, dirs)
  }

  ghost function BelowAll(tree: Tree, paths: set<string>): set<string> {
    set c, e | c in paths && e in Below(tree, c) :: e
  }

  lemma BelowSplits(tree: Tree, path: string)
    requires TreeOk(tree)
    ensures Below(tree, path) == Children(tree, path) + BelowAll(tree, Children(tree, path) * tree.dirs)
  {
    var children := Children(tree, path);
    forall e | e in Below(tree, path) ensures e in children + BelowAll(tree, children * tree.dirs) {
      var child := UnderViaChild(tree, e, path);
      if child != e {
        assert child in children * tree.dirs && e in Below(tree, child);
      }
    }
    forall e | e in BelowAll(tree, children * tree.dirs) ensures e in Below(tree, path) {
      var c :| c in children * tree.dirs && e in Below(tree, c);
      UnderTransitive(e, c, path);
    }
  }

  lemma BelowAllSnoc(tree: Tree, paths: set<string>, path: string)
    ensures BelowAll(tree, paths + {path}) == BelowAll(tree, paths) + Below(tree, path)
  {
    assert forall c :: c in paths + {path} <==> c in paths || c == path;
  }

  /** The entries of one directory, checked against the expected sets. */
  method ListDirectory(tree: Tree, path: string, files: set<string>, dirs: set<string>)
    returns (ok: bool, children: set<string>)
    ensures ok <==> AllWanted(tree, Children(tree, path), files, dirs)
    ensures ok ==> children == Children(tree, path) * tree.dirs
  {
    var rest := Children(tree, path);
    children := {};
    while rest != {}
      invariant rest <= Children(tree, path)
      invariant AllWanted(tree, Children(tree, path) - rest, files, dirs)
      invariant children == (Children(tree, path) - rest) * tree.dirs
      decreases rest
    {
      var e :| e in rest;
      rest := rest - {e};
      if e in tree.dirs {
        if e in files || e !in dirs {
          return false, {};
        }
        children := children + {e};
      } else if e !in files {
        return false, {};
      }
    }
    return true, children;
  }

  /** validateArtifactInventoryDirectory: records what lies below path, refusing
      anything unexpected; bound is only the depth of the recursion. */
  method WalkDirectory(tree: Tree, path: string, files: set<string>, dirs: set<string>, inventory: set<string>, ghost bound: nat)
    returns (result: Option<set<string>>)
    requires TreeOk(tree) && (path == "." || path in tree.dirs)
    requires forall d :: d in tree.dirs ==> |d| <= bound
    ensures result.Some? <==> AllWanted(tree, Below(tree, path), files, dirs)
    ensures result.Some? ==> result.value == inventory + Below(tree, path)
    decreases if path == "." then bound + 1 else bound - |path|
  {
    BelowSplits(tree, path);
    var ok, children := ListDirectory(tree, path, files, dirs);
    if !ok {
      return None;
    }
    var found := inventory + Children(tree, path);
    var rest := children;
    while rest != {}
      invariant rest <= children
      invariant found == inventory + Children(tree, path) + BelowAll(tree, children - rest)
      invariant AllWanted(tree, BelowAll(tree, children - rest), files, dirs)
      decreases rest
    {
      var c :| c in rest;
      ChildLonger(c, path);
      BelowAllSnoc(tree, children - rest, c);
      assert children - (rest - {c}) == (children - rest) + {c};
      var deeper := WalkDirectory(tree, c, files, dirs, found, bound);
      if deeper.None? {
        assert Below(tree, c) <= Below(tree, path);
        return None;
      }
      found := deeper.value;
      rest := rest - {c};
    }
    assert children - rest == children;
    return Some(found);
  }

  lemma ChildLonger(c: string, path: string)
    requires Dir(c) == path
    ensures path != "." ==> |c| > |path|
  {
  }

  lemma BelowRoot(tree: Tree)
    requires TreeOk(tree)
    ensures Below(tree, ".") == Entries(tree)
  {
    forall e | e in Entries(tree) ensures Under(e, ".") {
      AllUnderRoot(tree, e);
    }
  }

  ghost function LongestDir(dirs: set<string>): (n: nat)
    ensures forall d :: d in dirs ==> |d| <= n
  {
    if dirs == {} then 0
    else
      var d :| d in dirs;
      var rest := LongestDir(dirs - {d});
      if |d| > rest then |d| else rest
  }

  /** validateArtifactInventory */
  method ValidateInventory(tree: Tree, files: set<string>, dirs: set<string>) returns (result: Option<set<string>>)
    requires TreeOk(tree) && files !! dirs
    ensures result.Some? <==> tree.files.Keys == files && tree.dirs == dirs
    ensures result.Some? ==> result.value == files + dirs
  {
    BelowRoot(tree);
    result := WalkDirectory(tree, ".", files, dirs, {}, LongestDir(tree.dirs));
    if result.None? {
      return None;
    }
    if !(files <= result.value) || !(dirs <= result.value) {
      return None;
    }
    forall e | e in files ensures e in tree.files {
      assert e in Entries(tree);
      assert Wanted(tree, e, files, dirs);
    }
    forall e | e in dirs ensures e in tree.dirs {
      assert e in Entries(tree);
      assert Wanted(tree, e, files, dirs);
    }
  }

  // ------------------------------------------------- the whole validator

  predicate HasDot(s: string) {
    exists i :: 0 <= i < |s| && s[i] == '.'
  }

  predicate HasNoSlash(s: string) {
    forall i :: 0 <= i < |s| ==> s[i] != '/'
  }

  lemma SafeHasNoSlash(s: string, host: Host)
    requires HostOk(host) && SafeSegment(s, host)
    ensures HasNoSlash(s) && !HasDot(s)
  {
  }

  lemma LastSlashAt(front: string, back: string)
    requires HasNoSlash(back)
    ensures LastSlash(front + "/" + back) == |front|
    ensures (front + "/" + back)[..|front|] == front
  {
    var s := front + "/" + back;
    assert s[|front|] == '/';
    assert forall k :: |front| < k < |s| ==> s[k] == back[k - |front| - 1];
  }

  /** The directories of a resource file are resources/ and its product's. */
  lemma ResourceAncestors(product: string, name: string, host: Host)
    requires HostOk(host) && SafeSegment(product, host) && SafeSegment(name, host)
    ensures Dir(ResourcePath(product, name)) == "resources/" + product
    ensures Dir("resources/" + product) == "resources" && Dir("resources") == "."
    ensures Ancestors(ResourcePath(product, name)) == {"resources/" + product, "resources"}
  {
    SafeHasNoSlash(product, host);
    SafeHasNoSlash(name, host);
    var folder := "resources/" + product;
    assert HasNoSlash(name + ".json");
    LastSlashAt(folder, name + ".json");
    assert ResourcePath(product, name) == folder + "/" + (name + ".json");
    LastSlashAt("resources", product);
    assert folder == "resources" + "/" + product;
    LastSlashNone("resources");
    assert Ancestors("resources") == {};
    assert Ancestors(folder) == {"resources"};
  }

  lemma LastSlashNone(s: string)
    requires HasNoSlash(s)
    ensures LastSlash(s) == -1
  {
  }

  lemma ResourcePathHasDot(product: string, name: string)
    ensures HasDot(ResourcePath(product, name))
  {
    var s := ResourcePath(product, name);
    assert s[|s| - 5] == '.';
  }

  lemma FolderHasNoDot(product: string, host: Host)
    requires HostOk(host) && SafeSegment(product, host)
    ensures !HasDot("resources/" + product) && !HasDot("resources")
  {
    SafeHasNoSlash(product, host);
    var s := "resources/" + product;
    assert forall i :: 0 <= i < |s| ==> s[i] == if i < 10 then "resources/"[i] else product[i - 10];
  }

  lemma TopLevelNames()
    ensures HasDot(MANIFEST_PATH) && HasDot(REPORT_PATH) && HasDot(ERRORS_PATH)
    ensures Ancestors(ERRORS_PATH) == {} && Ancestors("") == {}
    ensures Dir(MANIFEST_PATH) == Dir(REPORT_PATH) == Dir(ERRORS_PATH) == "."
  {
    assert MANIFEST_PATH[8] == '.' && REPORT_PATH[16] == '.' && ERRORS_PATH[6] == '.';
    LastSlashNone(MANIFEST_PATH);
    LastSlashNone(REPORT_PATH);
    LastSlashNone(ERRORS_PATH);
  }

  lemma ExpectedFilesHaveDots(m: Manifest, host: Host)
    requires ManifestOk(m, host)
    ensures forall f :: f in ExpectedFiles(m) ==> HasDot(f)
  {
    TopLevelNames();
    var rs := m.resources.value;
    forall f | f in ResourceFiles(rs) ensures HasDot(f) {
      var r :| r in rs && r.status == "ok" && r.path == f;
      assert ResourceOk(r, host);
      ResourcePathHasDot(r.product, r.name);
    }
  }

  lemma ExpectedDirsHaveNone(rs: seq<ManifestResource>, host: Host)
    requires HostOk(host) && forall i :: 0 <= i < |rs| ==> ResourceOk(rs[i], host)
    ensures forall d :: d in ResourceDirs(rs) ==> !HasDot(d)
  {
    forall d | d in ResourceDirs(rs) ensures !HasDot(d) {
      var r :| r in rs && r.status == "ok" && d in Ancestors(r.path);
      assert ResourceOk(r, host);
      ResourceAncestors(r.product, r.name, host);
      FolderHasNoDot(r.product, host);
    }
  }

  /** No expected path is wanted both as a file and as a directory. */
  lemma ExpectedDisjoint(m: Manifest, host: Host)
    requires HostOk(host) && ManifestOk(m, host)
    ensures ExpectedFiles(m) !! ExpectedDirs(m)
  {
    TopLevelNames();
    ExpectedFilesHaveDots(m, host);
    ExpectedDirsHaveNone(m.resources.value, host);
  }

  datatype Validated = Validated(manifest: Manifest, report: RedactionReport, errors: seq<ResourceError>, inventory: set<string>)

  method ValidateContents(tree: Tree, m: Manifest, checked: Checked, host: Host) returns (valid: bool)
    requires ManifestOk(m, host) && checked.mode == ParseMode(m.redaction).value && LoopSets(m.resources.value, checked)
    ensures valid <==> ContentsOk(tree, m, host)
  {
    if !HasReport(tree) {
      return false;
    }
    valid := ValidateReport(tree.files[REPORT_PATH].body.report, checked.mode, checked.ok);
    if !valid {
      return;
    }
    valid := ValidatePayloads(tree, m.resources.value);
    if !valid {
      return;
    }
    valid := ValidateErrors(tree, m, checked.failed);
  }

  /** validateArtifactRootContext */
  method ValidateArtifact(tree: Tree, host: Host) returns (result: Option<Validated>)
    requires TreeOk(tree) && HostOk(host)
    ensures result.Some? <==> Accepts(tree, host)
    ensures result.Some? ==>
      && result.value.manifest == ManifestOf(tree)
      && result.value.report == tree.files[REPORT_PATH].body.report
      && result.value.errors == (if ERRORS_PATH in tree.files then tree.files[ERRORS_PATH].body.rows else [])
      && result.value.inventory == Entries(tree)
  {
    if !HasManifest(tree) {
      return None;
    }
    var m := ManifestOf(tree);
    var checked := ValidateManifest(m, host);
    if checked.None? {
      return None;
    }
    var valid := ValidateContents(tree, m, checked.value, host);
    if !valid {
      return None;
    }
    var files, dirs := checked.value.files, checked.value.dirs;
    if m.errorsPath != "" {
      files := files + {m.errorsPath};
      dirs := AddExpectedDirs(dirs, m.errorsPath);
    }
    TopLevelNames();
    ExpectedDisjoint(m, host);
    assert files == ExpectedFiles(m) && dirs == ExpectedDirs(m);
    var inventory := ValidateInventory(tree, files, dirs);
    if inventory.None? {
      return None;
    }
    var errors := [];
    if m.status != "complete" {
      errors := tree.files[m.errorsPath].body.rows;
    }
    return Some(Validated(m, tree.files[REPORT_PATH].body.report, errors, inventory.value));
  }
}
