// Publication of a dump (internal/dump/dump.go and force.go): stage, validate,
// then rename into place or exchange with the old directory, quarantine and clear
// what was displaced, and roll back on failure. Every call may fail; the contracts
// speak of every state the disk passes through.
module Publish {
  import opened Options
  import opened Artifact
  import opened ArtifactValidator
  import opened ArtifactWriter
  import opened ArtifactRoundTrip
  import opened Filesystem
  import opened AfterExchange

  /** dangerous: the target is the working directory, the home directory or the root.
      catalog: the manifest shape of each resource of the current catalog. */
  datatype Request = Request(input: Input, force: bool, dangerous: bool, catalog: map<Key, string>)

  const MAX_DEPTH := 32

  function Depth(path: string): nat {
    if path == "" then 1 else Depth(path[..|path| - 1]) + if path[|path| - 1] == '/' then 1 else 0
  }

  predicate TooDeep(tree: Tree) {
    exists d :: d in tree.dirs && Depth(d) > MAX_DEPTH
  }

  predicate CatalogMatches(m: Manifest, catalog: map<Key, string>) {
    m.resources.Some?
    && forall r :: r in m.resources.value && r.status == "ok" ==> r.Id() in catalog && catalog[r.Id()] == r.shape
  }

  /** validateExistingDumpRootContext */
  predicate IsReplaceableDump(tree: Tree, catalog: map<Key, string>, host: Host) {
    Accepts(tree, host) && ManifestOf(tree).status == "complete" && CatalogMatches(ManifestOf(tree), catalog)
  }

  /** What publication may displace: an empty directory, or with force a complete dump. */
  predicate Replaceable(target: Object, req: Request, host: Host) {
    && target.Directory?
    && !TooDeep(target.tree)
    && (req.force ==> !req.dangerous)
    && (target.tree.files == map[] || (req.force && IsReplaceableDump(target.tree, req.catalog, host)))
  }

  /** The state before the run, the identity the staging directory will get, what it
      will hold, and what the run is allowed to do. */
  datatype Goal = Goal(pre: World, output: Tree, accepted: bool, mayReplace: bool)
  {
    function Staged(): Id {
      pre.nextId
    }
  }

  ghost predicate GoalOk(g: Goal) {
    && WorldOk(g.pre)
    && Staging !in g.pre.names && QuarantineRoot !in g.pre.names && DiscardRoot !in g.pre.names
    && (g.mayReplace ==> Destination in g.pre.names && g.pre.objects[g.pre.names[Destination]].Directory?)
  }

  // ------------------------------------------------ the states of a run

  /** The pre-state with the staging directory, holding t, under one more name. */
  function StagedAs(g: Goal, place: Place, t: Tree): World {
    World(g.pre.names[place := g.Staged()], g.pre.objects[g.Staged() := Directory(t)], g.pre.nextId + 1)
  }

  function OldId(g: Goal): Id
    requires Destination in g.pre.names
  {
    g.pre.names[Destination]
  }

  /** The new dump at the destination, the old directory at place holding t. */
  function Displaced(g: Goal, place: Place, t: Tree): World
    requires Destination in g.pre.names
  {
    World(g.pre.names[Destination := g.Staged()][place := OldId(g)],
          g.pre.objects[g.Staged() := Directory(g.output)][OldId(g) := Directory(t)],
          g.pre.nextId + 1)
  }

  predicate Before(w: World, g: Goal) {
    || w == g.pre
    || (HoldsTree(w, g.Staged())
        && (w == StagedAs(g, Staging, TreeAt(w, g.Staged())) || w == StagedAs(g, DiscardRoot, TreeAt(w, g.Staged()))))
  }

  predicate Placed(w: World, g: Goal) {
    g.accepted && Destination !in g.pre.names && w == StagedAs(g, Destination, g.output)
  }

  predicate Swapped(w: World, g: Goal) {
    && g.accepted && g.mayReplace && Destination in g.pre.names && HoldsTree(g.pre, OldId(g))
    && (w == Displaced(g, Staging, TreeAt(g.pre, OldId(g)))
        || (HoldsTree(w, OldId(g)) && w == Displaced(g, QuarantineRoot, TreeAt(w, OldId(g)))))
  }

  /** Every state a run may pass through. */
  predicate Legal(w: World, g: Goal) {
    Before(w, g) || Placed(w, g) || Swapped(w, g)
  }

  ghost predicate AllLegal(history: seq<World>, g: Goal) {
    forall k :: 0 <= k < |history| ==> Legal(history[k], g)
  }

  /** The destination is as it was: absent, or the same directory with the same content. */
  predicate DestinationAsBefore(w: World, g: Goal) {
    if Destination !in g.pre.names then Destination !in w.names
    else
      && Destination in w.names && w.names[Destination] == OldId(g)
      && OldId(g) in g.pre.objects && OldId(g) in w.objects
      && w.objects[OldId(g)] == g.pre.objects[OldId(g)]
  }

  /** The destination holds the complete staged artifact, which passed validation. */
  predicate DestinationIsNew(w: World, g: Goal) {
    && Destination in w.names && w.names[Destination] == g.Staged()
    && HoldsTree(w, g.Staged()) && TreeAt(w, g.Staged()) == g.output && g.accepted
  }

  /** The old directory is intact under one of its three names, or it is being
      cleared in the quarantine while the new dump is in place. */
  predicate OldContentSafe(w: World, g: Goal) {
    Destination in g.pre.names ==>
      && OldId(g) in g.pre.objects && OldId(g) in w.objects
      && (exists p :: p in w.names && w.names[p] == OldId(g) && p in {Destination, Staging, QuarantineRoot})
      && (w.objects[OldId(g)] == g.pre.objects[OldId(g)]
          || (g.mayReplace && QuarantineRoot in w.names && w.names[QuarantineRoot] == OldId(g) && DestinationIsNew(w, g)))
  }

  /** In every state of a run the destination holds its old content or the whole new
      dump, never a mixture, and the old content is safe. */
  lemma LegalIsSafe(w: World, g: Goal)
    requires GoalOk(g) && Legal(w, g)
    ensures DestinationAsBefore(w, g) || DestinationIsNew(w, g)
    ensures !(DestinationAsBefore(w, g) && DestinationIsNew(w, g))
    ensures OldContentSafe(w, g)
  {
    if Destination in g.pre.names {
      var p := if w == g.pre || Before(w, g) then Destination
               else if w == Displaced(g, Staging, TreeAt(g.pre, OldId(g))) then Staging else QuarantineRoot;
      assert p in w.names && w.names[p] == OldId(g);
    }
  }

  /** The disk stands in world w, and every state so far was legal. */
  ghost predicate At(disk: Disk, g: Goal, w: World)
    reads disk
  {
    disk.Valid() && disk.world == w && AllLegal(disk.history, g)
  }

  // ---------------------------------------------------------- clearing

  /** The entries to remove. */
  function Size(tree: Tree): nat {
    |tree.files| + |tree.dirs|
  }

  function Paths(tree: Tree): set<string> {
    tree.files.Keys + tree.dirs
  }

  /** A path of the tree with nothing below it: a file, or a directory by now empty. */
  predicate Lowest(tree: Tree, path: string) {
    path in Paths(tree) && forall other :: other in Paths(tree) ==> !(path + "/" <= other)
  }

  lemma {:induction false} LongestPath(paths: set<string>) returns (longest: string)
    requires paths != {}
    ensures longest in paths && forall other :: other in paths ==> |other| <= |longest|
    decreases |paths|
  {
    longest :| longest in paths;
    var rest := paths - {longest};
    if rest != {} {
      var other := LongestPath(rest);
      longest := if |other| > |longest| then other else longest;
    }
  }

  lemma SomethingLowest(tree: Tree)
    requires tree != EMPTY_TREE
    ensures exists path :: path in Paths(tree) && Lowest(tree, path)
  {
    EmptyTreeHasSizeZero(tree);
    assert tree.dirs == {} ==> |tree.files.Keys| > 0;
    var path := LongestPath(Paths(tree));
    assert Lowest(tree, path);
  }

  function WithoutPath(tree: Tree, path: string): Tree {
    if path in tree.files then tree.(files := tree.files - {path}) else tree.(dirs := tree.dirs - {path})
  }

  lemma WithoutPathSmaller(tree: Tree, path: string)
    requires path in Paths(tree)
    ensures WithoutPath(tree, path).files.Keys <= tree.files.Keys && WithoutPath(tree, path).dirs <= tree.dirs
    ensures Size(WithoutPath(tree, path)) == Size(tree) - 1
  {
    var smaller := WithoutPath(tree, path);
    if path in tree.files {
      assert smaller.files.Keys == tree.files.Keys - {path};
      assert |smaller.files.Keys| == |tree.files.Keys| - 1;
    }
  }

  /** The entry that is removed next, whichever it is. Removing the top-level entries
      one after the other, each with all below it, is one way to choose. */
  method NextToRemove(tree: Tree) returns (path: string)
    requires tree != EMPTY_TREE
    ensures Lowest(tree, path)
  {
    SomethingLowest(tree);
    path :| path in Paths(tree) && Lowest(tree, path);
  }

  method SmallerTree(tree: Tree) returns (smaller: Tree)
    requires tree != EMPTY_TREE
    ensures smaller.files.Keys <= tree.files.Keys && smaller.dirs <= tree.dirs
    ensures Size(smaller) == Size(tree) - 1
  {
    var path := NextToRemove(tree);
    WithoutPathSmaller(tree, path);
    smaller := WithoutPath(tree, path);
  }

  /** Whatever the directory holds, the state is legal. */
  ghost predicate AnyTreeLegal(w: World, id: Id, g: Goal) {
    forall t :: Legal(WithTree(w, id, t), g)
  }

  method RemoveOne(disk: Disk, id: Id, ghost g: Goal, ghost base: World) returns (ok: bool)
    requires HoldsTree(disk.world, id) && TreeAt(disk.world, id) != EMPTY_TREE
    requires At(disk, g, WithTree(base, id, TreeAt(disk.world, id))) && AnyTreeLegal(base, id, g)
    modifies disk`world, disk`calls, disk`refusals, disk`history
    ensures HoldsTree(disk.world, id) && At(disk, g, WithTree(base, id, TreeAt(disk.world, id)))
    ensures ok <==> Goes(disk.fates, old(disk.calls), Change)
    ensures disk.calls == old(disk.calls) + [Change]
    ensures Size(TreeAt(disk.world, id)) == Size(old(TreeAt(disk.world, id))) - if ok then 1 else 0
    ensures disk.refusals >= old(disk.refusals) && (!ok ==> disk.refusals > old(disk.refusals))
  {
    var smaller := SmallerTree(TreeAt(disk.world, id));
    ok := disk.Update(id, smaller);
    assert ok ==> disk.world == WithTree(base, id, smaller);
  }

  method RemoveAll(disk: Disk, id: Id, ghost g: Goal, ghost base: World) returns (ok: bool)
    requires HoldsTree(disk.world, id) && At(disk, g, WithTree(base, id, TreeAt(disk.world, id))) && AnyTreeLegal(base, id, g)
    modifies disk`world, disk`calls, disk`refusals, disk`history
    ensures HoldsTree(disk.world, id) && At(disk, g, WithTree(base, id, TreeAt(disk.world, id)))
    ensures ok ==> TreeAt(disk.world, id) == EMPTY_TREE
    ensures ok <==> Changes(disk.fates, old(disk.calls), Size(old(TreeAt(disk.world, id))))
    ensures disk.refusals >= old(disk.refusals) && (!ok ==> disk.refusals > old(disk.refusals))
    ensures !ok ==> FailedAt(disk.fates, disk.calls, Change)
  {
    ghost var log, size := disk.calls, Size(TreeAt(disk.world, id));
    while TreeAt(disk.world, id) != EMPTY_TREE
      invariant HoldsTree(disk.world, id)
      invariant At(disk, g, WithTree(base, id, TreeAt(disk.world, id)))
      invariant disk.refusals >= old(disk.refusals)
      invariant Changes(disk.fates, disk.calls, Size(TreeAt(disk.world, id))) <==> Changes(disk.fates, log, size)
      decreases Size(TreeAt(disk.world, id))
    {
      EmptyTreeHasSizeZero(TreeAt(disk.world, id));
      ok := RemoveOne(disk, id, g, base);
      if !ok {
        return;
      }
    }
    return true;
  }

  lemma EmptyTreeHasSizeZero(tree: Tree)
    ensures tree == EMPTY_TREE <==> Size(tree) == 0
  {
    if Size(tree) == 0 {
      assert tree.files == map[] && tree.dirs == {};
    }
  }

  /** clearDumpRootContext: it stops only when a removal fails. */
  method ClearRoot(disk: Disk, id: Id, ghost g: Goal) returns (ok: bool)
    requires At(disk, g, disk.world) && HoldsTree(disk.world, id) && AnyTreeLegal(disk.world, id, g)
    modifies disk`world, disk`calls, disk`refusals, disk`history
    ensures HoldsTree(disk.world, id) && At(disk, g, WithTree(old(disk.world), id, TreeAt(disk.world, id)))
    ensures ok ==> TreeAt(disk.world, id) == EMPTY_TREE
    ensures ok <==> Clears(disk.fates, old(disk.calls), Size(old(TreeAt(disk.world, id))))
    ensures disk.refusals >= old(disk.refusals) && (!ok ==> disk.refusals > old(disk.refusals))
    ensures !ok ==> FailedAt(disk.fates, disk.calls, Check) || FailedAt(disk.fates, disk.calls, Change)
  {
    ghost var base := disk.world;
    ok := disk.Passes();
    assert disk.world == WithTree(base, id, TreeAt(disk.world, id));
    if ok {
      ok := RemoveAll(disk, id, g, base);
    }
  }

  // ------------------------------------------------- deferred cleanup

  /** The staging path does not name the process's own staging directory. */
  predicate NotStaged(w: World, g: Goal) {
    Staging in w.names ==> w.names[Staging] != g.Staged()
  }

  predicate StillBefore(w: World, g: Goal) {
    HoldsTree(w, g.Staged())
    && (w == StagedAs(g, Staging, TreeAt(w, g.Staged())) || w == StagedAs(g, DiscardRoot, TreeAt(w, g.Staged())))
  }

  /** Nothing that was staged is left. */
  predicate StagedGone(w: World, g: Goal) {
    HoldsTree(w, g.Staged()) ==> TreeAt(w, g.Staged()) == EMPTY_TREE
  }

  lemma DiscardTrees(g: Goal, w: World)
    requires GoalOk(g) && HoldsTree(w, g.Staged()) && w == StagedAs(g, DiscardRoot, TreeAt(w, g.Staged()))
    ensures AnyTreeLegal(w, g.Staged(), g)
    ensures forall t :: WithTree(w, g.Staged(), t) == StagedAs(g, DiscardRoot, t)
  {
    forall t ensures WithTree(w, g.Staged(), t) == StagedAs(g, DiscardRoot, t) {
      assert WithTree(w, g.Staged(), t).objects == g.pre.objects[g.Staged() := Directory(t)];
    }
  }

  lemma StagingMoves(g: Goal, t: Tree)
    requires GoalOk(g)
    ensures var s, d := StagedAs(g, Staging, t), StagedAs(g, DiscardRoot, t);
      && d == s.(names := s.names[DiscardRoot := g.Staged()] - {Staging})
      && s == d.(names := d.names[Staging := g.Staged()] - {DiscardRoot})
      && Staging !in d.names && DiscardRoot !in s.names
  {
    var s, d := StagedAs(g, Staging, t), StagedAs(g, DiscardRoot, t);
    assert s.names[DiscardRoot := g.Staged()] - {Staging} == d.names;
    assert d.names[Staging := g.Staged()] - {DiscardRoot} == s.names;
  }

  /** Moves the staging directory into a private discard directory and clears it,
      moving it back if that fails. */
  method DiscardStaging(disk: Disk, staged: Id, ghost g: Goal)
    requires GoalOk(g) && staged == g.Staged() && At(disk, g, disk.world) && HoldsTree(disk.world, staged)
    requires disk.world == StagedAs(g, Staging, TreeAt(disk.world, staged))
    modifies disk`world, disk`calls, disk`refusals, disk`history
    ensures disk.Valid() && AllLegal(disk.history, g) && StillBefore(disk.world, g)
    ensures disk.refusals >= old(disk.refusals)
    ensures disk.refusals == old(disk.refusals) ==> StagedGone(disk.world, g)
  {
    ghost var t := TreeAt(disk.world, staged);
    StagingMoves(g, t);
    var ready := disk.Passes();
    if !ready {
      return;
    }
    var moved := disk.RenameNoReplace(Staging, DiscardRoot);
    if !moved.Renamed? {
      return;
    }
    assert disk.world == StagedAs(g, DiscardRoot, t);
    ClearDiscarded(disk, staged, g);
  }

  /** What is left of the staged directory goes back to the staging path. */
  method PutBack(disk: Disk, staged: Id, ghost g: Goal)
    requires GoalOk(g) && staged == g.Staged() && At(disk, g, disk.world) && HoldsTree(disk.world, staged)
    requires disk.world == StagedAs(g, DiscardRoot, TreeAt(disk.world, staged))
    modifies disk`world, disk`calls, disk`refusals, disk`history
    ensures disk.Valid() && AllLegal(disk.history, g) && StillBefore(disk.world, g)
    ensures disk.refusals >= old(disk.refusals)
  {
    DiscardTrees(g, disk.world);
    StagingMoves(g, TreeAt(disk.world, staged));
    var back := disk.RenameNoReplace(DiscardRoot, Staging);
  }

  method ClearDiscarded(disk: Disk, staged: Id, ghost g: Goal)
    requires GoalOk(g) && staged == g.Staged() && At(disk, g, disk.world) && HoldsTree(disk.world, staged)
    requires disk.world == StagedAs(g, DiscardRoot, TreeAt(disk.world, staged))
    modifies disk`world, disk`calls, disk`refusals, disk`history
    ensures disk.Valid() && AllLegal(disk.history, g) && StillBefore(disk.world, g)
    ensures disk.refusals >= old(disk.refusals)
    ensures disk.refusals == old(disk.refusals) ==> StagedGone(disk.world, g)
  {
    DiscardTrees(g, disk.world);
    var found := disk.Lstat(DiscardRoot);
    var cleared := found.Found? && found.id == staged;
    if cleared {
      cleared := disk.Passes();
    }
    if cleared {
      cleared := ClearRoot(disk, staged, g);
    }
    if !cleared {
      PutBack(disk, staged, g);
    }
  }

  /** cleanupStagingPath. Whatever stands at the staging path, only the directory
      created for staging is ever moved or cleared, and unless a call fails it is. */
  method CleanupStaging(disk: Disk, staged: Id, ghost g: Goal)
    requires GoalOk(g) && staged == g.Staged() && At(disk, g, disk.world)
    requires NotStaged(disk.world, g) || StillBefore(disk.world, g)
    modifies disk`world, disk`calls, disk`refusals, disk`history
    ensures disk.Valid() && AllLegal(disk.history, g)
    ensures old(NotStaged(disk.world, g)) ==> disk.world == old(disk.world) && disk.history == old(disk.history)
    ensures old(!NotStaged(disk.world, g)) ==> StillBefore(disk.world, g)
    ensures disk.refusals >= old(disk.refusals)
    ensures old(!NotStaged(disk.world, g)) && disk.refusals == old(disk.refusals) ==> StagedGone(disk.world, g)
  {
    var found := disk.Lstat(Staging);
    if !found.Found? || found.id != staged {
      return;
    }
    DiscardStaging(disk, staged, g);
  }

  // ------------------------------------------------------ first publication

  datatype Placement = PlacedNew | Occupied | PlacementFailed

  /** publishDirectoryNoReplace */
  method PublishNoReplace(disk: Disk, ghost g: Goal) returns (r: Placement)
    requires GoalOk(g) && g.accepted && At(disk, g, StagedAs(g, Staging, g.output))
    modifies disk`world, disk`calls, disk`refusals, disk`history
    ensures disk.Valid() && AllLegal(disk.history, g)
    ensures r.PlacedNew? ==> Destination !in g.pre.names && disk.world == StagedAs(g, Destination, g.output)
    ensures !r.PlacedNew? ==> disk.world == old(disk.world)
    ensures r.Occupied? ==> Destination in g.pre.names
    ensures disk.refusals >= old(disk.refusals)
    ensures r.PlacementFailed? ==> disk.refusals > old(disk.refusals)
  {
    var committed := disk.Passes();
    if !committed {
      return PlacementFailed;
    }
    var renamed := disk.RenameNoReplace(Staging, Destination);
    match renamed {
      case Renamed =>
        assert disk.world.names == StagedAs(g, Destination, g.output).names;
        r := PlacedNew;
      case Exists =>
        r := Occupied;
      case RenameFailed =>
        r := PlacementFailed;
    }
  }

  // -------------------------------------------------------- replacement

  /** A check or validation: nothing changes, and it fails only for cause. */
  method Passes(disk: Disk) returns (ok: bool)
    requires disk.Valid()
    modifies disk`calls, disk`refusals
    ensures disk.Valid() && disk.calls == old(disk.calls) + [Call.Check]
    ensures ok <==> Goes(disk.fates, old(disk.calls), Call.Check)
    ensures disk.refusals >= old(disk.refusals) && (!ok ==> disk.refusals > old(disk.refusals))
  {
    ok := disk.Passes();
  }

  /** os.Lstat and os.SameFile against a recorded identity. */
  method Names(disk: Disk, place: Place, id: Id) returns (same: bool)
    requires disk.Valid()
    modifies disk`calls, disk`refusals
    ensures disk.Valid() && disk.calls == old(disk.calls) + [Inspect(place)]
    ensures same <==>
      Goes(disk.fates, old(disk.calls), Inspect(place)) && place in disk.world.names && disk.world.names[place] == id
    ensures disk.refusals >= old(disk.refusals)
    ensures !same && place in disk.world.names && disk.world.names[place] == id ==> disk.refusals > old(disk.refusals)
  {
    var found := disk.Lstat(place);
    same := found.Found? && found.id == id;
  }

  method ValidateExisting(disk: Disk, tree: Tree, req: Request, host: Host) returns (ok: bool)
    requires disk.Valid() && TreeOk(tree) && HostOk(host)
    modifies disk`calls, disk`refusals
    ensures disk.Valid() && disk.calls == old(disk.calls) + [Call.Check]
    ensures ok <==> Goes(disk.fates, old(disk.calls), Call.Check) && IsReplaceableDump(tree, req.catalog, host)
    ensures disk.refusals >= old(disk.refusals)
    ensures !ok ==> !IsReplaceableDump(tree, req.catalog, host) || disk.refusals > old(disk.refusals)
  {
    ok := Passes(disk);
    if !ok {
      return;
    }
    var artifact := ValidateArtifact(tree, host);
    if artifact.None? || artifact.value.manifest.status != "complete" {
      return false;
    }
    ok := CatalogMatches(artifact.value.manifest, req.catalog);
  }

  /** What a displaced root must still be: without files, or a replaceable dump. */
  predicate Expected(tree: Tree, hadFiles: bool, req: Request, host: Host) {
    if hadFiles then IsReplaceableDump(tree, req.catalog, host) else !TooDeep(tree) && tree.files == map[]
  }

  lemma ExpectedExactly(tree: Tree, hadFiles: bool, req: Request, host: Host)
    ensures Expected(tree, hadFiles, req, host) <==>
      if hadFiles then
        && Accepts(tree, host) && ManifestOf(tree).status == "complete"
        && forall r :: r in ManifestOf(tree).resources.value && r.status == "ok" ==>
             r.Id() in req.catalog && req.catalog[r.Id()] == r.shape
      else tree.files == map[] && forall d :: d in tree.dirs ==> multiset(d)['/'] < 32
  {
    DeepMeansSlashes(tree);
  }

  /** The steps from one to another have been made, in order, up to a first failure. */
  ghost predicate Stepped(disk: Disk, log: seq<Call>, from: nat, to: nat, ok: bool)
    requires from <= to <= STEPS
    reads disk
  {
    var f := FirstFailure(disk.fates, log, from);
    if ok then disk.calls == After(log, to) && f == FirstFailure(disk.fates, log, to)
    else f < to && disk.calls == After(log, f + 1)
  }

  /** replacementCleanupPlanContext: what stands at the displaced root is read again and
      judged again, as one step. */
  method PlanAgain(disk: Disk, displaced: Id, hadFiles: bool, req: Request, host: Host) returns (ok: bool)
    requires disk.Valid() && HostOk(host) && HoldsTree(disk.world, displaced) && TreeOk(TreeAt(disk.world, displaced))
    modifies disk`calls, disk`refusals
    ensures disk.Valid() && disk.calls == old(disk.calls) + [Call.Check] && disk.refusals >= old(disk.refusals)
    ensures ok <==> Goes(disk.fates, old(disk.calls), Call.Check) && Expected(TreeAt(disk.world, displaced), hadFiles, req, host)
    ensures !ok && Expected(TreeAt(disk.world, displaced), hadFiles, req, host) ==> disk.refusals > old(disk.refusals)
  {
    var tree := TreeAt(disk.world, displaced);
    if hadFiles {
      ok := ValidateExisting(disk, tree, req, host);
    } else {
      ok := Passes(disk);
      if TooDeep(tree) || tree.files != map[] {
        ok := false;
      }
    }
  }

  /** The same and preflightCleanupPlan, as steps n and n + 1. */
  method Revalidate(disk: Disk, displaced: Id, hadFiles: bool, req: Request, host: Host, ghost log: seq<Call>, ghost n: nat)
    returns (ok: bool)
    requires disk.Valid() && HostOk(host) && HoldsTree(disk.world, displaced) && TreeOk(TreeAt(disk.world, displaced))
    requires n + 2 <= STEPS && Step(n) == Step(n + 1) == Call.Check && disk.calls == After(log, n)
    modifies disk`calls, disk`refusals
    ensures disk.Valid() && disk.refusals >= old(disk.refusals)
    ensures ok ==> Expected(TreeAt(disk.world, displaced), hadFiles, req, host)
    ensures Expected(TreeAt(disk.world, displaced), hadFiles, req, host) ==>
      Stepped(disk, log, n, n + 2, ok) && (!ok ==> disk.refusals > old(disk.refusals))
  {
    ok := PlanAgain(disk, displaced, hadFiles, req, host);
    if ok {
      ok := Passes(disk);
    }
  }

  /** The goal of a run that displaces an existing directory. */
  ghost predicate Replacing(g: Goal) {
    GoalOk(g) && g.accepted && g.mayReplace
  }

  function OldTree(g: Goal): Tree
    requires Destination in g.pre.names && HoldsTree(g.pre, OldId(g))
  {
    TreeAt(g.pre, OldId(g))
  }

  lemma ExchangeMoves(g: Goal)
    requires Replacing(g)
    ensures HoldsTree(g.pre, OldId(g)) && OldId(g) != g.Staged()
    ensures var s, d := StagedAs(g, Staging, g.output), Displaced(g, Staging, OldTree(g));
      && d == s.(names := s.names[Staging := s.names[Destination]][Destination := s.names[Staging]])
      && s == d.(names := d.names[Staging := d.names[Destination]][Destination := d.names[Staging]])
  {
    var s, d := StagedAs(g, Staging, g.output), Displaced(g, Staging, OldTree(g));
    assert d.objects == s.objects;
    assert s.names[Staging := s.names[Destination]][Destination := s.names[Staging]] == d.names;
    assert d.names[Staging := d.names[Destination]][Destination := d.names[Staging]] == s.names;
  }

  lemma QuarantineMoves(g: Goal, t: Tree)
    requires Replacing(g) && HoldsTree(g.pre, OldId(g))
    ensures var d, q := Displaced(g, Staging, t), Displaced(g, QuarantineRoot, t);
      && q == d.(names := d.names[QuarantineRoot := OldId(g)] - {Staging})
      && d == q.(names := q.names[Staging := OldId(g)] - {QuarantineRoot})
      && QuarantineRoot !in d.names && Staging !in q.names
  {
    var d, q := Displaced(g, Staging, t), Displaced(g, QuarantineRoot, t);
    assert d.names[QuarantineRoot := OldId(g)] - {Staging} == q.names;
    assert q.names[Staging := OldId(g)] - {QuarantineRoot} == d.names;
  }

  /** The second exchange of rollbackExchangedDirectory. */
  method ExchangeBack(disk: Disk, ghost g: Goal) returns (done: bool)
    requires Replacing(g) && HoldsTree(g.pre, OldId(g)) && At(disk, g, Displaced(g, Staging, OldTree(g)))
    requires disk.exchanged.Some?
    modifies disk
    ensures disk.Valid() && AllLegal(disk.history, g) && disk.exchanged == old(disk.exchanged)
    ensures disk.world == if done then StagedAs(g, Staging, g.output) else old(disk.world)
    ensures done <==> Goes(disk.fates, old(disk.calls), Swap(Staging, Destination))
    ensures disk.calls == old(disk.calls) + [Swap(Staging, Destination)]
    ensures disk.refusals >= old(disk.refusals) && (!done ==> disk.refusals > old(disk.refusals))
  {
    ExchangeMoves(g);
    var exchanged := disk.Exchange(Staging, Destination);
    done := exchanged.Exchanged?;
  }

  /** rollbackExchangedDirectory */
  method Rollback(disk: Disk, staged: Id, displaced: Id, ghost g: Goal) returns (failure: Failure)
    requires Replacing(g) && staged == g.Staged() && displaced == OldId(g) && HoldsTree(g.pre, displaced)
    requires At(disk, g, Displaced(g, Staging, OldTree(g))) && disk.exchanged.Some?
    modifies disk
    ensures disk.Valid() && AllLegal(disk.history, g) && disk.exchanged == old(disk.exchanged)
    ensures failure == RollbackOutcome(disk.fates, old(disk.calls))
    ensures disk.world == if failure.RolledBack? then StagedAs(g, Staging, g.output) else old(disk.world)
    ensures disk.refusals >= old(disk.refusals)
    ensures !failure.RolledBack? ==> disk.refusals > old(disk.refusals)
    ensures disk.calls == RolledBackLog(disk.fates, old(disk.calls))
  {
    ghost var log := disk.calls;
    var stagingSame := Names(disk, Staging, displaced);
    var targetSame := Names(disk, Destination, staged);
    assert disk.calls == log + [Inspect(Staging), Inspect(Destination)];
    if !stagingSame || !targetSame {
      return RollbackRefused;
    }
    var exchanged := ExchangeBack(disk, g);
    if !exchanged {
      return RollbackFailed;
    }
    // the final inspections change only the words of the error
    var restored := Names(disk, Destination, displaced);
    restored := Names(disk, Staging, staged);
    return RolledBack;
  }

  method RollbackOrBlame(disk: Disk, staged: Id, displaced: Id, ghost g: Goal) returns (failure: Failure)
    requires Replacing(g) && staged == g.Staged() && displaced == OldId(g) && HoldsTree(g.pre, displaced)
    requires At(disk, g, Displaced(g, Staging, OldTree(g))) && disk.exchanged.Some?
    modifies disk
    ensures disk.Valid() && AllLegal(disk.history, g) && disk.exchanged == old(disk.exchanged)
    ensures failure == RollbackOutcome(disk.fates, old(disk.calls)) && Blames(disk.fates, disk.calls, failure)
    ensures disk.world == if failure.RolledBack? then StagedAs(g, Staging, g.output) else old(disk.world)
    ensures disk.refusals >= old(disk.refusals)
    ensures !failure.RolledBack? ==> disk.refusals > old(disk.refusals)
  {
    RollbackBlames(disk.fates, disk.calls);
    failure := Rollback(disk, staged, displaced, g);
  }

  datatype Removal = Cleared | CanRollBack | CannotRestore | NotCleared

  lemma QuarantineTrees(g: Goal, t: Tree)
    requires Replacing(g) && HoldsTree(g.pre, OldId(g))
    ensures forall u :: WithTree(Displaced(g, QuarantineRoot, t), OldId(g), u) == Displaced(g, QuarantineRoot, u)
    ensures AnyTreeLegal(Displaced(g, QuarantineRoot, t), OldId(g), g)
  {
    forall u ensures WithTree(Displaced(g, QuarantineRoot, t), OldId(g), u) == Displaced(g, QuarantineRoot, u) {
      assert WithTree(Displaced(g, QuarantineRoot, t), OldId(g), u).objects == Displaced(g, QuarantineRoot, u).objects;
    }
  }

  /** Moves the quarantined root back to the staging path. */
  method RestoreRoot(disk: Disk, ghost g: Goal) returns (removal: Removal)
    requires Replacing(g) && HoldsTree(g.pre, OldId(g))
    requires At(disk, g, Displaced(g, QuarantineRoot, OldTree(g)))
    modifies disk`world, disk`calls, disk`refusals, disk`history
    ensures disk.Valid() && AllLegal(disk.history, g) && disk.calls == old(disk.calls) + [Move(QuarantineRoot, Staging)]
    ensures removal in {CanRollBack, CannotRestore}
    ensures disk.world == if removal.CanRollBack? then Displaced(g, Staging, OldTree(g)) else old(disk.world)
    ensures removal.CanRollBack? <==> Goes(disk.fates, old(disk.calls), Move(QuarantineRoot, Staging))
    ensures disk.refusals >= old(disk.refusals)
  {
    QuarantineMoves(g, OldTree(g));
    var back := disk.RenameNoReplace(QuarantineRoot, Staging);
    removal := if back.Renamed? then CanRollBack else CannotRestore;
  }

  datatype Quarantined = NotMoved | Suspect | Revalidated

  /** Steps 4 and 5: makes the private quarantine and moves the displaced root into it. */
  method MoveToQuarantine(disk: Disk, ghost g: Goal, ghost log: seq<Call>) returns (moved: bool)
    requires Replacing(g) && HoldsTree(g.pre, OldId(g)) && At(disk, g, Displaced(g, Staging, OldTree(g)))
    requires disk.calls == After(log, 4)
    modifies disk`world, disk`calls, disk`refusals, disk`history
    ensures At(disk, g, Displaced(g, if moved then QuarantineRoot else Staging, OldTree(g)))
    ensures Stepped(disk, log, 4, 6, moved)
    ensures disk.refusals >= old(disk.refusals) && (!moved ==> disk.refusals > old(disk.refusals))
  {
    QuarantineMoves(g, OldTree(g));
    moved := Passes(disk);
    if moved {
      var renamed := disk.RenameNoReplace(Staging, QuarantineRoot);
      moved := renamed.Renamed?;
    }
  }

  /** Steps 6 to 8: inspects and revalidates the root in the quarantine. */
  method InspectQuarantined(disk: Disk, displaced: Id, hadFiles: bool, req: Request, host: Host, ghost log: seq<Call>)
    returns (ok: bool)
    requires disk.Valid() && HostOk(host) && HoldsTree(disk.world, displaced) && TreeOk(TreeAt(disk.world, displaced))
    requires QuarantineRoot in disk.world.names && disk.world.names[QuarantineRoot] == displaced
    requires disk.calls == After(log, 6)
    modifies disk`calls, disk`refusals
    ensures disk.Valid() && disk.refusals >= old(disk.refusals)
    ensures ok ==> Expected(TreeAt(disk.world, displaced), hadFiles, req, host)
    ensures Expected(TreeAt(disk.world, displaced), hadFiles, req, host) ==>
      Stepped(disk, log, 6, 9, ok) && (!ok ==> disk.refusals > old(disk.refusals))
  {
    ok := Names(disk, QuarantineRoot, displaced);
    if ok {
      ok := Revalidate(disk, displaced, hadFiles, req, host, log, 7);
    }
  }

  /** removeReplacedDumpRoot up to the clearing. */
  method QuarantineReplaced(disk: Disk, displaced: Id, hadFiles: bool, req: Request, host: Host, ghost g: Goal, ghost log: seq<Call>)
    returns (q: Quarantined)
    requires Replacing(g) && displaced == OldId(g) && HoldsTree(g.pre, displaced)
    requires TreeOk(OldTree(g)) && HostOk(host) && Expected(OldTree(g), hadFiles, req, host)
    requires At(disk, g, Displaced(g, Staging, OldTree(g))) && disk.calls == After(log, 4)
    modifies disk`world, disk`calls, disk`refusals, disk`history
    ensures At(disk, g, Displaced(g, if q.NotMoved? then Staging else QuarantineRoot, OldTree(g)))
    ensures Stepped(disk, log, 4, 9, q.Revalidated?)
    ensures !q.Revalidated? ==> (q.NotMoved? <==> FirstFailure(disk.fates, log, 4) <= MOVED)
    ensures disk.refusals >= old(disk.refusals) && (!q.Revalidated? ==> disk.refusals > old(disk.refusals))
  {
    var moved := MoveToQuarantine(disk, g, log);
    if !moved {
      return NotMoved;
    }
    var ok := InspectQuarantined(disk, displaced, hadFiles, req, host, log);
    q := if ok then Revalidated else Suspect;
  }

  /** Where the old tree is when the removal has ended. */
  predicate Removed(w: World, removal: Removal, g: Goal)
    requires Destination in g.pre.names && HoldsTree(g.pre, OldId(g))
  {
    match removal
    case Cleared => w == Displaced(g, QuarantineRoot, EMPTY_TREE)
    case CanRollBack => w == Displaced(g, Staging, OldTree(g))
    case CannotRestore => w == Displaced(g, QuarantineRoot, OldTree(g))
    case NotCleared => HoldsTree(w, OldId(g)) && w == Displaced(g, QuarantineRoot, TreeAt(w, OldId(g)))
  }

  /** Clearing begins exactly when every step up to it has gone through; after a failed
      step the root is moved back if it had been moved, as far as the schedule lets it. */
  ghost predicate RemovedBySchedule(disk: Disk, removal: Removal, log: seq<Call>, from: nat, g: Goal)
    requires from <= STEPS && Destination in g.pre.names && HoldsTree(g.pre, OldId(g))
    reads disk
  {
    var f := FirstFailure(disk.fates, log, from);
    && (removal.Cleared? || removal.NotCleared? <==> f == STEPS)
    && (f == STEPS ==> (removal.Cleared? <==> Clears(disk.fates, After(log, f), Size(OldTree(g)))))
    && (f < STEPS ==> Undone(disk, removal, After(log, f + 1), f > MOVED))
  }

  /** removeReplacedDumpRoot: the root is cleared only once it has been revalidated in
      the quarantine, and moved back otherwise. */
  method RemoveReplaced(disk: Disk, displaced: Id, hadFiles: bool, req: Request, host: Host, ghost g: Goal, ghost log: seq<Call>)
    returns (removal: Removal)
    requires Replacing(g) && displaced == OldId(g) && HoldsTree(g.pre, displaced)
    requires TreeOk(OldTree(g)) && HostOk(host) && Expected(OldTree(g), hadFiles, req, host)
    requires At(disk, g, Displaced(g, Staging, OldTree(g))) && disk.calls == After(log, 4)
    modifies disk`world, disk`calls, disk`refusals, disk`history
    ensures disk.Valid() && AllLegal(disk.history, g)
    ensures Removed(disk.world, removal, g)
    ensures disk.refusals >= old(disk.refusals)
    ensures !removal.Cleared? ==> disk.refusals > old(disk.refusals)
    ensures RemovedBySchedule(disk, removal, log, 4, g)
    ensures removal.CannotRestore? ==> Blames(disk.fates, disk.calls, RestoreFailed)
    ensures removal.NotCleared? ==> Blames(disk.fates, disk.calls, ClearFailed)
  {
    var q := QuarantineReplaced(disk, displaced, hadFiles, req, host, g, log);
    match q {
      case NotMoved =>
        removal := CanRollBack;
      case Suspect =>
        removal := RestoreRoot(disk, g);
      case Revalidated =>
        QuarantineTrees(g, OldTree(g));
        assert TreeAt(disk.world, displaced) == OldTree(g);
        var cleared := ClearRoot(disk, displaced, g);
        removal := if cleared then Cleared else NotCleared;
    }
  }

  /** After a failed step the root is moved back if it had been moved, and whether that
      succeeds is up to the schedule. */
  ghost predicate Undone(disk: Disk, removal: Removal, log: seq<Call>, moved: bool)
    reads disk
  {
    if !moved then removal.CanRollBack? && disk.calls == log
    else
      && disk.calls == log + [Move(QuarantineRoot, Staging)]
      && removal == if Goes(disk.fates, log, Move(QuarantineRoot, Staging)) then CanRollBack else CannotRestore
  }

  /** The inspections right after the exchange, as steps 0 and 1. */
  method VerifyExchange(disk: Disk, staged: Id, displaced: Id) returns (ok: bool)
    requires disk.Valid() && Staging in disk.world.names && Destination in disk.world.names
    requires disk.world.names[Staging] == displaced && disk.world.names[Destination] == staged
    modifies disk`calls, disk`refusals
    ensures disk.Valid() && disk.calls == After(old(disk.calls), 2)
    ensures ok <==> StepGoes(disk.fates, old(disk.calls), 0) && StepGoes(disk.fates, old(disk.calls), 1)
    ensures disk.refusals >= old(disk.refusals) && (!ok ==> disk.refusals > old(disk.refusals))
  {
    ghost var log := disk.calls;
    assert After(log, 0) == log;
    var swapped := Names(disk, Staging, displaced);
    var published := Names(disk, Destination, staged);
    ok := swapped && published;
  }

  /** Steps 2 to 8 and the clearing. */
  method RevalidateAndRemove(disk: Disk, displaced: Id, hadFiles: bool, req: Request, host: Host, ghost g: Goal, ghost log: seq<Call>)
    returns (removal: Removal)
    requires Replacing(g) && displaced == OldId(g) && HoldsTree(g.pre, displaced)
    requires TreeOk(OldTree(g)) && HostOk(host) && Expected(OldTree(g), hadFiles, req, host)
    requires At(disk, g, Displaced(g, Staging, OldTree(g))) && disk.calls == After(log, 2)
    modifies disk`world, disk`calls, disk`refusals, disk`history
    ensures disk.Valid() && AllLegal(disk.history, g) && Removed(disk.world, removal, g)
    ensures disk.refusals >= old(disk.refusals)
    ensures !removal.Cleared? ==> disk.refusals > old(disk.refusals)
    ensures RemovedBySchedule(disk, removal, log, 2, g)
    ensures removal.CannotRestore? ==> Blames(disk.fates, disk.calls, RestoreFailed)
    ensures removal.NotCleared? ==> Blames(disk.fates, disk.calls, ClearFailed)
  {
    var ok := RevalidateDisplaced(disk, displaced, hadFiles, req, host, g, log);
    if ok {
      removal := RemoveReplaced(disk, displaced, hadFiles, req, host, g, log);
      ScheduledFromTwo(disk, removal, log, g);
    } else {
      removal := CanRollBack;
      NothingRemoved(disk, log, g);
    }
  }

  /** Steps 2 and 3. */
  method RevalidateDisplaced(disk: Disk, displaced: Id, hadFiles: bool, req: Request, host: Host, ghost g: Goal, ghost log: seq<Call>)
    returns (ok: bool)
    requires Replacing(g) && displaced == OldId(g) && HoldsTree(g.pre, displaced)
    requires TreeOk(OldTree(g)) && HostOk(host) && Expected(OldTree(g), hadFiles, req, host)
    requires At(disk, g, Displaced(g, Staging, OldTree(g))) && disk.calls == After(log, 2)
    modifies disk`calls, disk`refusals
    ensures At(disk, g, Displaced(g, Staging, OldTree(g))) && Stepped(disk, log, 2, 4, ok)
    ensures disk.refusals >= old(disk.refusals) && (!ok ==> disk.refusals > old(disk.refusals))
  {
    assert TreeAt(disk.world, displaced) == OldTree(g);
    ok := Revalidate(disk, displaced, hadFiles, req, host, log, 2);
  }

  lemma ScheduledFromTwo(disk: Disk, removal: Removal, log: seq<Call>, g: Goal)
    requires Destination in g.pre.names && HoldsTree(g.pre, OldId(g)) && RemovedBySchedule(disk, removal, log, 4, g)
    requires FirstFailure(disk.fates, log, 2) == FirstFailure(disk.fates, log, 4)
    ensures RemovedBySchedule(disk, removal, log, 2, g)
  {
  }

  lemma NothingRemoved(disk: Disk, log: seq<Call>, g: Goal)
    requires Destination in g.pre.names && HoldsTree(g.pre, OldId(g)) && Stepped(disk, log, 2, 4, false)
    ensures RemovedBySchedule(disk, CanRollBack, log, 2, g)
  {
  }

  /** From the exchange to the end of the replacement: the schedule decides how it
      ends, and where everything is then. */
  method Settle(disk: Disk, staged: Id, displaced: Id, hadFiles: bool, req: Request, host: Host, ghost g: Goal)
    returns (failure: Option<Failure>)
    requires Replacing(g) && staged == g.Staged() && displaced == OldId(g) && HoldsTree(g.pre, displaced)
    requires TreeOk(OldTree(g)) && HostOk(host) && Expected(OldTree(g), hadFiles, req, host)
    requires At(disk, g, Displaced(g, Staging, OldTree(g))) && disk.exchanged.Some?
    modifies disk
    ensures disk.Valid() && AllLegal(disk.history, g) && disk.exchanged == old(disk.exchanged)
    ensures Settled(disk.world, failure, g)
    ensures failure == Settlement(disk.fates, old(disk.calls), Size(OldTree(g)))
    ensures failure.Some? ==> Blames(disk.fates, disk.calls, failure.value)
    ensures disk.refusals >= old(disk.refusals)
    ensures failure.Some? ==> disk.refusals > old(disk.refusals)
  {
    ghost var log := disk.calls;
    var verified := VerifyExchange(disk, staged, displaced);
    if !verified {
      VerificationBlames(disk.fates, log);
      return Some(ExchangeUnverified);
    }
    var removal := RevalidateAndRemove(disk, displaced, hadFiles, req, host, g, log);
    failure := SettleRemoval(disk, staged, displaced, removal, g, log);
  }

  /** The end of the replacement, as the removal has come out. */
  method SettleRemoval(disk: Disk, staged: Id, displaced: Id, removal: Removal, ghost g: Goal, ghost log: seq<Call>)
    returns (failure: Option<Failure>)
    requires Replacing(g) && staged == g.Staged() && displaced == OldId(g) && HoldsTree(g.pre, displaced)
    requires disk.Valid() && AllLegal(disk.history, g) && disk.exchanged.Some?
    requires Removed(disk.world, removal, g) && RemovedBySchedule(disk, removal, log, 2, g)
    requires StepGoes(disk.fates, log, 0) && StepGoes(disk.fates, log, 1)
    requires removal.CannotRestore? ==> Blames(disk.fates, disk.calls, RestoreFailed)
    requires removal.NotCleared? ==> Blames(disk.fates, disk.calls, ClearFailed)
    modifies disk
    ensures disk.Valid() && AllLegal(disk.history, g) && disk.exchanged == old(disk.exchanged)
    ensures Settled(disk.world, failure, g)
    ensures failure == Settlement(disk.fates, log, Size(OldTree(g)))
    ensures failure.Some? ==> Blames(disk.fates, disk.calls, failure.value)
    ensures disk.refusals >= old(disk.refusals)
  {
    match removal {
      case Cleared =>
        return None;
      case CanRollBack =>
        var rolledBack := RollbackOrBlame(disk, staged, displaced, g);
        return Some(rolledBack);
      case CannotRestore =>
        return Some(RestoreFailed);
      case NotCleared =>
        return Some(ClearFailed);
    }
  }

  /** Where everything is when a replacement has ended. */
  predicate Settled(w: World, failure: Option<Failure>, g: Goal)
    requires Destination in g.pre.names && HoldsTree(g.pre, OldId(g))
  {
    if failure.None? then w == Displaced(g, QuarantineRoot, EMPTY_TREE)
    else
      match failure.value
      case NotPublished => false
      case RolledBack => w == StagedAs(g, Staging, g.output)
      case ExchangeUnverified => w == Displaced(g, Staging, OldTree(g))
      case RollbackRefused => w == Displaced(g, Staging, OldTree(g))
      case RollbackFailed => w == Displaced(g, Staging, OldTree(g))
      case RestoreFailed => w == Displaced(g, QuarantineRoot, OldTree(g))
      case ClearFailed => HoldsTree(w, OldId(g)) && w == Displaced(g, QuarantineRoot, TreeAt(w, OldId(g)))
  }

  /** What the goal says of the destination: whether what stands there may go. */
  ghost predicate TargetFor(g: Goal, req: Request, host: Host) {
    && GoalOk(g) && HostOk(host)
    && g.mayReplace == (Destination in g.pre.names && Replaceable(g.pre.objects[OldId(g)], req, host))
    && (Destination in g.pre.names && HoldsTree(g.pre, OldId(g)) ==> TreeOk(TreeAt(g.pre, OldId(g))))
  }

  /** The goal of a run for a request: also the output it intends, and whether the
      validator accepts that output. */
  ghost predicate GoalFor(g: Goal, req: Request, host: Host) {
    && TargetFor(g, req, host)
    && g.output == Output(req.input, host)
    && g.accepted == (Writable(req.input, host) && Accepts(g.output, host))
  }

  /** Nothing about the request or the destination forbids publication. */
  ghost predicate Publishable(g: Goal, req: Request) {
    && g.accepted && (req.force ==> !req.dangerous)
    && (Destination in g.pre.names ==> g.mayReplace)
  }

  /** Everything publishReplacingDirectory checks before it exchanges: on success
      whether the old directory held files. */
  method AdmitTarget(disk: Disk, displaced: Id, req: Request, host: Host, ghost g: Goal) returns (ok: bool, hadFiles: bool)
    requires TargetFor(g, req, host) && g.accepted && Destination in g.pre.names && displaced == OldId(g)
    requires req.force ==> !req.dangerous
    requires At(disk, g, StagedAs(g, Staging, g.output))
    modifies disk`calls, disk`refusals
    ensures disk.Valid()
    ensures ok ==> Replacing(g) && HoldsTree(g.pre, displaced) && Publishable(g, req)
    ensures ok ==> TreeOk(OldTree(g)) && Expected(OldTree(g), hadFiles, req, host)
    ensures disk.refusals >= old(disk.refusals)
    ensures !ok ==> disk.refusals > old(disk.refusals) || !Publishable(g, req)
  {
    ok, hadFiles := false, false;
    assert disk.world.objects[displaced] == g.pre.objects[displaced];
    if disk.world.objects[displaced].NotDirectory? {
      return;
    }
    var tree := disk.world.objects[displaced].tree;
    ok := Passes(disk);
    if !ok {
      return;
    }
    if TooDeep(tree) {
      ok := false;
      return;
    }
    hadFiles := tree.files != map[];
    if hadFiles && !req.force {
      ok := false;
      return;
    }
    if hadFiles {
      ok := ValidateExisting(disk, tree, req, host);
      if !ok {
        return;
      }
    }
    ok := Passes(disk);
    if !ok {
      return;
    }
    ok := Names(disk, Destination, displaced);
  }

  /** The outcome is that of the exchange, if one was made: it did not go through, or
      the schedule settled the replacement. */
  predicate Accounted(fates: Schedule, exchanged: Option<seq<Call>>, failure: Option<Failure>, g: Goal) {
    match exchanged
    case None => (failure.None? && Destination !in g.pre.names) || failure == Some(NotPublished)
    case Some(log) =>
      && Destination in g.pre.names && HoldsTree(g.pre, OldId(g))
      && failure == if fates(log).Proceeds? then Settlement(fates, log, Size(OldTree(g))) else Some(NotPublished)
  }

  /** publishReplacingDirectoryWithCatalogAndHooks */
  method PublishReplacing(disk: Disk, staged: Id, req: Request, host: Host, ghost g: Goal) returns (failure: Option<Failure>)
    requires TargetFor(g, req, host) && g.accepted && staged == g.Staged() && disk.exchanged == None
    requires At(disk, g, StagedAs(g, Staging, g.output))
    modifies disk
    ensures disk.Valid() && AllLegal(disk.history, g)
    ensures Ended(disk.world, failure, g) && Accounted(disk.fates, disk.exchanged, failure, g)
    ensures disk.refusals >= old(disk.refusals)
    ensures failure.None? ==> Publishable(g, req)
    ensures failure.Some? ==> disk.refusals > old(disk.refusals) || !Publishable(g, req)
  {
    if req.force {
      if req.dangerous {
        return Some(NotPublished);
      }
      var ok := Passes(disk);
      if !ok {
        return Some(NotPublished);
      }
    }
    var found := disk.Lstat(Destination);
    match found {
      case Unknown =>
        return Some(NotPublished);
      case Absent =>
        var placed := PublishNoReplace(disk, g);
        return if placed.PlacedNew? then None else Some(NotPublished);
      case Found(displaced) =>
        failure := ReplaceFound(disk, staged, displaced, req, host, g);
    }
  }

  /** The target exists: admit it, exchange, and settle. */
  method ReplaceFound(disk: Disk, staged: Id, displaced: Id, req: Request, host: Host, ghost g: Goal) returns (failure: Option<Failure>)
    requires TargetFor(g, req, host) && g.accepted && staged == g.Staged() && disk.exchanged == None
    requires Destination in g.pre.names && displaced == OldId(g) && (req.force ==> !req.dangerous)
    requires At(disk, g, StagedAs(g, Staging, g.output))
    modifies disk
    ensures disk.Valid() && AllLegal(disk.history, g)
    ensures Ended(disk.world, failure, g) && Accounted(disk.fates, disk.exchanged, failure, g)
    ensures disk.refusals >= old(disk.refusals)
    ensures failure.None? ==> Publishable(g, req)
    ensures failure.Some? ==> disk.refusals > old(disk.refusals) || !Publishable(g, req)
  {
    var ok, hadFiles := AdmitTarget(disk, displaced, req, host, g);
    if !ok {
      return Some(NotPublished);
    }
    ok := Passes(disk);
    if !ok {
      return Some(NotPublished);
    }
    failure := ExchangeAndSettle(disk, staged, displaced, hadFiles, req, host, g);
  }

  method ExchangeAndSettle(disk: Disk, staged: Id, displaced: Id, hadFiles: bool, req: Request, host: Host, ghost g: Goal)
    returns (failure: Option<Failure>)
    requires Replacing(g) && staged == g.Staged() && displaced == OldId(g) && HoldsTree(g.pre, displaced)
    requires TreeOk(OldTree(g)) && HostOk(host) && Expected(OldTree(g), hadFiles, req, host)
    requires At(disk, g, StagedAs(g, Staging, g.output)) && disk.exchanged == None
    modifies disk
    ensures disk.Valid() && AllLegal(disk.history, g)
    ensures Ended(disk.world, failure, g) && Accounted(disk.fates, disk.exchanged, failure, g)
    ensures disk.refusals >= old(disk.refusals)
    ensures failure.Some? ==> disk.refusals > old(disk.refusals)
  {
    ExchangeMoves(g);
    var exchanged := disk.Exchange(Staging, Destination);
    if !exchanged.Exchanged? {
      return Some(NotPublished);
    }
    assert disk.world == Displaced(g, Staging, OldTree(g));
    failure := Settle(disk, staged, displaced, hadFiles, req, host, g);
  }

  /** Where everything is when publication proper has ended, before the cleanup. */
  predicate Ended(w: World, failure: Option<Failure>, g: Goal)
  {
    if Destination !in g.pre.names then
      match failure
      case None => w == StagedAs(g, Destination, g.output)
      case Some(f) => f.NotPublished? && w == StagedAs(g, Staging, g.output)
    else if failure == Some(NotPublished) then w == StagedAs(g, Staging, g.output)
    else HoldsTree(g.pre, OldId(g)) && g.mayReplace && g.accepted && Settled(w, failure, g)
  }

  /** The world of the pre-state with the staging directory added. */
  lemma StagingMade(g: Goal, w: World, t: Tree)
    requires GoalOk(g) && HoldsTree(w, g.Staged())
    ensures WithTree(StagedAs(g, Staging, t), g.Staged(), TreeAt(w, g.Staged())) == StagedAs(g, Staging, TreeAt(w, g.Staged()))
  {
    assert g.pre.objects[g.Staged() := Directory(t)][g.Staged() := Directory(TreeAt(w, g.Staged()))]
        == g.pre.objects[g.Staged() := Directory(TreeAt(w, g.Staged()))];
  }

  lemma InsideIsLegal(history: seq<World>, n: nat, base: World, g: Goal)
    requires GoalOk(g) && n <= |history| && AllLegal(history[..n], g)
    requires base == StagedAs(g, Staging, EMPTY_TREE)
    requires OnlyInside(history, n, base, g.Staged())
    ensures AllLegal(history, g)
  {
    forall k | 0 <= k < |history| ensures Legal(history[k], g) {
      if k < n {
        assert history[..n][k] == history[k];
      } else {
        StagingMade(g, history[k], EMPTY_TREE);
      }
    }
  }

  /** Writes the artifact into the staging directory. */
  method WriteStaged(disk: Disk, staged: Id, req: Request, host: Host, ghost g: Goal) returns (ok: bool)
    requires GoalFor(g, req, host) && staged == g.Staged()
    requires At(disk, g, StagedAs(g, Staging, EMPTY_TREE))
    modifies disk`world, disk`calls, disk`refusals, disk`history
    ensures disk.Valid() && AllLegal(disk.history, g)
    ensures HoldsTree(disk.world, staged) && disk.world == StagedAs(g, Staging, TreeAt(disk.world, staged))
    ensures ok ==> Writable(req.input, host) && disk.world == StagedAs(g, Staging, g.output)
    ensures disk.refusals >= old(disk.refusals)
    ensures !ok ==> disk.refusals > old(disk.refusals) || !g.accepted
  {
    ghost var n, base := |disk.history|, disk.world;
    ok := WriteArtifact(disk, staged, req.input, host);
    assert disk.history[..n] == old(disk.history);
    InsideIsLegal(disk.history, n, base, g);
    StagingMade(g, disk.world, EMPTY_TREE);
  }

  /** Validates it there and makes sure of the directory. */
  method CheckStaged(disk: Disk, staged: Id, req: Request, host: Host, ghost g: Goal) returns (ok: bool)
    requires GoalFor(g, req, host) && staged == g.Staged() && Writable(req.input, host)
    requires At(disk, g, StagedAs(g, Staging, g.output))
    modifies disk`calls, disk`refusals
    ensures disk.Valid()
    ensures ok ==> g.accepted
    ensures disk.refusals >= old(disk.refusals)
    ensures !ok ==> disk.refusals > old(disk.refusals) || !g.accepted
  {
    ok := Passes(disk);
    if !ok {
      return;
    }
    OutputTreeOk(req.input, host);
    var artifact := ValidateArtifact(TreeAt(disk.world, staged), host);
    if artifact.None? {
      return false;
    }
    ok := Names(disk, Staging, staged);
    if ok {
      ok := Passes(disk);
    }
  }

  /** Writes the artifact into the staging directory and validates it there. */
  method StageArtifact(disk: Disk, staged: Id, req: Request, host: Host, ghost g: Goal) returns (ok: bool)
    requires GoalFor(g, req, host) && staged == g.Staged()
    requires At(disk, g, StagedAs(g, Staging, EMPTY_TREE))
    modifies disk`world, disk`calls, disk`refusals, disk`history
    ensures disk.Valid() && AllLegal(disk.history, g)
    ensures HoldsTree(disk.world, staged) && disk.world == StagedAs(g, Staging, TreeAt(disk.world, staged))
    ensures ok ==> g.accepted && disk.world == StagedAs(g, Staging, g.output)
    ensures disk.refusals >= old(disk.refusals)
    ensures !ok ==> disk.refusals > old(disk.refusals) || !g.accepted
  {
    ok := WriteStaged(disk, staged, req, host, g);
    if ok {
      ok := CheckStaged(disk, staged, req, host, g);
    }
  }

  /** From the staging directory to the end of publication proper. */
  method PublishStaged(disk: Disk, staged: Id, req: Request, host: Host, ghost g: Goal) returns (failure: Option<Failure>)
    requires GoalFor(g, req, host) && staged == g.Staged()
    requires At(disk, g, StagedAs(g, Staging, EMPTY_TREE)) && disk.exchanged == None
    modifies disk
    ensures disk.Valid() && AllLegal(disk.history, g) && Accounted(disk.fates, disk.exchanged, failure, g)
    ensures failure.None? ==> Publishable(g, req)
    ensures Ended(disk.world, failure, g)
         || (failure == Some(NotPublished) && StillBefore(disk.world, g))
    ensures failure.Some? && !failure.value.Strands() ==> !NotStaged(disk.world, g)
    ensures disk.refusals >= old(disk.refusals)
    ensures failure.Some? ==> disk.refusals > old(disk.refusals) || !Publishable(g, req)
  {
    var ok := StageArtifact(disk, staged, req, host, g);
    if !ok {
      return Some(NotPublished);
    }
    if req.force {
      failure := PublishReplacing(disk, staged, req, host, g);
    } else {
      var placed := PublishNoReplace(disk, g);
      match placed {
        case PlacedNew =>
          return None;
        case Occupied =>
          failure := PublishReplacing(disk, staged, req, host, g);
        case PlacementFailed =>
          return Some(NotPublished);
      }
    }
  }

  // ------------------------------------------------------- the whole run

  /** What a run for a request sets out to do from a given state. */
  ghost function GoalOf(pre: World, req: Request, host: Host): Goal {
    var output := Output(req.input, host);
    Goal(pre, output, Writable(req.input, host) && Accepts(output, host),
         Destination in pre.names && pre.names[Destination] in pre.objects
         && Replaceable(pre.objects[pre.names[Destination]], req, host))
  }

  /** Where everything is when a run has returned, the deferred cleanup included. */
  predicate Left(w: World, failure: Option<Failure>, g: Goal) {
    && (failure.None? || failure == Some(NotPublished) || (Destination in g.pre.names && g.mayReplace && g.accepted))
    && if failure.Some? && !failure.value.Strands() then w == g.pre || StillBefore(w, g)
    else if Destination in g.pre.names then HoldsTree(g.pre, OldId(g)) && g.mayReplace && g.accepted && Settled(w, failure, g)
    else failure.None? && g.accepted && w == StagedAs(g, Destination, g.output)
  }

  /** Reading the outcome: no error means the whole new dump is in place and nothing
      of the old one is left; an error leaves the destination as it was exactly when
      it is not one of those that strand the new dump there, and then the old tree is
      intact at the staging path or in the quarantine unless it was being cleared. */
  lemma OutcomeTells(w: World, failure: Option<Failure>, g: Goal)
    requires GoalOk(g) && Left(w, failure, g)
    ensures failure.None? ==> DestinationIsNew(w, g)
    ensures failure.None? && Destination in g.pre.names ==>
      QuarantineRoot in w.names && w.names[QuarantineRoot] == OldId(g) && OldId(g) in w.objects
      && w.objects[OldId(g)] == Directory(EMPTY_TREE)
    ensures failure.Some? ==> (DestinationAsBefore(w, g) <==> !failure.value.Strands())
    ensures failure.Some? && failure.value.Strands() ==> Destination in g.pre.names && DestinationIsNew(w, g)
    ensures failure.Some? && failure.value.Strands() && !failure.value.ClearFailed? ==>
      var place := if failure.value.RestoreFailed? then QuarantineRoot else Staging;
      && place in w.names && w.names[place] == OldId(g) && OldId(g) in w.objects && OldId(g) in g.pre.objects
      && w.objects[OldId(g)] == g.pre.objects[OldId(g)]
  {
  }

  lemma EndedIsLeft(w: World, failure: Option<Failure>, g: Goal, w': World)
    requires GoalOk(g) && (failure.None? ==> g.accepted)
    requires Ended(w, failure, g) || (failure == Some(NotPublished) && StillBefore(w, g))
    requires failure.Some? ==> if NotStaged(w, g) then w' == w else StillBefore(w', g)
    requires failure.None? ==> w' == w
    ensures Left(w', failure, g)
  {
  }

  lemma EndedCanClean(w: World, failure: Option<Failure>, g: Goal)
    requires GoalOk(g) && failure.Some?
    requires Ended(w, failure, g) || (failure == Some(NotPublished) && StillBefore(w, g))
    ensures NotStaged(w, g) || StillBefore(w, g)
  {
  }

  /** Failing once, a run leaves nothing of what it staged. */
  ghost predicate Tidy(w: World, failure: Option<Failure>, refused: int, g: Goal, req: Request) {
    failure.Some? && !failure.value.Strands() && refused <= (if Publishable(g, req) then 1 else 0) ==> StagedGone(w, g)
  }

  /** The run from the fresh staging directory on. */
  method PublishFrom(disk: Disk, req: Request, host: Host, ghost g: Goal) returns (failure: Option<Failure>)
    requires GoalFor(g, req, host) && At(disk, g, StagedAs(g, Staging, EMPTY_TREE)) && disk.exchanged == None
    modifies disk
    ensures disk.Valid() && AllLegal(disk.history, g)
    ensures failure.None? ==> Publishable(g, req)
    ensures Left(disk.world, failure, g) && Accounted(disk.fates, disk.exchanged, failure, g)
    ensures disk.refusals >= old(disk.refusals)
    ensures failure.Some? ==> disk.refusals > old(disk.refusals) || !Publishable(g, req)
    ensures Tidy(disk.world, failure, disk.refusals - old(disk.refusals), g, req)
  {
    var staged := InspectStaging(disk, g);
    if staged.None? {
      return Some(NotPublished);
    }
    var ready := Passes(disk);
    if !ready {
      failure := Abandon(disk, staged.value, g);
      return;
    }
    failure := PublishAndClean(disk, staged.value, req, host, g);
  }

  /** The identity of the fresh staging directory. */
  method InspectStaging(disk: Disk, ghost g: Goal) returns (staged: Option<Id>)
    requires GoalOk(g) && At(disk, g, StagedAs(g, Staging, EMPTY_TREE))
    modifies disk`calls, disk`refusals
    ensures disk.Valid() && Left(disk.world, Some(NotPublished), g)
    ensures StagedGone(disk.world, g)
    ensures staged.Some? ==> staged.value == g.Staged()
    ensures disk.refusals >= old(disk.refusals) && (staged.None? ==> disk.refusals > old(disk.refusals))
  {
    var found := disk.Lstat(Staging);
    staged := if found.Found? then Some(found.id) else None;
  }

  /** Cleans up before anything has been staged. */
  method Abandon(disk: Disk, staged: Id, ghost g: Goal) returns (failure: Option<Failure>)
    requires GoalOk(g) && staged == g.Staged() && At(disk, g, StagedAs(g, Staging, EMPTY_TREE))
    modifies disk`world, disk`calls, disk`refusals, disk`history
    ensures disk.Valid() && AllLegal(disk.history, g) && failure == Some(NotPublished)
    ensures Left(disk.world, failure, g)
    ensures disk.refusals >= old(disk.refusals)
    ensures disk.refusals == old(disk.refusals) ==> StagedGone(disk.world, g)
  {
    CleanupStaging(disk, staged, g);
    failure := Some(NotPublished);
  }

  /** publishContextWithCatalogAndHooks after its deferred cleanup is in force. */
  method PublishAndClean(disk: Disk, staged: Id, req: Request, host: Host, ghost g: Goal) returns (failure: Option<Failure>)
    requires GoalFor(g, req, host) && staged == g.Staged() && At(disk, g, StagedAs(g, Staging, EMPTY_TREE))
    requires disk.exchanged == None
    modifies disk
    ensures disk.Valid() && AllLegal(disk.history, g)
    ensures failure.None? ==> Publishable(g, req)
    ensures Left(disk.world, failure, g) && Accounted(disk.fates, disk.exchanged, failure, g)
    ensures disk.refusals >= old(disk.refusals)
    ensures failure.Some? ==> disk.refusals > old(disk.refusals) || !Publishable(g, req)
    ensures Tidy(disk.world, failure, disk.refusals - old(disk.refusals), g, req)
  {
    failure := PublishStaged(disk, staged, req, host, g);
    ghost var ended := disk.world;
    if failure.Some? {
      CleanUpAfter(disk, staged, failure.value, g);
    } else {
      EndedIsLeft(ended, failure, g, ended);
    }
  }

  /** The deferred cleanup after an error. */
  method CleanUpAfter(disk: Disk, staged: Id, ghost failure: Failure, ghost g: Goal)
    requires GoalOk(g) && staged == g.Staged() && At(disk, g, disk.world)
    requires Ended(disk.world, Some(failure), g) || (failure == NotPublished && StillBefore(disk.world, g))
    requires !failure.Strands() ==> !NotStaged(disk.world, g)
    modifies disk`world, disk`calls, disk`refusals, disk`history
    ensures disk.Valid() && AllLegal(disk.history, g) && disk.refusals >= old(disk.refusals)
    ensures Left(disk.world, Some(failure), g)
    ensures !failure.Strands() && disk.refusals == old(disk.refusals) ==> StagedGone(disk.world, g)
  {
    ghost var ended := disk.world;
    EndedCanClean(ended, Some(failure), g);
    CleanupStaging(disk, staged, g);
    EndedIsLeft(ended, Some(failure), g, disk.world);
  }

  lemma GoalOfIsFor(pre: World, req: Request, host: Host)
    requires WorldOk(pre) && HostOk(host)
    requires Staging !in pre.names && QuarantineRoot !in pre.names && DiscardRoot !in pre.names
    requires forall id :: HoldsTree(pre, id) ==> TreeOk(TreeAt(pre, id))
    ensures GoalFor(GoalOf(pre, req, host), req, host)
  {
  }

  method MakeStaging(disk: Disk, ghost g: Goal) returns (ok: bool)
    requires GoalOk(g) && At(disk, g, g.pre)
    modifies disk`world, disk`calls, disk`refusals, disk`history
    ensures disk.refusals >= old(disk.refusals)
    ensures At(disk, g, if ok then StagedAs(g, Staging, EMPTY_TREE) else g.pre)
    ensures !ok ==> disk.refusals > old(disk.refusals)
  {
    ok := disk.MakeDirectory(Staging);
    assert ok ==> disk.world == StagedAs(g, Staging, EMPTY_TREE);
  }

  /** The exchange went through and the schedule from there on leaves the new dump. */
  predicate StrandedBySchedule(fates: Schedule, exchanged: Option<seq<Call>>, g: Goal) {
    && exchanged.Some? && fates(exchanged.value).Proceeds?
    && Destination in g.pre.names && HoldsTree(g.pre, OldId(g))
    && Stranding(fates, exchanged.value, Size(OldTree(g)))
  }

  /** A run that sets out for a goal. An error leaves the new dump in place exactly
      when the schedule has let the exchange through and then prevents what should
      undo it. */
  method PublishFor(disk: Disk, req: Request, host: Host, ghost g: Goal) returns (failure: Option<Failure>)
    requires GoalFor(g, req, host) && At(disk, g, g.pre) && disk.exchanged == None
    modifies disk
    ensures disk.Valid() && AllLegal(disk.history, g)
    ensures Left(disk.world, failure, g) && Accounted(disk.fates, disk.exchanged, failure, g)
    ensures failure.Some? ==> (failure.value.Strands() <==> StrandedBySchedule(disk.fates, disk.exchanged, g))
    ensures disk.refusals >= old(disk.refusals)
    ensures failure.None? ==> Publishable(g, req)
    ensures failure.Some? ==> disk.refusals > old(disk.refusals) || !Publishable(g, req)
    ensures req.force && req.dangerous ==> failure == Some(NotPublished) && disk.world == old(disk.world)
    ensures Tidy(disk.world, failure, disk.refusals - old(disk.refusals), g, req)
  {
    var ok := Passes(disk);
    if !ok || (req.force && req.dangerous) {
      return Some(NotPublished);
    }
    ok := Passes(disk);
    if !ok {
      return Some(NotPublished);
    }
    ok := MakeStaging(disk, g);
    if !ok {
      return Some(NotPublished);
    }
    failure := PublishFrom(disk, req, host, g);
  }

  /** The destination is the same directory entry, with the same object under it. */
  predicate SameDestination(pre: World, w: World) {
    && Destination in pre.names && Destination in w.names && w.names[Destination] == pre.names[Destination]
    && pre.names[Destination] in pre.objects && pre.names[Destination] in w.objects
    && w.objects[pre.names[Destination]] == pre.objects[pre.names[Destination]]
  }

  lemma ProtectedStays(pre: World, w: World, failure: Option<Failure>, req: Request, host: Host)
    requires WorldOk(pre) && GoalOk(GoalOf(pre, req, host)) && Destination in pre.names
    requires !Replaceable(pre.objects[pre.names[Destination]], req, host)
    requires Left(w, failure, GoalOf(pre, req, host))
    requires failure.None? ==> Publishable(GoalOf(pre, req, host), req)
    ensures failure == Some(NotPublished) && SameDestination(pre, w)
  {
    OutcomeTells(w, failure, GoalOf(pre, req, host));
  }

  ghost predicate AllGo(fates: Schedule) {
    forall log :: fates(log).Proceeds?
  }

  lemma {:induction false} AllProceeds(fates: Schedule, calls: seq<Call>)
    requires AllGo(fates)
    ensures Refusals(fates, calls) == 0
  {
    if calls != [] {
      AllProceeds(fates, calls[..|calls| - 1]);
    }
  }

  /** The depth of a path is one more than the slashes in it. */
  lemma {:induction false} DepthCountsSlashes(path: string)
    ensures Depth(path) == multiset(path)['/'] + 1
  {
    if path != "" {
      DepthCountsSlashes(path[..|path| - 1]);
      assert path == path[..|path| - 1] + [path[|path| - 1]];
    }
  }

  lemma DeepMeansSlashes(tree: Tree)
    ensures TooDeep(tree) <==> exists d :: d in tree.dirs && multiset(d)['/'] >= 32
  {
    forall d | d in tree.dirs ensures Depth(d) == multiset(d)['/'] + 1 {
      DepthCountsSlashes(d);
    }
  }

  /** Said of the object itself: what a run must leave alone. Without force it is
      whatever holds a file; with force whatever is not a complete dump that the
      validator accepts and whose resources the catalog knows in the same shape; and
      always what is no directory, or nests deeper than 32 levels. */
  ghost predicate MustStay(target: Object, req: Request, host: Host) {
    || target.NotDirectory?
    || (exists d :: d in target.tree.dirs && multiset(d)['/'] >= 32)
    || (target.tree.files != map[] && !req.force)
    || (target.tree.files != map[] && !Accepts(target.tree, host))
    || (Accepts(target.tree, host) && ManifestOf(target.tree).status != "complete")
    || (Accepts(target.tree, host)
        && exists r :: r in ManifestOf(target.tree).resources.value && r.status == "ok"
             && (r.Id() !in req.catalog || req.catalog[r.Id()] != r.shape))
  }

  lemma MustStayExactly(target: Object, req: Request, host: Host)
    requires !(req.force && req.dangerous)
    ensures Replaceable(target, req, host) <==> !MustStay(target, req, host)
  {
    if target.Directory? {
      DeepMeansSlashes(target.tree);
    }
  }

  lemma StaysOnRefusal(pre: World, w: World, failure: Option<Failure>, req: Request, host: Host)
    requires WorldOk(pre) && GoalOk(GoalOf(pre, req, host)) && Destination in pre.names
    requires MustStay(pre.objects[pre.names[Destination]], req, host)
    requires !(req.force && req.dangerous) && Left(w, failure, GoalOf(pre, req, host))
    requires failure.None? ==> Publishable(GoalOf(pre, req, host), req)
    ensures failure == Some(NotPublished) && SameDestination(pre, w)
  {
    MustStayExactly(pre.objects[pre.names[Destination]], req, host);
    ProtectedStays(pre, w, failure, req, host);
  }

  /** Nothing stands in the way of the request. */
  ghost predicate MayPublish(pre: World, req: Request, host: Host)
    requires WorldOk(pre)
  {
    && Writable(req.input, host) && Accepts(Output(req.input, host), host) && !(req.force && req.dangerous)
    && (Destination in pre.names ==> !MustStay(pre.objects[pre.names[Destination]], req, host))
  }

  lemma MayPublishExactly(pre: World, req: Request, host: Host)
    requires WorldOk(pre)
    ensures Publishable(GoalOf(pre, req, host), req) <==> MayPublish(pre, req, host)
  {
    if Destination in pre.names && !(req.force && req.dangerous) {
      MustStayExactly(pre.objects[pre.names[Destination]], req, host);
    }
  }

  lemma FreeTarget(target: Object, req: Request, host: Host)
    requires target.Directory? && forall d :: d in target.tree.dirs ==> multiset(d)['/'] < 32
    requires
      || target.tree.files == map[]
      || (req.force && Accepts(target.tree, host) && ManifestOf(target.tree).status == "complete"
          && forall r :: r in ManifestOf(target.tree).resources.value && r.status == "ok" ==>
               r.Id() in req.catalog && req.catalog[r.Id()] == r.shape)
    ensures !MustStay(target, req, host)
  {
  }

  lemma FreeToGo(pre: World, req: Request, host: Host)
    requires WorldOk(pre)
    ensures
      && Writable(req.input, host) && Accepts(Output(req.input, host), host) && !(req.force && req.dangerous)
      && (Destination in pre.names ==>
            var target := pre.objects[pre.names[Destination]];
            && target.Directory? && (forall d :: d in target.tree.dirs ==> multiset(d)['/'] < 32)
            && (target.tree.files == map[]
                || (req.force && Accepts(target.tree, host) && ManifestOf(target.tree).status == "complete"
                    && forall r :: r in ManifestOf(target.tree).resources.value && r.status == "ok" ==>
                         r.Id() in req.catalog && req.catalog[r.Id()] == r.shape)))
      ==> MayPublish(pre, req, host)
  {
    if Destination in pre.names {
      var target := pre.objects[pre.names[Destination]];
      if target.Directory? && (forall d :: d in target.tree.dirs ==> multiset(d)['/'] < 32)
         && (target.tree.files == map[]
             || (req.force && Accepts(target.tree, host) && ManifestOf(target.tree).status == "complete"
                 && forall r :: r in ManifestOf(target.tree).resources.value && r.status == "ok" ==>
                      r.Id() in req.catalog && req.catalog[r.Id()] == r.shape)) {
        FreeTarget(target, req, host);
      }
    }
  }

  lemma NewStands(pre: World, w: World, req: Request, host: Host)
    requires GoalOk(GoalOf(pre, req, host)) && Left(w, None, GoalOf(pre, req, host))
    ensures Destination in w.names && w.names[Destination] in w.objects
    ensures w.objects[w.names[Destination]] == Directory(Output(req.input, host))
  {
    OutcomeTells(w, None, GoalOf(pre, req, host));
  }

  /** Nothing a run has staged stays behind: every object it made is an empty directory. */
  predicate NothingLeft(pre: World, w: World) {
    forall id :: id in w.objects && id !in pre.objects ==> w.objects[id] == Directory(EMPTY_TREE)
  }

  lemma TidyMeans(pre: World, w: World, failure: Option<Failure>, refused: int, req: Request, host: Host)
    requires WorldOk(pre) && GoalOk(GoalOf(pre, req, host)) && Left(w, failure, GoalOf(pre, req, host))
    requires Tidy(w, failure, refused, GoalOf(pre, req, host), req)
    ensures failure in {Some(NotPublished), Some(RolledBack)} && refused <= (if MayPublish(pre, req, host) then 1 else 0) ==>
      NothingLeft(pre, w)
  {
    MayPublishExactly(pre, req, host);
  }

  /** What every publication does about what stands at the destination. */
  ghost predicate Respects(pre: World, w: World, failure: Option<Failure>, allProceed: bool, req: Request, host: Host)
    requires WorldOk(pre)
  {
    && (Destination in pre.names && MustStay(pre.objects[pre.names[Destination]], req, host) ==>
          failure == Some(NotPublished) && SameDestination(pre, w))
    && (req.force && req.dangerous ==> failure == Some(NotPublished) && w == pre)
    && (allProceed && MayPublish(pre, req, host) ==> failure.None?)
    && (failure.None? ==>
          && MayPublish(pre, req, host) && Destination in w.names && w.names[Destination] in w.objects
          && w.objects[w.names[Destination]] == Directory(Output(req.input, host)))
  }

  lemma RunRespects(pre: World, w: World, failure: Option<Failure>, fates: Schedule, calls: seq<Call>, req: Request, host: Host)
    requires WorldOk(pre) && GoalOk(GoalOf(pre, req, host)) && Left(w, failure, GoalOf(pre, req, host))
    requires failure.None? ==> Publishable(GoalOf(pre, req, host), req)
    requires failure.Some? ==> Refusals(fates, calls) > 0 || !Publishable(GoalOf(pre, req, host), req)
    requires req.force && req.dangerous ==> failure == Some(NotPublished) && w == pre
    ensures Respects(pre, w, failure, AllGo(fates), req, host)
  {
    MayPublishExactly(pre, req, host);
    if Destination in pre.names && MustStay(pre.objects[pre.names[Destination]], req, host) {
      if !(req.force && req.dangerous) {
        StaysOnRefusal(pre, w, failure, req, host);
      }
    }
    if AllGo(fates) {
      AllProceeds(fates, calls);
    }
    if failure.None? {
      NewStands(pre, w, req, host);
    }
  }

  /** What is known of a run that set out for a goal on a fresh disk: legal states only;
      the end state and the outcome that the schedule determines; an error leaves the new
      dump in place exactly on the stranding schedules; success only for what may be
      published, failure only for a cause; and nothing staged left behind. */
  ghost predicate RanFor(disk: Disk, failure: Option<Failure>, g: Goal, req: Request)
    reads disk
  {
    && disk.Valid() && AllLegal(disk.history, g)
    && Left(disk.world, failure, g) && Accounted(disk.fates, disk.exchanged, failure, g)
    && (failure.Some? ==> (failure.value.Strands() <==> StrandedBySchedule(disk.fates, disk.exchanged, g)))
    && (failure.None? ==> Publishable(g, req))
    && (failure.Some? ==> disk.refusals > 0 || !Publishable(g, req))
    && Tidy(disk.world, failure, disk.refusals, g, req)
  }

  lemma RanRespects(disk: Disk, failure: Option<Failure>, pre: World, req: Request, host: Host)
    requires WorldOk(pre) && GoalOk(GoalOf(pre, req, host)) && RanFor(disk, failure, GoalOf(pre, req, host), req)
    requires req.force && req.dangerous ==> failure == Some(NotPublished) && disk.world == pre
    ensures Respects(pre, disk.world, failure, AllGo(disk.fates), req, host)
  {
    RunRespects(pre, disk.world, failure, disk.fates, disk.calls, req, host);
  }

  lemma RanTidy(disk: Disk, failure: Option<Failure>, pre: World, req: Request, host: Host)
    requires WorldOk(pre) && GoalOk(GoalOf(pre, req, host)) && RanFor(disk, failure, GoalOf(pre, req, host), req)
    ensures failure in {Some(NotPublished), Some(RolledBack)} && disk.refusals <= (if MayPublish(pre, req, host) then 1 else 0) ==>
      NothingLeft(pre, disk.world)
  {
    TidyMeans(pre, disk.world, failure, disk.refusals, req, host);
  }

  method PublishRun(disk: Disk, req: Request, host: Host) returns (failure: Option<Failure>)
    requires disk.Valid() && disk.history == [disk.world] && disk.calls == [] && HostOk(host)
    requires Staging !in disk.world.names && QuarantineRoot !in disk.world.names && DiscardRoot !in disk.world.names
    requires forall id :: HoldsTree(disk.world, id) ==> TreeOk(TreeAt(disk.world, id))
    modifies disk
    ensures RanFor(disk, failure, GoalOf(old(disk.world), req, host), req)
    ensures Respects(old(disk.world), disk.world, failure, AllGo(disk.fates), req, host)
    ensures
      (failure in {Some(NotPublished), Some(RolledBack)}
       && disk.refusals <= (if MayPublish(old(disk.world), req, host) then 1 else 0)) ==>
      NothingLeft(old(disk.world), disk.world)
  {
    ghost var pre := disk.world;
    GoalOfIsFor(pre, req, host);
    failure := PublishFor(disk, req, host, GoalOf(pre, req, host));
    RanTidy(disk, failure, pre, req, host);
    RanRespects(disk, failure, pre, req, host);
  }

  /** publishContextWithCatalogAndHooks, from the first check to the deferred cleanup.
      What must stay stays; what may go, goes when no call fails. */
  method Publish(disk: Disk, req: Request, host: Host) returns (failure: Option<Failure>)
    requires disk.Valid() && disk.history == [disk.world] && disk.calls == [] && HostOk(host)
    requires Staging !in disk.world.names && QuarantineRoot !in disk.world.names && DiscardRoot !in disk.world.names
    requires forall id :: HoldsTree(disk.world, id) ==> TreeOk(TreeAt(disk.world, id))
    modifies disk
    ensures RanFor(disk, failure, GoalOf(old(disk.world), req, host), req)
    ensures Destination in old(disk.world).names ==>
      var target := old(disk.world).objects[old(disk.world).names[Destination]];
      (|| target.NotDirectory?
       || (exists d :: d in target.tree.dirs && multiset(d)['/'] >= 32)
       || (target.tree.files != map[] && (!req.force || !Accepts(target.tree, host)))
       || (Accepts(target.tree, host)
           && (ManifestOf(target.tree).status != "complete"
               || exists r :: r in ManifestOf(target.tree).resources.value && r.status == "ok"
                    && (r.Id() !in req.catalog || req.catalog[r.Id()] != r.shape)))) ==>
      failure == Some(NotPublished) && SameDestination(old(disk.world), disk.world)
    ensures req.force && req.dangerous ==> failure == Some(NotPublished) && disk.world == old(disk.world)
    ensures
      (failure in {Some(NotPublished), Some(RolledBack)}
       && disk.refusals <= (if MayPublish(old(disk.world), req, host) then 1 else 0)) ==>
      forall id :: id in disk.world.objects && id !in old(disk.world).objects ==> disk.world.objects[id] == Directory(EMPTY_TREE)
    ensures
      && (forall log :: disk.fates(log).Proceeds?)
      && Writable(req.input, host) && Accepts(Output(req.input, host), host) && !(req.force && req.dangerous)
      && (Destination in old(disk.world).names ==>
            var target := old(disk.world).objects[old(disk.world).names[Destination]];
            && target.Directory? && (forall d :: d in target.tree.dirs ==> multiset(d)['/'] < 32)
            && (target.tree.files == map[]
                || (req.force && Accepts(target.tree, host) && ManifestOf(target.tree).status == "complete"
                    && forall r :: r in ManifestOf(target.tree).resources.value && r.status == "ok" ==>
                         r.Id() in req.catalog && req.catalog[r.Id()] == r.shape)))
      ==> failure.None?
    ensures failure.None? ==>
      && Writable(req.input, host) && Accepts(Output(req.input, host), host)
      && Destination in disk.world.names && disk.world.names[Destination] in disk.world.objects
      && disk.world.objects[disk.world.names[Destination]] == Directory(Output(req.input, host))
  {
    ghost var pre := disk.world;
    failure := PublishRun(disk, req, host);
    FreeToGo(pre, req, host);
  }

  // ------------------------------------------------ one run that strands

  /** Every call goes through but the inspection right after an exchange. */
  function LosesInspection(log: seq<Call>): Fate {
    if |log| >= 2 && log[|log| - 2].Swap? && log[|log| - 1] == Inspect(Staging) then Fails else Proceeds
  }

  lemma {:induction false} NothingFailsBefore(log: seq<Call>)
    requires UpToSwap(log).None?
    ensures Refusals(LosesInspection, log) == 0
  {
    if log != [] {
      NothingFailsBefore(log[..|log| - 1]);
    }
  }

  lemma LosesTheFirst(log: seq<Call>, entries: nat)
    requires log != [] && log[|log| - 1].Swap?
    ensures LosesInspection(log).Proceeds?
    ensures Settlement(LosesInspection, log, entries) == Some(ExchangeUnverified)
  {
    var next := log + [Inspect(Staging)];
    assert next[|next| - 2] == log[|log| - 1] && next[|next| - 1] == Inspect(Staging);
    assert !StepGoes(LosesInspection, log, 0);
  }

  lemma LosingRunFails(calls: seq<Call>, failure: Option<Failure>, g: Goal)
    requires Destination in g.pre.names && Accounted(LosesInspection, UpToSwap(calls), failure, g)
    requires failure.Some? ==> Refusals(LosesInspection, calls) > 0
    ensures failure == Some(ExchangeUnverified)
  {
    if UpToSwap(calls).None? {
      NothingFailsBefore(calls);
    } else {
      SwapInLog(calls);
      LosesTheFirst(UpToSwap(calls).value, Size(OldTree(g)));
    }
  }

  lemma LosingRunStrands(calls: seq<Call>, failure: Option<Failure>, g: Goal, w: World)
    requires GoalOk(g) && Destination in g.pre.names
    requires Accounted(LosesInspection, UpToSwap(calls), failure, g) && Left(w, failure, g)
    requires failure.Some? ==> Refusals(LosesInspection, calls) > 0
    ensures failure == Some(ExchangeUnverified) && DestinationIsNew(w, g)
  {
    LosingRunFails(calls, failure, g);
    OutcomeTells(w, failure, g);
  }

  /** Whatever is to be replaced: when all goes well but that inspection, the error
      leaves the new dump in place, although every rename and exchange went through. */
  method PublishLosingInspection(disk: Disk, req: Request, host: Host, ghost g: Goal) returns (failure: Option<Failure>)
    requires GoalFor(g, req, host) && At(disk, g, g.pre) && disk.calls == [] && disk.fates == LosesInspection
    requires Destination in g.pre.names && Publishable(g, req)
    modifies disk
    ensures failure == Some(ExchangeUnverified) && DestinationIsNew(disk.world, g)
  {
    failure := PublishFor(disk, req, host, g);
    LosingRunStrands(disk.calls, failure, g, disk.world);
  }

  lemma EmptyDirectoryReplaceable(req: Request, host: Host)
    requires !req.force
    ensures Replaceable(Directory(EMPTY_TREE), req, host) && TreeOk(EMPTY_TREE)
  {
    assert !TooDeep(EMPTY_TREE);
  }

  /** Nothing but an empty directory, at the destination. */
  predicate OnlyEmpty(pre: World) {
    && WorldOk(pre) && Destination in pre.names
    && Staging !in pre.names && QuarantineRoot !in pre.names && DiscardRoot !in pre.names
    && pre.objects == map[pre.names[Destination] := Directory(EMPTY_TREE)]
  }

  const EMPTY_WORLD := World(map[Destination := 0], map[0 := Directory(EMPTY_TREE)], 1)

  lemma EmptyWorldOnlyEmpty()
    ensures OnlyEmpty(EMPTY_WORLD)
  {
  }

  lemma OnlyEmptyTrees(pre: World)
    requires OnlyEmpty(pre)
    ensures pre.names[Destination] in pre.objects && pre.objects[pre.names[Destination]] == Directory(EMPTY_TREE)
    ensures forall id :: HoldsTree(pre, id) ==> TreeOk(TreeAt(pre, id))
  {
    forall id | HoldsTree(pre, id) ensures TreeAt(pre, id) == EMPTY_TREE {
      assert id == pre.names[Destination];
    }
  }

  lemma EmptyDirectoryGoal(pre: World, req: Request, host: Host)
    requires OnlyEmpty(pre) && HostOk(host) && !req.force
    requires Writable(req.input, host) && Accepts(Output(req.input, host), host)
    ensures GoalFor(GoalOf(pre, req, host), req, host) && Publishable(GoalOf(pre, req, host), req)
  {
    OnlyEmptyTrees(pre);
    GoalOfIsFor(pre, req, host);
    EmptyDirectoryReplaceable(req, host);
  }

  lemma StartIsLegal(g: Goal)
    requires GoalOk(g)
    ensures AllLegal([g.pre], g)
  {
  }

  method RunLosing(req: Request, host: Host, pre: World, ghost g: Goal) returns (disk: Disk, failure: Option<Failure>)
    requires GoalFor(g, req, host) && Publishable(g, req) && g.pre == pre && Destination in pre.names
    ensures failure == Some(ExchangeUnverified) && DestinationIsNew(disk.world, g)
  {
    StartIsLegal(g);
    disk := new Disk(pre, LosesInspection);
    failure := PublishLosingInspection(disk, req, host, g);
  }

  method ReadDestination(disk: Disk, ghost g: Goal) returns (destination: Object)
    requires DestinationIsNew(disk.world, g)
    ensures destination == Directory(g.output)
  {
    destination := disk.world.objects[disk.world.names[Destination]];
  }

  /** Such a run over an empty directory. */
  method PublishOverEmpty(pre: World, req: Request, host: Host) returns (failure: Option<Failure>, destination: Object)
    requires OnlyEmpty(pre) && HostOk(host) && !req.force
    requires Writable(req.input, host) && Accepts(Output(req.input, host), host)
    ensures failure == Some(ExchangeUnverified)
    ensures destination == Directory(Output(req.input, host))
  {
    ghost var g := GoalOf(pre, req, host);
    EmptyDirectoryGoal(pre, req, host);
    var disk;
    disk, failure := RunLosing(req, host, pre, g);
    destination := ReadDestination(disk, g);
  }

  /** An input and a host whose artifact is accepted. */
  method ExampleInput() returns (input: Input, host: Host)
    ensures HostOk(host) && Writable(input, host) && Accepts(Output(input, host), host)
    ensures input.entries == [] && input.errors == []
  {
    EmptyInputAccepted();
    input, host := EMPTY_INPUT, EXAMPLE_HOST;
  }

  /** And a concrete one. */
  method InspectionLost() returns (failure: Option<Failure>, destination: Object, input: Input, host: Host)
    ensures failure == Some(ExchangeUnverified)
    ensures destination == Directory(Output(input, host)) && input.entries == [] && input.errors == []
  {
    input, host := ExampleInput();
    EmptyWorldOnlyEmpty();
    failure, destination := PublishOverEmpty(EMPTY_WORLD, Request(input, false, false, map[]), host);
  }
}
