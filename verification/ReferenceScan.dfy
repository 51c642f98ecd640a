// The walk over local workflow and action references
// (scripts/verify-workflow-policies.go): depth first, each file scanned once for
// each kind it is referenced as, with a report for every reference cycle it meets.
module ReferenceScan {

  type Path = string

  datatype Kind = Workflow | Action

  datatype Key = Key(path: Path, kind: Kind)

  /** What one uses: value, or another checked construct, comes to: a reference to a
      local file, a construct that is reported, or one that is in order. */
  datatype Item = LocalUse(path: Path, kind: Kind) | Problem | Fine

  /** A file read as a workflow or as an action: unreadable, not a YAML mapping, or
      the constructs found in document order. */
  datatype Body = Unreadable | Broken | Items(items: seq<Item>)

  datatype File = File(asWorkflow: Body, asAction: Body)

  datatype Report = Unresolved(path: Path) | Unread(path: Path) | Malformed(path: Path) | Offence(path: Path) | Cycle(cycle: seq<Path>)

  type Files = map<Path, File>

  function BodyOf(files: Files, k: Key): Body {
    if k.path !in files then Unreadable
    else if k.kind.Workflow? then files[k.path].asWorkflow else files[k.path].asAction
  }

  function ItemsOf(files: Files, k: Key): seq<Item> {
    var body := BodyOf(files, k);
    if body.Items? then body.items else []
  }

  /** The body of one file, read as a kind, refers to another file as a kind. */
  predicate Refers(files: Files, from: Key, to: Key) {
    LocalUse(to.path, to.kind) in ItemsOf(files, from)
  }

  ghost predicate PathRefers(files: Files, from: Path, to: Path) {
    exists a, b :: Refers(files, Key(from, a), Key(to, b))
  }

  predicate Distinct<T(==)>(s: seq<T>) {
    forall i, j :: 0 <= i < j < |s| ==> s[i] != s[j]
  }

  function IndexIn<T(==)>(s: seq<T>, x: T): (i: nat)
    requires x in s
    ensures i < |s| && s[i] == x && forall j :: 0 <= j < i ==> s[j] != x
  {
    if s[0] == x then 0 else 1 + IndexIn(s[1..], x)
  }

  function Universe(files: Files): set<Key> {
    (set p | p in files.Keys :: Key(p, Workflow)) + (set p | p in files.Keys :: Key(p, Action))
  }

  predicate StepAt(files: Files, walk: seq<Key>, i: nat)
    requires 0 < i < |walk|
  {
    Refers(files, walk[i - 1], walk[i])
  }

  /** A walk along references. */
  ghost predicate Walk(files: Files, walk: seq<Key>) {
    walk != [] && forall i :: 0 < i < |walk| ==> StepAt(files, walk, i)
  }

  ghost predicate Reachable(files: Files, roots: seq<Key>, k: Key) {
    exists walk :: Walk(files, walk) && walk[0] in roots && walk[|walk| - 1] == k
  }

  ghost predicate PathStepAt(files: Files, cycle: seq<Path>, i: nat)
    requires 0 < i < |cycle|
  {
    PathRefers(files, cycle[i - 1], cycle[i])
  }

  /** A cycle of files: it closes, repeats nothing else, and every step is a reference. */
  ghost predicate GenuineCycle(files: Files, cycle: seq<Path>) {
    && |cycle| >= 2 && cycle[0] == cycle[|cycle| - 1] && Distinct(cycle[..|cycle| - 1])
    && forall i :: 0 < i < |cycle| ==> PathStepAt(files, cycle, i)
  }

  /** Every key comes after everything it refers to. */
  ghost predicate Topological(files: Files, order: seq<Key>) {
    forall i, t :: 0 <= i < |order| && Refers(files, order[i], t) ==> t in order[..i]
  }

  /** The file could be read as the kind, and nothing in it is to be reported. */
  predicate InOrder(files: Files, k: Key) {
    BodyOf(files, k).Items? && Problem !in BodyOf(files, k).items
  }

  lemma TopologicalExtends(files: Files, order: seq<Key>, key: Key)
    requires Topological(files, order) && forall t :: Refers(files, key, t) ==> t in order
    ensures Topological(files, order + [key])
  {
    var longer := order + [key];
    forall i, t | 0 <= i < |longer| && Refers(files, longer[i], t) ensures t in longer[..i] {
      if i < |order| {
        assert longer[..i] == order[..i];
      } else {
        assert longer[..i] == order;
      }
    }
  }

  // -------------------------------------------------- the verifier's state

  /** trail is the stack with the kind each file is scanned as; consecutive entries
      are references. */
  ghost predicate StackOk(files: Files, active: set<Path>, stack: seq<Path>, trail: seq<Key>, open: set<Key>) {
    && |trail| == |stack| && Distinct(stack)
    && (forall i :: 0 <= i < |stack| ==> trail[i].path == stack[i])
    && (forall p :: p in active <==> p in stack)
    && (forall k :: k in open <==> k in trail)
    && (forall i :: 0 < i < |trail| ==> StepAt(files, trail, i))
  }

  lemma StackGrows(files: Files, active: set<Path>, stack: seq<Path>, trail: seq<Key>, open: set<Key>, key: Key)
    requires StackOk(files, active, stack, trail, open) && key.path !in active
    requires trail != [] ==> Refers(files, trail[|trail| - 1], key)
    ensures StackOk(files, active + {key.path}, stack + [key.path], trail + [key], open + {key}) && key !in trail
  {
    var longer := trail + [key];
    forall i | 0 < i < |longer| ensures StepAt(files, longer, i) {
      assert i < |trail| ==> StepAt(files, trail, i);
    }
  }

  lemma StackShrinks(files: Files, active: set<Path>, stack: seq<Path>, trail: seq<Key>, open: set<Key>)
    requires StackOk(files, active, stack, trail, open) && trail != []
    ensures var n := |trail| - 1;
      StackOk(files, active - {trail[n].path}, stack[..n], trail[..n], open - {trail[n]}) && trail[n] !in trail[..n]
  {
    var n := |trail| - 1;
    assert stack == stack[..n] + [stack[n]];
    forall i | 0 < i < n ensures StepAt(files, trail[..n], i) {
      assert StepAt(files, trail, i);
    }
    forall p ensures p in active - {trail[n].path} <==> p in stack[..n] {
      if p in stack[..n] {
        var i :| 0 <= i < n && stack[..n][i] == p;
        assert stack[i] != stack[n];
      }
    }
  }

  lemma StackCycle(files: Files, active: set<Path>, stack: seq<Path>, trail: seq<Key>, open: set<Key>, start: nat, kind: Kind)
    requires StackOk(files, active, stack, trail, open) && start < |stack|
    requires Refers(files, trail[|trail| - 1], Key(stack[start], kind))
    ensures GenuineCycle(files, stack[start..] + [stack[start]])
  {
    var cycle := stack[start..] + [stack[start]];
    assert cycle[..|cycle| - 1] == stack[start..];
    forall i | 0 < i < |cycle| ensures PathStepAt(files, cycle, i) {
      assert start + i < |trail| ==> StepAt(files, trail, start + i);
      var from := trail[start + i - 1];
      var to := if i < |cycle| - 1 then trail[start + i] else Key(stack[start], kind);
      assert Refers(files, Key(cycle[i - 1], from.kind), Key(cycle[i], to.kind));
    }
  }

  /** scanned counts how often each body has been entered; open are the keys of the trail. */
  ghost predicate ScannedOk(files: Files, visited: set<Key>, open: set<Key>, scanned: multiset<Key>) {
    && (forall k :: k in open ==> k in scanned && k !in visited && k.path in files)
    && (forall k :: k in scanned ==> scanned[k] == 1 && (k in visited || k in open))
    && (forall k :: k in visited ==> k in scanned || BodyOf(files, k).Unreadable?)
  }

  /** finished lists the visited keys; while nothing has been reported it is a
      topological order, and every visited body has been scanned and is in order. */
  ghost predicate FinishedOk(files: Files, visited: set<Key>, scanned: multiset<Key>, finished: seq<Key>, clean: bool) {
    && (forall k :: k in visited <==> k in finished)
    && (clean ==> Topological(files, finished))
    && (clean ==> forall k :: k in visited ==> k in scanned && InOrder(files, k))
  }

  lemma FinishedSeesMore(files: Files, visited: set<Key>, scanned: multiset<Key>, finished: seq<Key>, clean: bool, key: Key)
    requires FinishedOk(files, visited, scanned, finished, clean)
    ensures FinishedOk(files, visited, scanned + multiset{key}, finished, clean)
  {
  }

  lemma FinishedGrows(files: Files, visited: set<Key>, scanned: multiset<Key>, finished: seq<Key>, clean: bool, key: Key)
    requires FinishedOk(files, visited, scanned, finished, clean)
    requires clean ==> key in scanned && InOrder(files, key) && forall t :: Refers(files, key, t) ==> t in visited
    ensures FinishedOk(files, visited + {key}, scanned, finished + [key], clean)
  {
    if clean {
      TopologicalExtends(files, finished, key);
    }
  }

  /** What a report says is so, of the file read as one of the two kinds. */
  ghost predicate Justified(files: Files, e: Report) {
    match e
    case Unresolved(p) => p !in files
    case Unread(p) => p in files && (files[p].asWorkflow.Unreadable? || files[p].asAction.Unreadable?)
    case Malformed(p) => p in files && (files[p].asWorkflow.Broken? || files[p].asAction.Broken?)
    case Offence(p) =>
      p in files && exists body :: body in {files[p].asWorkflow, files[p].asAction} && body.Items? && Problem in body.items
    case Cycle(cycle) => GenuineCycle(files, cycle)
  }

  ghost predicate ReportsOk(files: Files, errors: seq<Report>) {
    forall e :: e in errors ==> Justified(files, e)
  }

  /** Every key that may still be entered is in rest. */
  ghost predicate Bounded(files: Files, visited: set<Key>, open: set<Key>, rest: set<Key>) {
    forall k: Key :: k.path in files && k !in visited && k !in open ==> k in rest
  }

  lemma UniverseBounds(files: Files, visited: set<Key>, open: set<Key>)
    ensures Bounded(files, visited, open, Universe(files))
  {
    forall k: Key | k.path in files ensures k in Universe(files) {
      assert k == Key(k.path, if k.kind.Workflow? then Workflow else Action);
    }
  }

  /** Scanning the key can meet nothing to report, with so much visited and active:
      within some steps everything below it is in order or has been visited. */
  ghost predicate Quiet(files: Files, k: Key, visited: set<Key>, active: set<Path>, steps: nat)
    decreases steps, 0
  {
    && k.path in files && k.path !in active
    && (k in visited || (steps > 0 && QuietBody(files, k, visited, active + {k.path}, steps - 1)))
  }

  ghost predicate QuietBody(files: Files, k: Key, visited: set<Key>, active: set<Path>, steps: nat)
    decreases steps, 2
  {
    && BodyOf(files, k).Items?
    && forall item :: item in BodyOf(files, k).items ==> QuietItem(files, item, visited, active, steps)
  }

  ghost predicate QuietItem(files: Files, item: Item, visited: set<Key>, active: set<Path>, steps: nat)
    decreases steps, 1
  {
    !item.Problem? && (item.LocalUse? ==> Quiet(files, Key(item.path, item.kind), visited, active, steps))
  }

  lemma {:induction false} QuietStays(files: Files, k: Key, visited: set<Key>, visited': set<Key>, active: set<Path>, steps: nat)
    requires Quiet(files, k, visited, active, steps) && visited <= visited'
    ensures Quiet(files, k, visited', active, steps)
    decreases steps
  {
    if k !in visited {
      forall item | item in BodyOf(files, k).items
        ensures QuietItem(files, item, visited', active + {k.path}, steps - 1)
      {
        assert QuietItem(files, item, visited, active + {k.path}, steps - 1);
        if item.LocalUse? {
          QuietStays(files, Key(item.path, item.kind), visited, visited', active + {k.path}, steps - 1);
        }
      }
    }
  }

  /** Everything the keys lead to has been visited. */
  ghost predicate Covers(files: Files, visited: set<Key>, keys: seq<Key>) {
    && (forall k :: k in keys ==> k in visited)
    && (forall k, t :: k in visited && Refers(files, k, t) ==> t in visited)
  }

  lemma FinishedCovers(files: Files, visited: set<Key>, scanned: multiset<Key>, finished: seq<Key>, keys: seq<Key>)
    requires FinishedOk(files, visited, scanned, finished, true) && forall k :: k in keys ==> k in visited
    ensures Covers(files, visited, keys)
  {
    forall k, t | k in visited && Refers(files, k, t) ensures t in visited {
      var i :| 0 <= i < |finished| && finished[i] == k;
      assert t in finished[..i];
    }
  }

  /** Each root in turn can meet nothing to report, once those before it are done. */
  ghost predicate QuietRoots(files: Files, roots: seq<Key>, steps: nat) {
    forall i, visited :: 0 <= i < |roots| && Covers(files, visited, roots[..i]) ==> Quiet(files, roots[i], visited, {}, steps)
  }

  class Verifier {
    const files: Files
    var active: set<Path>
    var visited: set<Key>
    var stack: seq<Path>
    var errors: seq<Report>
    ghost var trail: seq<Key>
    ghost var scanned: multiset<Key>
    ghost var finished: seq<Key>
    ghost var open: set<Key>  // the keys of the trail

    constructor (files: Files)
      ensures Valid() && this.files == files && errors == [] && trail == []
      ensures visited == {} && active == {} && scanned == multiset{}
    {
      this.files := files;
      active, visited, stack, errors := {}, {}, [], [];
      trail, scanned, finished, open := [], multiset{}, [], {};
    }

    ghost predicate Valid()
      reads this
    {
      && StackOk(files, active, stack, trail, open)
      && ScannedOk(files, visited, open, scanned)
      && FinishedOk(files, visited, scanned, finished, errors == [])
      && ReportsOk(files, errors)
    }

    method AddError(e: Report)
      requires Valid() && Justified(files, e)
      modifies `errors
      ensures Valid() && errors == old(errors) + [e]
    {
      errors := errors + [e];
    }

    /** cycleDescription: the stack from the first occurrence on, and the target again. */
    method CycleDescription(target: Path) returns (cycle: seq<Path>)
      requires target in stack
      ensures cycle == stack[IndexIn(stack, target)..] + [target]
    {
      var first := 0;
      while stack[first] != target
        invariant 0 <= first <= IndexIn(stack, target)
        decreases |stack| - first
      {
        first := first + 1;
      }
      cycle := stack[first..] + [target];
    }

    /** The path is on the stack already. */
    method ReportCycle(path: Path, kind: Kind)
      requires Valid() && path in active
      requires trail != [] ==> Refers(files, trail[|trail| - 1], Key(path, kind))
      modifies `errors
      ensures Valid() && old(errors) < errors
    {
      var cycle := CycleDescription(path);
      StackCycle(files, active, stack, trail, open, IndexIn(stack, path), kind);
      AddError(Cycle(cycle));
    }

    /** scanFile, where it has decided to scan the body. */
    method Enter(key: Key)
      requires Valid() && key.path in files && key.path !in active && key !in visited
      requires trail != [] ==> Refers(files, trail[|trail| - 1], key)
      modifies `active, `stack, `trail, `scanned, `open
      ensures Valid() && trail == old(trail) + [key] && stack == old(stack) + [key.path]
      ensures active == old(active) + {key.path} && scanned == old(scanned) + multiset{key} && open == old(open) + {key}
    {
      StackGrows(files, active, stack, trail, open, key);
      FinishedSeesMore(files, visited, scanned, finished, errors == [], key);
      active, stack := active + {key.path}, stack + [key.path];
      trail, scanned, open := trail + [key], scanned + multiset{key}, open + {key};
    }

    /** The deferred part of scanFile. */
    method Leave(key: Key)
      requires Valid() && trail != [] && trail[|trail| - 1] == key
      requires errors == [] ==> InOrder(files, key) && forall t :: Refers(files, key, t) ==> t in visited
      modifies `active, `stack, `trail, `visited, `finished, `open
      ensures Valid() && trail == old(trail)[..|old(trail)| - 1] && stack == old(stack)[..|old(stack)| - 1]
      ensures active == old(active) - {key.path} && visited == old(visited) + {key} && open == old(open) - {key}
    {
      StackShrinks(files, active, stack, trail, open);
      FinishedGrows(files, visited, scanned, finished, errors == [], key);
      active, stack := active - {key.path}, stack[..|stack| - 1];
      trail, visited, finished, open := trail[..|trail| - 1], visited + {key}, finished + [key], open - {key};
    }

    method MarkUnread(key: Key)
      requires Valid() && key !in trail && key.path in files && BodyOf(files, key).Unreadable?
      modifies `visited, `finished, `errors
      ensures Valid() && visited == old(visited) + {key} && errors == old(errors) + [Unread(key.path)]
    {
      AddError(Unread(key.path));
      FinishedGrows(files, visited, scanned, finished, errors == [], key);
      visited, finished := visited + {key}, finished + [key];
    }

    /** scanFile: the stack is as before, and if nothing has been reported the key has
        been visited. */
    method ScanFile(path: Path, kind: Kind, ghost rest: set<Key>, ghost steps: nat)
      requires Valid() && Bounded(files, visited, open, rest)
      requires trail != [] ==> Refers(files, trail[|trail| - 1], Key(path, kind))
      modifies this
      ensures Valid() && stack == old(stack) && trail == old(trail) && active == old(active) && open == old(open)
      ensures Grown(old(visited), old(errors))
      ensures errors == [] ==> Key(path, kind) in visited
      ensures Quiet(files, Key(path, kind), old(visited), old(active), steps) ==> errors == old(errors)
      decreases rest, 1
    {
      var key := Key(path, kind);
      if path !in files {
        AddError(Unresolved(path));
        return;
      }
      if path in active {
        ReportCycle(path, kind);
        return;
      }
      if key in visited {
        return;
      }
      if BodyOf(files, key).Unreadable? {
        assert key !in trail;
        assert steps > 0 ==> !QuietBody(files, key, visited, active + {path}, steps - 1);
        MarkUnread(key);
        return;
      }
      ScanBody(key, rest, steps);
    }

    method ScanBody(key: Key, ghost rest: set<Key>, ghost steps: nat)
      requires Valid() && Bounded(files, visited, open, rest) && key.path in files && key.path !in active && key !in visited && !BodyOf(files, key).Unreadable?
      requires trail != [] ==> Refers(files, trail[|trail| - 1], key)
      modifies this
      ensures Valid() && stack == old(stack) && trail == old(trail) && active == old(active) && open == old(open)
      ensures Grown(old(visited), old(errors)) && key in visited
      ensures Quiet(files, key, old(visited), old(active), steps) ==> errors == old(errors)
      decreases rest, 0
    {
      Enter(key);
      ScanConstructs(key, rest - {key}, if steps > 0 then steps - 1 else 0);
      Leave(key);
    }

    method ScanConstructs(key: Key, ghost rest: set<Key>, ghost steps: nat)
      requires Valid() && Bounded(files, visited, open, rest)
      requires trail != [] && trail[|trail| - 1] == key && !BodyOf(files, key).Unreadable?
      modifies this
      ensures Valid() && stack == old(stack) && trail == old(trail) && active == old(active) && open == old(open)
      ensures Grown(old(visited), old(errors))
      ensures errors == [] ==> InOrder(files, key) && forall t :: Refers(files, key, t) ==> t in visited
      ensures QuietBody(files, key, old(visited), old(active), steps) ==> errors == old(errors)
      decreases rest, 4
    {
      if BodyOf(files, key).Broken? {
        AddError(Malformed(key.path));
      } else {
        ScanItems(key, rest, steps);
      }
    }

    /** The constructs of one body, in document order. */
    method ScanItems(key: Key, ghost rest: set<Key>, ghost steps: nat)
      requires Valid() && Bounded(files, visited, open, rest) && trail != [] && trail[|trail| - 1] == key && BodyOf(files, key).Items?
      modifies this
      ensures Valid() && stack == old(stack) && trail == old(trail) && active == old(active) && open == old(open)
      ensures Grown(old(visited), old(errors))
      ensures errors == [] ==> InOrder(files, key) && forall t :: Refers(files, key, t) ==> t in visited
      ensures QuietBody(files, key, old(visited), old(active), steps) ==> errors == old(errors)
      decreases rest, 3
    {
      var items := BodyOf(files, key).items;
      for i := 0 to |items|
        invariant Valid() && stack == old(stack) && trail == old(trail) && active == old(active) && open == old(open)
        invariant Grown(old(visited), old(errors))
        invariant errors == [] ==> forall j :: 0 <= j < i ==> Covered(items[j])
        invariant QuietBody(files, key, old(visited), old(active), steps) ==> errors == old(errors)
      {
        if QuietItem(files, items[i], old(visited), active, steps) && items[i].LocalUse? {
          QuietStays(files, Key(items[i].path, items[i].kind), old(visited), visited, active, steps);
        }
        ScanItem(key, items[i], rest, steps);
      }
      forall t | errors == [] && Refers(files, key, t) ensures t in visited {
        var j :| 0 <= j < |items| && items[j] == LocalUse(t.path, t.kind);
        assert Covered(items[j]);
      }
    }

    predicate Covered(item: Item)
      reads this
    {
      !item.Problem? && (item.LocalUse? ==> Key(item.path, item.kind) in visited)
    }

    predicate Grown(before: set<Key>, reports: seq<Report>)
      reads this
    {
      before <= visited && reports <= errors
    }

    /** inspectStepUses and inspectJobUses, for a local reference. */
    method ScanItem(key: Key, item: Item, ghost rest: set<Key>, ghost steps: nat)
      requires Valid() && Bounded(files, visited, open, rest) && trail != [] && trail[|trail| - 1] == key && item in ItemsOf(files, key)
      modifies this
      ensures Valid() && stack == old(stack) && trail == old(trail) && active == old(active) && open == old(open)
      ensures Grown(old(visited), old(errors))
      ensures errors == [] ==> Covered(item)
      ensures QuietItem(files, item, old(visited), old(active), steps) ==> errors == old(errors)
      decreases rest, 2
    {
      match item {
        case LocalUse(path, kind) =>
          assert Refers(files, key, Key(path, kind));
          ScanFile(path, kind, rest, steps);
        case Problem =>
          assert Problem in BodyOf(files, key).items;
          assert BodyOf(files, key) in {files[key.path].asWorkflow, files[key.path].asAction};
          AddError(Offence(key.path));
        case Fine =>
      }
    }

    /** scanFile of a root: nothing is being scanned. */
    method ScanRoot(root: Key, ghost steps: nat)
      requires Valid() && trail == []
      modifies this
      ensures Valid() && stack == [] && trail == []
      ensures Grown(old(visited), old(errors)) && (errors == [] ==> root in visited)
      ensures Quiet(files, root, old(visited), {}, steps) ==> errors == old(errors)
    {
      assert active == {};
      UniverseBounds(files, visited, open);
      ScanFile(root.path, root.kind, Universe(files), steps);
    }

    /** Scans the roots in order. */
    method ScanRoots(roots: seq<Key>, ghost steps: nat)
      requires Valid() && trail == [] && scanned == multiset{} && errors == []
      modifies this
      ensures Valid() && stack == [] && trail == []
      ensures forall k :: scanned[k] <= 1
      ensures forall e :: e in errors ==> Justified(files, e)
      ensures errors == [] ==> Topological(files, finished)
      ensures errors == [] ==> forall k :: Reachable(files, roots, k) ==> k in scanned && InOrder(files, k) && k in finished
      ensures QuietRoots(files, roots, steps) ==> errors == []
    {
      for i := 0 to |roots|
        invariant Valid() && stack == [] && trail == []
        invariant errors == [] ==> forall j :: 0 <= j < i ==> roots[j] in visited
        invariant QuietRoots(files, roots, steps) ==> errors == []
      {
        if errors == [] {
          NextRootQuiet(files, roots, i, visited, scanned, finished, steps);
        }
        ScanRoot(roots[i], steps);
      }
      if errors == [] {
        ReachableIsFinished(files, roots, visited, finished);
      }
    }
  }

  lemma NextRootQuiet(files: Files, roots: seq<Key>, i: nat, visited: set<Key>, scanned: multiset<Key>, finished: seq<Key>, steps: nat)
    requires i < |roots| && FinishedOk(files, visited, scanned, finished, true)
    requires forall j :: 0 <= j < i ==> roots[j] in visited
    ensures QuietRoots(files, roots, steps) ==> Quiet(files, roots[i], visited, {}, steps)
  {
    FinishedCovers(files, visited, scanned, finished, roots[..i]);
  }

  lemma ReachableIsFinished(files: Files, roots: seq<Key>, visited: set<Key>, finished: seq<Key>)
    requires Topological(files, finished) && (forall k :: k in visited <==> k in finished)
    requires forall j :: 0 <= j < |roots| ==> roots[j] in visited
    ensures forall k :: Reachable(files, roots, k) ==> k in finished
  {
    forall k | Reachable(files, roots, k) ensures k in finished {
      var walk :| Walk(files, walk) && walk[0] in roots && walk[|walk| - 1] == k;
      WalkStaysFinished(files, finished, walk);
    }
  }

  // ----------------------------------------------- what the order proves

  /** Some walk of at least one step leads from the key back to itself. */
  ghost predicate OnCycle(files: Files, k: Key) {
    exists walk :: Walk(files, walk) && |walk| > 1 && walk[0] == k && walk[|walk| - 1] == k
  }

  /** A walk descends in a topological order. */
  lemma {:induction false} WalkDescends(files: Files, order: seq<Key>, walk: seq<Key>)
    requires Topological(files, order) && Walk(files, walk) && walk[0] in order
    ensures walk[|walk| - 1] in order
    ensures |walk| > 1 ==> IndexIn(order, walk[|walk| - 1]) < IndexIn(order, walk[0])
    decreases |walk|
  {
    if |walk| > 1 {
      var n := |walk| - 1;
      forall i | 0 < i < n ensures StepAt(files, walk[..n], i) {
        assert StepAt(files, walk, i);
      }
      WalkDescends(files, order, walk[..n]);
      assert StepAt(files, walk, n);
      var i := IndexIn(order, walk[n - 1]);
      assert Refers(files, order[i], walk[n]);
      assert walk[n] in order[..i];
      EarlierIndex(order, walk[n], i);
    }
  }

  lemma EarlierIndex<T>(s: seq<T>, x: T, i: nat)
    requires i <= |s| && x in s[..i]
    ensures x in s && IndexIn(s, x) < i
  {
    var j :| 0 <= j < i && s[..i][j] == x;
    assert s[j] == x;
  }

  lemma WalkStaysFinished(files: Files, order: seq<Key>, walk: seq<Key>)
    requires Topological(files, order) && Walk(files, walk) && walk[0] in order
    ensures walk[|walk| - 1] in order
  {
    WalkDescends(files, order, walk);
  }

  lemma FinishedIsAcyclic(files: Files, order: seq<Key>, k: Key)
    requires Topological(files, order) && k in order
    ensures !OnCycle(files, k)
  {
    if OnCycle(files, k) {
      var walk :| Walk(files, walk) && |walk| > 1 && walk[0] == k && walk[|walk| - 1] == k;
      WalkDescends(files, order, walk);
      assert false;
    }
  }

  // ------------------------------------------------- cycles between files

  ghost function ReachableKeys(files: Files, roots: seq<Key>): iset<Key> {
    iset k: Key | Reachable(files, roots, k)
  }

  /** A cycle of files whose every step is a reference between some of the keys. */
  ghost predicate CycleAmong(files: Files, keys: iset<Key>, cycle: seq<Path>) {
    && |cycle| >= 2 && cycle[0] == cycle[|cycle| - 1]
    && forall i :: 0 < i < |cycle| ==> StepAmongAt(files, keys, cycle, i)
  }

  ghost predicate StepAmongAt(files: Files, keys: iset<Key>, cycle: seq<Path>, i: nat)
    requires 0 < i < |cycle|
  {
    StepAmong(files, keys, cycle[i - 1], cycle[i])
  }

  ghost predicate StepAmong(files: Files, keys: iset<Key>, from: Path, to: Path) {
    exists a, b :: Key(from, a) in keys && Key(to, b) in keys && Refers(files, Key(from, a), Key(to, b))
  }

  ghost predicate BothKinds(keys: iset<Key>, p: Path) {
    Key(p, Workflow) in keys && Key(p, Action) in keys
  }

  ghost predicate HasBothKinds(keys: iset<Key>, cycle: seq<Path>) {
    exists i :: 0 <= i < |cycle| && BothKinds(keys, cycle[i])
  }

  ghost function KindIn(keys: iset<Key>, p: Path): Kind {
    if Key(p, Workflow) in keys then Workflow else Action
  }

  lemma StepBetweenKinds(files: Files, keys: iset<Key>, from: Path, to: Path)
    requires StepAmong(files, keys, from, to) && !BothKinds(keys, from) && !BothKinds(keys, to)
    ensures Refers(files, Key(from, KindIn(keys, from)), Key(to, KindIn(keys, to)))
    ensures Key(from, KindIn(keys, from)) in keys
  {
    var a, b :| Key(from, a) in keys && Key(to, b) in keys && Refers(files, Key(from, a), Key(to, b));
    assert a == KindIn(keys, from) && b == KindIn(keys, to);
  }

  /** Where no key leads back to itself, a cycle of files runs through one that is
      reached both as a workflow and as an action. */
  lemma FileCycleNeedsTwoKinds(files: Files, keys: iset<Key>, order: seq<Key>, cycle: seq<Path>)
    requires Topological(files, order) && (forall k :: k in keys ==> k in order) && CycleAmong(files, keys, cycle)
    ensures HasBothKinds(keys, cycle)
  {
    if !HasBothKinds(keys, cycle) {
      var walk := seq(|cycle|, i requires 0 <= i < |cycle| => Key(cycle[i], KindIn(keys, cycle[i])));
      forall i | 0 < i < |walk| ensures StepAt(files, walk, i) {
        assert StepAmongAt(files, keys, cycle, i);
        StepBetweenKinds(files, keys, cycle[i - 1], cycle[i]);
      }
      assert StepAmongAt(files, keys, cycle, 1);
      StepBetweenKinds(files, keys, cycle[0], cycle[1]);
      WalkDescends(files, order, walk);
      assert false;
    }
  }

  // -------------------------------------------------------- whole runs

  /** The workflow files of the scanned directory, then the local actions. */
  function Roots(workflows: seq<Path>, actions: seq<Path>): seq<Key> {
    seq(|workflows|, i requires 0 <= i < |workflows| => Key(workflows[i], Workflow))
    + seq(|actions|, i requires 0 <= i < |actions| => Key(actions[i], Action))
  }

  lemma RootsInOrder(files: Files, workflows: seq<Path>, actions: seq<Path>)
    requires forall k :: Reachable(files, Roots(workflows, actions), k) ==> InOrder(files, k)
    ensures forall p :: p in workflows ==> p in files && files[p].asWorkflow.Items? && Problem !in files[p].asWorkflow.items
    ensures forall p :: p in actions ==> p in files && files[p].asAction.Items? && Problem !in files[p].asAction.items
  {
    var roots := Roots(workflows, actions);
    forall p | p in workflows ensures InOrder(files, Key(p, Workflow)) {
      var i :| 0 <= i < |workflows| && workflows[i] == p;
      assert roots[i] == Key(p, Workflow);
      RootIsReachable(files, roots, Key(p, Workflow));
    }
    forall p | p in actions ensures InOrder(files, Key(p, Action)) {
      var i :| 0 <= i < |actions| && actions[i] == p;
      assert roots[|workflows| + i] == Key(p, Action);
      RootIsReachable(files, roots, Key(p, Action));
    }
  }

  /** No file is reached both as a workflow and as an action. */
  ghost predicate OneKindEach(keys: iset<Key>) {
    forall p :: !BothKinds(keys, p)
  }

  /** The run of main. A run that reports nothing has scanned everything reachable, in
      order, and no body lies on a cycle of references; every cycle of files that is
      left runs through a file reached as both kinds, so that none is left where no
      file is. */
  method VerifyAll(files: Files, workflows: seq<Path>, actions: seq<Path>, ghost steps: nat) returns (reports: seq<Report>)
    ensures forall e :: e in reports ==> Justified(files, e)
    ensures reports == [] ==> forall k :: Reachable(files, Roots(workflows, actions), k) ==> InOrder(files, k) && !OnCycle(files, k)
    ensures reports == [] ==>
      var keys := ReachableKeys(files, Roots(workflows, actions));
      forall cycle :: CycleAmong(files, keys, cycle) ==> HasBothKinds(keys, cycle)
    ensures reports == [] ==>
      && (forall p :: p in workflows ==> p in files && files[p].asWorkflow.Items? && Problem !in files[p].asWorkflow.items)
      && (forall p :: p in actions ==> p in files && files[p].asAction.Items? && Problem !in files[p].asAction.items)
    ensures reports == [] && OneKindEach(ReachableKeys(files, Roots(workflows, actions))) ==>
      forall cycle :: !CycleAmong(files, ReachableKeys(files, Roots(workflows, actions)), cycle)
    ensures QuietRoots(files, Roots(workflows, actions), steps) ==> reports == []
  {
    var roots := Roots(workflows, actions);
    var v := new Verifier(files);
    v.ScanRoots(roots, steps);
    reports := v.errors;
    if reports == [] {
      ghost var keys := ReachableKeys(files, roots);
      forall k | Reachable(files, roots, k) ensures !OnCycle(files, k) {
        FinishedIsAcyclic(files, v.finished, k);
      }
      RootsInOrder(files, workflows, actions);
      forall cycle | CycleAmong(files, keys, cycle) ensures HasBothKinds(keys, cycle) {
        FileCycleNeedsTwoKinds(files, keys, v.finished, cycle);
      }
    }
  }

  // --------------------------------------- a cycle of files that is not met

  /** r uses p; p, as an action, uses q; q, read as a workflow, uses p back. */
  function Crossing(r: Path, p: Path, q: Path): Files {
    map[r := File(Items([LocalUse(p, Action)]), Broken),
        p := File(Broken, Items([LocalUse(q, Action)])),
        q := File(Items([LocalUse(p, Action)]), Items([]))]
  }

  lemma CrossingRefers(r: Path, p: Path, q: Path)
    requires r != p && p != q && r != q
    ensures var files := Crossing(r, p, q);
      && Refers(files, Key(r, Workflow), Key(p, Action)) && Refers(files, Key(p, Action), Key(q, Action))
      && Refers(files, Key(q, Workflow), Key(p, Action))
  {
  }

  lemma CrossingIsQuiet(r: Path, p: Path, q: Path)
    requires r != p && p != q && r != q
    ensures QuietRoots(Crossing(r, p, q), Roots([r, q], [p, q]), 3)
  {
    var files, roots := Crossing(r, p, q), Roots([r, q], [p, q]);
    CrossingRefers(r, p, q);
    assert roots == [Key(r, Workflow), Key(q, Workflow), Key(p, Action), Key(q, Action)];
    forall i, visited | 0 <= i < |roots| && Covers(files, visited, roots[..i])
      ensures Quiet(files, roots[i], visited, {}, 3)
    {
      if i == 0 {
        FirstRootQuiet(r, p, q, visited);
      } else {
        assert roots[..i][0] == Key(r, Workflow);
        assert Key(p, Action) in visited && Key(q, Action) in visited;
        if i == 1 {
          SecondRootQuiet(r, p, q, visited);
        }
      }
    }
  }

  lemma FirstRootQuiet(r: Path, p: Path, q: Path, visited: set<Key>)
    requires r != p && p != q && r != q
    ensures Quiet(Crossing(r, p, q), Key(r, Workflow), visited, {}, 3)
  {
    var files := Crossing(r, p, q);
    var below := {} + {r};
    assert QuietBody(files, Key(q, Action), visited, below + {p} + {q}, 0);
    assert Quiet(files, Key(q, Action), visited, below + {p}, 1);
    assert QuietBody(files, Key(p, Action), visited, below + {p}, 1);
    assert Quiet(files, Key(p, Action), visited, below, 2);
    assert QuietBody(files, Key(r, Workflow), visited, below, 2);
  }

  lemma SecondRootQuiet(r: Path, p: Path, q: Path, visited: set<Key>)
    requires r != p && p != q && r != q && Key(p, Action) in visited
    ensures Quiet(Crossing(r, p, q), Key(q, Workflow), visited, {}, 3)
  {
    var files := Crossing(r, p, q);
    assert Quiet(files, Key(p, Action), visited, {} + {q}, 2);
    assert QuietBody(files, Key(q, Workflow), visited, {} + {q}, 2);
  }

  lemma RootIsReachable(files: Files, roots: seq<Key>, k: Key)
    requires k in roots
    ensures Reachable(files, roots, k)
  {
    assert Walk(files, [k]) && [k][0] in roots && [k][|[k]| - 1] == k;
  }

  lemma CrossingIsCycle(r: Path, p: Path, q: Path)
    requires r != p && p != q && r != q
    ensures GenuineCycle(Crossing(r, p, q), [p, q, p])
  {
    var files := Crossing(r, p, q);
    CrossingRefers(r, p, q);
    assert PathStepAt(files, [p, q, p], 1) && PathStepAt(files, [p, q, p], 2);
  }

  lemma CycleIsReachable(files: Files, roots: seq<Key>, p: Path, q: Path)
    requires Key(p, Action) in roots && Key(q, Action) in roots && Key(q, Workflow) in roots
    requires Refers(files, Key(p, Action), Key(q, Action)) && Refers(files, Key(q, Workflow), Key(p, Action))
    ensures CycleAmong(files, ReachableKeys(files, roots), [p, q, p])
  {
    RootIsReachable(files, roots, Key(q, Workflow));
    RootIsReachable(files, roots, Key(p, Action));
    RootIsReachable(files, roots, Key(q, Action));
    var keys := ReachableKeys(files, roots);
    assert StepAmongAt(files, keys, [p, q, p], 1) && StepAmongAt(files, keys, [p, q, p], 2);
  }

  /** With r the first workflow file, q the second and also an action, the run reports
      nothing, although p and q form a cycle of files: by the time q is scanned as a
      workflow, p has been scanned and is not entered again. */
  method FileCycleCanPass(r: Path, p: Path, q: Path) returns (files: Files, reports: seq<Report>)
    requires r != p && p != q && r != q
    ensures reports == [] && GenuineCycle(files, [p, q, p])
    ensures CycleAmong(files, ReachableKeys(files, Roots([r, q], [p, q])), [p, q, p])
  {
    files := Crossing(r, p, q);
    CrossingIsCycle(r, p, q);
    CrossingIsQuiet(r, p, q);
    CrossingRefers(r, p, q);
    assert Roots([r, q], [p, q]) == [Key(r, Workflow), Key(q, Workflow), Key(p, Action), Key(q, Action)];
    CycleIsReachable(files, Roots([r, q], [p, q]), p, q);
    reports := VerifyAll(files, [r, q], [p, q], 3);
  }

  /** Being reached as both kinds does not make a cycle by itself. */
  lemma BothKindsWithoutCycle(q: Path)
    ensures var files := map[q := File(Items([]), Items([]))]; var keys := ReachableKeys(files, Roots([q], [q]));
      BothKinds(keys, q) && forall cycle :: !CycleAmong(files, keys, cycle)
  {
    var files: Files := map[q := File(Items([]), Items([]))];
    var roots := Roots([q], [q]);
    assert roots == [Key(q, Workflow), Key(q, Action)];
    RootIsReachable(files, roots, Key(q, Workflow));
    RootIsReachable(files, roots, Key(q, Action));
    forall cycle: seq<Path> ensures !CycleAmong(files, ReachableKeys(files, roots), cycle) {
      if |cycle| >= 2 {
        assert !StepAmongAt(files, ReachableKeys(files, roots), cycle, 1);
      }
    }
  }
}
