// The part of the file system a publish run touches: a few names, the directory
// each names, and what each directory holds. Every primitive may fail, as a
// schedule of fates decides, and every state the disk passes through is recorded.
module Filesystem {
  import opened Options
  import opened Artifact

  type Id = nat

  /** The destination, the staging path beside it, and the root slots inside the
      private quarantine and discard directories. */
  datatype Place = Destination | Staging | QuarantineRoot | DiscardRoot

  datatype Object = Directory(tree: Tree) | NotDirectory

  datatype World = World(names: map<Place, Id>, objects: map<Id, Object>, nextId: Id)

  predicate WorldOk(w: World) {
    && (forall p :: p in w.names ==> w.names[p] in w.objects)
    && (forall i :: i in w.objects ==> i < w.nextId)
    && (forall p, q :: p in w.names && q in w.names && w.names[p] == w.names[q] ==> p == q)
  }

  /** The world with a new, empty directory. */
  function WithDirectory(w: World, place: Place): World {
    World(w.names[place := w.nextId], w.objects[w.nextId := Directory(EMPTY_TREE)], w.nextId + 1)
  }

  lemma DirectoryKeepsOk(w: World, place: Place)
    requires WorldOk(w) && place !in w.names
    ensures WorldOk(WithDirectory(w, place))
  {
    var names := WithDirectory(w, place).names;
    forall p | p in names && p != place ensures names[p] < w.nextId {
      assert w.names[p] in w.objects;
    }
  }

  lemma MoveKeepsOk(w: World, from: Place, to: Place)
    requires WorldOk(w) && from in w.names && to !in w.names
    ensures WorldOk(w.(names := w.names[to := w.names[from]] - {from}))
  {
  }

  lemma SwapKeepsOk(w: World, a: Place, b: Place)
    requires WorldOk(w) && a in w.names && b in w.names && a != b
    ensures WorldOk(w.(names := w.names[a := w.names[b]][b := w.names[a]]))
  {
    var names := w.names[a := w.names[b]][b := w.names[a]];
    forall p, q | p in names && q in names && names[p] == names[q] ensures p == q {
      var p' := if p == a then b else if p == b then a else p;
      var q' := if q == a then b else if q == b then a else q;
      assert w.names[p'] == names[p] && w.names[q'] == names[q];
    }
  }

  /** The calls a run makes: a check that changes nothing, an inspection of a place,
      an exclusive rename, an exchange, making a directory, changing what one holds. */
  datatype Call = Check | Inspect(place: Place) | Move(from: Place, to: Place) | Swap(a: Place, b: Place) | Make(place: Place) | Change

  /** Whether a call goes through. */
  datatype Fate = Proceeds | Fails | Unsupported

  /** A schedule decides the fate of the last call of any log of calls. */
  type Schedule = seq<Call> -> Fate

  /** The next call goes through when it is made after the given log. */
  predicate Goes(fates: Schedule, log: seq<Call>, call: Call) {
    fates(log + [call]).Proceeds?
  }

  /** How many calls of a log did not go through. */
  function Refusals(fates: Schedule, calls: seq<Call>): nat {
    if calls == [] then 0
    else Refusals(fates, calls[..|calls| - 1]) + if fates(calls).Proceeds? then 0 else 1
  }

  /** A log up to and including its first exchange. */
  function UpToSwap(calls: seq<Call>): Option<seq<Call>> {
    if calls == [] then None
    else if UpToSwap(calls[..|calls| - 1]).Some? then UpToSwap(calls[..|calls| - 1])
    else if calls[|calls| - 1].Swap? then Some(calls)
    else None
  }

  lemma LogGrows(fates: Schedule, calls: seq<Call>, call: Call)
    ensures Refusals(fates, calls + [call]) == Refusals(fates, calls) + if Goes(fates, calls, call) then 0 else 1
    ensures UpToSwap(calls + [call])
         == if UpToSwap(calls).Some? then UpToSwap(calls) else if call.Swap? then Some(calls + [call]) else None
  {
    assert (calls + [call])[..|calls|] == calls;
  }

  lemma {:induction false} SwapInLog(calls: seq<Call>)
    requires UpToSwap(calls).Some?
    ensures var log := UpToSwap(calls).value;
      log <= calls && log != [] && log[|log| - 1].Swap? && UpToSwap(log[..|log| - 1]).None?
  {
    if UpToSwap(calls[..|calls| - 1]).Some? {
      SwapInLog(calls[..|calls| - 1]);
    }
  }

  datatype Found = Found(id: Id) | Absent | Unknown
  datatype Renamed = Renamed | Exists | RenameFailed
  datatype Exchanged = Exchanged | ExchangeUnsupported | ExchangeFailed

  class Disk {
    var world: World
    var calls: seq<Call>
    const fates: Schedule
    ghost var history: seq<World>
    ghost var refusals: nat              // the calls so far that did not go through
    ghost var exchanged: Option<seq<Call>>  // the log up to the first exchange

    constructor (world: World, fates: Schedule)
      requires WorldOk(world)
      ensures Valid() && this.world == world && history == [world] && this.fates == fates
      ensures calls == [] && refusals == 0 && exchanged == None
    {
      this.world := world;
      this.fates := fates;
      calls, refusals, exchanged := [], 0, None;
      history := [world];
    }

    ghost predicate Valid()
      reads this
    {
      && history != [] && history[|history| - 1] == world && WorldOk(world)
      && refusals == Refusals(fates, calls) && exchanged == UpToSwap(calls)
    }

    /** Makes a call that is not an exchange. */
    method Attempt(call: Call) returns (goes: bool)
      requires Valid() && !call.Swap?
      modifies `calls, `refusals
      ensures Valid() && calls == old(calls) + [call]
      ensures goes <==> Goes(fates, old(calls), call)
      ensures refusals == old(refusals) + if goes then 0 else 1
    {
      LogGrows(fates, calls, call);
      calls := calls + [call];
      goes := fates(calls).Proceeds?;
      refusals := refusals + if goes then 0 else 1;
    }

    /** A check that changes nothing and may fail. */
    method Passes() returns (ok: bool)
      requires Valid()
      modifies `calls, `refusals
      ensures Valid() && calls == old(calls) + [Check]
      ensures ok <==> Goes(fates, old(calls), Check)
      ensures refusals == old(refusals) + if ok then 0 else 1
    {
      ok := Attempt(Check);
    }

    method Lstat(place: Place) returns (found: Found)
      requires Valid()
      modifies `calls, `refusals
      ensures Valid() && calls == old(calls) + [Inspect(place)]
      ensures found.Unknown? <==> !Goes(fates, old(calls), Inspect(place))
      ensures refusals == old(refusals) + if found.Unknown? then 1 else 0
      ensures found.Found? ==> place in world.names && world.names[place] == found.id
      ensures found.Absent? ==> place !in world.names
    {
      var ok := Attempt(Inspect(place));
      found := if !ok then Unknown else if place in world.names then Found(world.names[place]) else Absent;
    }

    /** renameat2 with RENAME_NOREPLACE. */
    method RenameNoReplace(from: Place, to: Place) returns (r: Renamed)
      requires Valid() && from != to
      modifies `world, `calls, `refusals, `history
      ensures Valid() && history == old(history) + [world] && calls == old(calls) + [Move(from, to)]
      ensures refusals == old(refusals) + if Goes(fates, old(calls), Move(from, to)) then 0 else 1
      ensures r.Renamed? <==>
        Goes(fates, old(calls), Move(from, to)) && from in old(world).names && to !in old(world).names
      ensures r.Renamed? ==>
        world == old(world).(names := old(world).names[to := old(world).names[from]] - {from})
      ensures !r.Renamed? ==> world == old(world)
      ensures r.Exists? ==> to in world.names
      ensures r.RenameFailed? ==> !Goes(fates, old(calls), Move(from, to)) || from !in world.names
    {
      var ok := Attempt(Move(from, to));
      if !ok || from !in world.names {
        r := RenameFailed;
      } else if to in world.names {
        r := Exists;
      } else {
        MoveKeepsOk(world, from, to);
        world := world.(names := world.names[to := world.names[from]] - {from});
        r := Renamed;
      }
      history := history + [world];
    }

    /** Makes the call of an exchange. */
    method AttemptSwap(a: Place, b: Place) returns (fate: Fate)
      requires Valid()
      modifies `calls, `refusals, `exchanged
      ensures Valid() && calls == old(calls) + [Swap(a, b)] && fate == fates(calls)
      ensures exchanged == if old(exchanged).Some? then old(exchanged) else Some(calls)
      ensures refusals == old(refusals) + if Goes(fates, old(calls), Swap(a, b)) then 0 else 1
    {
      ghost var before := calls;
      calls := calls + [Swap(a, b)];
      fate := fates(calls);
      LogGrows(fates, before, Swap(a, b));
      assert Goes(fates, before, Swap(a, b)) <==> fate.Proceeds?;
      refusals := refusals + if fate.Proceeds? then 0 else 1;
      exchanged := if exchanged.Some? then exchanged else Some(calls);
    }

    /** renameat2 with RENAME_EXCHANGE. */
    method Exchange(a: Place, b: Place) returns (r: Exchanged)
      requires Valid() && a != b
      modifies this
      ensures Valid() && history == old(history) + [world] && calls == old(calls) + [Swap(a, b)]
      ensures exchanged == if old(exchanged).Some? then old(exchanged) else Some(calls)
      ensures refusals == old(refusals) + if Goes(fates, old(calls), Swap(a, b)) then 0 else 1
      ensures r.Exchanged? <==>
        Goes(fates, old(calls), Swap(a, b)) && a in old(world).names && b in old(world).names
      ensures r.Exchanged? ==>
        world == old(world).(names := old(world).names[a := old(world).names[b]][b := old(world).names[a]])
      ensures !r.Exchanged? ==> world == old(world)
    {
      var fate := AttemptSwap(a, b);
      if fate.Unsupported? {
        r := ExchangeUnsupported;
      } else if fate.Fails? || a !in world.names || b !in world.names {
        r := ExchangeFailed;
      } else {
        SwapKeepsOk(world, a, b);
        world := world.(names := world.names[a := world.names[b]][b := world.names[a]]);
        r := Exchanged.Exchanged;
      }
      history := history + [world];
    }

    /** os.MkdirTemp: a new, empty directory under an unused name. */
    method MakeDirectory(place: Place) returns (made: bool)
      requires Valid() && place !in world.names
      modifies `world, `calls, `refusals, `history
      ensures Valid() && history == old(history) + [world] && calls == old(calls) + [Make(place)]
      ensures made <==> Goes(fates, old(calls), Make(place))
      ensures refusals == old(refusals) + if made then 0 else 1
      ensures made ==> world == WithDirectory(old(world), place)
      ensures !made ==> world == old(world)
    {
      made := Attempt(Make(place));
      if made {
        DirectoryKeepsOk(world, place);
        world := WithDirectory(world, place);
      }
      history := history + [world];
    }

    /** One file operation inside a directory: its tree becomes the given one. */
    method Update(id: Id, tree: Tree) returns (done: bool)
      requires Valid() && id in world.objects
      modifies `world, `calls, `refusals, `history
      ensures Valid() && history == old(history) + [world] && calls == old(calls) + [Change]
      ensures done <==> Goes(fates, old(calls), Change)
      ensures refusals == old(refusals) + if done then 0 else 1
      ensures world == if done then WithTree(old(world), id, tree) else old(world)
    {
      done := Attempt(Change);
      if done {
        world := WithTree(world, id, tree);
      }
      history := history + [world];
    }
  }

  function WithTree(w: World, id: Id, tree: Tree): World {
    w.(objects := w.objects[id := Directory(tree)])
  }

  predicate HoldsTree(w: World, id: Id) {
    id in w.objects && w.objects[id].Directory?
  }

  function TreeAt(w: World, id: Id): Tree
    requires HoldsTree(w, id)
  {
    w.objects[id].tree
  }

  /** From state n on, the history differs from base only in what directory id holds. */
  ghost predicate OnlyInside(history: seq<World>, n: nat, base: World, id: Id) {
    forall k :: n <= k < |history| ==> HoldsTree(history[k], id) && history[k] == WithTree(base, id, TreeAt(history[k], id))
  }
}
