// A saved dump loaded into memory (internal/diff/collection.go): the identities of
// its records, the checks on loading, and the lookup of one record by its identity.
module Collection {
  import opened Options
  import opened JsonValues
  import opened CanonicalNumber
  import opened IdentityNumber

  type Record = map<string, Json>

  datatype Key = Key(product: string, name: string)

  /** What a collection uses of a catalog entry: the read operations it supports, the
      effective shape, the get key, and the fields rendered in the dump's mode. */
  datatype Spec = Spec(operations: set<string>, singletonShape: bool, getKey: string, rendered: set<string>)
  {
    predicate KeyRendered() {
      getKey != "" && getKey in rendered
    }

    predicate IsSingleton() {
      singletonShape || ("list" !in operations && "show" in operations)
    }
  }

  /** identityString; guard is the float64 range check, sprint fmt.Sprint of the rest. */
  function IdentityString(value: Json, guard: string -> bool, sprint: Json -> string): string {
    match value
    case String(text) => text
    case Number(lexeme) => Identity(lexeme, guard)
    case Bool(b) => if b then "true" else "false"
    case _ => sprint(value)
  }

  /** The identity of a value (IdentityString), strings.TrimSpace, and the verification
      of loaded records by the resource layer. */
  datatype Host = Host(identity: Json -> string, trim: string -> string, verified: (Key, seq<Record>) -> bool)

  function IdentityOf(record: Record, spec: Spec, host: Host): Option<string> {
    if spec.getKey in record && record[spec.getKey] != Null then Some(host.identity(record[spec.getKey])) else None
  }

  /** No two records share a non-empty identity. */
  predicate UniqueIdentities(records: seq<Record>, spec: Spec, host: Host) {
    forall i, j :: 0 <= i < j < |records| && IdentityOf(records[i], spec, host).Some? && IdentityOf(records[i], spec, host).value != ""
      ==> IdentityOf(records[i], spec, host) != IdentityOf(records[j], spec, host)
  }

  /** What loading requires of the records of one resource. */
  predicate Loadable(records: seq<Record>, spec: Spec, host: Host) {
    && (spec.IsSingleton() ==> |records| <= 1)
    && (spec.KeyRendered() ==> UniqueIdentities(records, spec, host))
  }

  /** validateLoadedRecords */
  method ValidateLoadedRecords(records: seq<Record>, spec: Spec, host: Host) returns (ok: bool)
    ensures ok <==> Loadable(records, spec, host)
    ensures ok <==>
      && (spec.singletonShape || ("list" !in spec.operations && "show" in spec.operations) ==> |records| <= 1)
      && (spec.getKey != "" && spec.getKey in spec.rendered ==>
            forall i, j ::
              (0 <= i < j < |records| && spec.getKey in records[i] && spec.getKey in records[j]
               && records[i][spec.getKey] != Null && records[j][spec.getKey] != Null
               && host.identity(records[i][spec.getKey]) != "") ==>
              host.identity(records[i][spec.getKey]) != host.identity(records[j][spec.getKey]))
  {
    if spec.IsSingleton() && |records| > 1 {
      return false;
    }
    if !spec.KeyRendered() {
      return true;
    }
    var seen: set<string> := {};
    for i := 0 to |records|
      invariant UniqueIdentities(records[..i], spec, host)
      invariant forall id :: id in seen <==>
        id != "" && exists k :: 0 <= k < i && IdentityOf(records[k], spec, host) == Some(id)
    {
      var identity := IdentityOf(records[i], spec, host);
      if identity.Some? && identity.value != "" {
        if identity.value in seen {
          return false;
        }
        seen := seen + {identity.value};
      }
    }
    assert records[..|records|] == records;
    return true;
  }

  /** The records of some resources. */
  ghost function RecordCount(resources: map<Key, seq<Record>>, keys: set<Key>): nat
    requires keys <= resources.Keys
  {
    if keys == {} then 0
    else
      var k :| k in keys;
      |resources[k]| + RecordCount(resources, keys - {k})
  }

  lemma {:induction false} RecordCountWithout(resources: map<Key, seq<Record>>, keys: set<Key>, k: Key)
    requires k in keys && keys <= resources.Keys
    ensures RecordCount(resources, keys) == |resources[k]| + RecordCount(resources, keys - {k})
    decreases keys
  {
    var chosen :| chosen in keys && RecordCount(resources, keys) == |resources[chosen]| + RecordCount(resources, keys - {chosen});
    if chosen != k {
      RecordCountWithout(resources, keys - {chosen}, k);
      RecordCountWithout(resources, keys - {k}, chosen);
      assert keys - {chosen} - {k} == keys - {k} - {chosen};
    }
  }

  datatype Provenance = Provenance(resourceCount: nat, recordCount: nat)

  datatype Lookup =
    | Found(record: Record)
    | MissingId | UnknownResource | UnsupportedLoad | ScopeMismatch | RecordNotFound

  class Loaded {
    const specs: map<Key, Spec>
    const resources: map<Key, seq<Record>>
    const host: Host
    const provenance: Provenance

    /** What loading establishes. */
    ghost predicate Valid() {
      && resources.Keys <= specs.Keys
      && (forall k :: k in resources ==> Loadable(resources[k], specs[k], host))
      && provenance.resourceCount == |resources|
      && provenance.recordCount == RecordCount(resources, resources.Keys)
    }

    constructor (specs: map<Key, Spec>, resources: map<Key, seq<Record>>, host: Host, provenance: Provenance)
      requires resources.Keys <= specs.Keys && forall k :: k in resources ==> Loadable(resources[k], specs[k], host)
      requires provenance == Provenance(|resources|, RecordCount(resources, resources.Keys))
      ensures Valid() && this.specs == specs && this.resources == resources && this.host == host
    {
      this.specs := specs;
      this.resources := resources;
      this.host := host;
      this.provenance := provenance;
    }

    /** lookup */
    method Find(product: string, resource: string, operation: string) returns (problem: Option<Lookup>, key: Key)
      ensures key == Key(host.trim(product), host.trim(resource))
      ensures problem == ProblemWith(key, operation)
    {
      key := Key(host.trim(product), host.trim(resource));
      if key !in specs {
        problem := Some(UnknownResource);
      } else if operation !in specs[key].operations {
        problem := Some(UnsupportedLoad);
      } else if key !in resources {
        problem := Some(ScopeMismatch);
      } else {
        problem := None;
      }
    }

    function ProblemWith(key: Key, operation: string): Option<Lookup> {
      if key !in specs then Some(UnknownResource)
      else if operation !in specs[key].operations then Some(UnsupportedLoad)
      else if key !in resources then Some(ScopeMismatch)
      else None
    }

    /** A lookup by id gets as far as searching the records of this key. */
    predicate Searches(key: Key, id: string) {
      && host.trim(id) != "" && ProblemWith(key, "get").None?
      && key in specs && key in resources && specs[key].KeyRendered()
    }

    /** What a lookup by id reports when it does not get that far. */
    function ProblemById(key: Key, id: string): Lookup {
      if host.trim(id) == "" then MissingId
      else if ProblemWith(key, "get").Some? then ProblemWith(key, "get").value
      else UnsupportedLoad
    }

    /** GetProjectedByID: the one record with the identity, or none has it. */
    method GetProjectedByID(product: string, resource: string, id: string) returns (result: Lookup)
      requires Valid()
      ensures var key := Key(host.trim(product), host.trim(resource));
        && (result.Found? || result.RecordNotFound? <==> Searches(key, id))
        && (!Searches(key, id) ==> result == ProblemById(key, id))
        && (Searches(key, id) ==>
              var records, spec := resources[key], specs[key];
              if result.Found? then
                exists i :: 0 <= i < |records| && records[i] == result.record && OnlyWith(records, spec, host, host.trim(id), i)
              else
                forall i :: 0 <= i < |records| ==> IdentityOf(records[i], spec, host) != Some(host.trim(id)))
      ensures result.MissingId? <==> host.trim(id) == ""
      ensures host.trim(id) != "" ==>
        var key := Key(host.trim(product), host.trim(resource));
        if key !in specs then result.UnknownResource?
        else if "get" !in specs[key].operations then result.UnsupportedLoad?
        else if key !in resources then result.ScopeMismatch?
        else if specs[key].getKey == "" || specs[key].getKey !in specs[key].rendered then result.UnsupportedLoad?
        else if result.Found? then
          && result.record in resources[key] && specs[key].getKey in result.record && result.record[specs[key].getKey] != Null
          && host.identity(result.record[specs[key].getKey]) == host.trim(id)
        else
          result.RecordNotFound?
          && forall r :: r in resources[key] && specs[key].getKey in r && r[specs[key].getKey] != Null ==>
               host.identity(r[specs[key].getKey]) != host.trim(id)
    {
      var wanted := host.trim(id);
      if wanted == "" {
        return MissingId;
      }
      var problem, key := Find(product, resource, "get");
      if problem.Some? {
        return problem.value;
      }
      var spec := specs[key];
      if !spec.KeyRendered() {
        return UnsupportedLoad;
      }
      var records := resources[key];
      for i := 0 to |records|
        invariant forall k :: 0 <= k < i ==> IdentityOf(records[k], spec, host) != Some(wanted)
      {
        var identity := IdentityOf(records[i], spec, host);
        if identity.Some? && identity.value == wanted {
          UniqueIsOnly(records, spec, host, wanted, i);
          return Found(records[i]);
        }
      }
      return RecordNotFound;
    }
  }

  /** Record i, and no other, has the identity. */
  predicate OnlyWith(records: seq<Record>, spec: Spec, host: Host, id: string, i: nat)
    requires i < |records|
  {
    forall k :: 0 <= k < |records| ==> (IdentityOf(records[k], spec, host) == Some(id) <==> k == i)
  }

  lemma UniqueIsOnly(records: seq<Record>, spec: Spec, host: Host, id: string, i: nat)
    requires UniqueIdentities(records, spec, host) && i < |records|
    requires id != "" && IdentityOf(records[i], spec, host) == Some(id)
    ensures OnlyWith(records, spec, host, id, i)
  {
  }

  /** The records of a resource may enter a collection. */
  predicate Admissible(specs: map<Key, Spec>, host: Host, key: Key, records: seq<Record>) {
    key in specs && Loadable(records, specs[key], host) && host.verified(key, records)
  }

  method AdmitResource(specs: map<Key, Spec>, host: Host, key: Key, records: seq<Record>) returns (ok: bool)
    ensures ok <==> Admissible(specs, host, key, records)
  {
    if key !in specs {
      return false;
    }
    ok := ValidateLoadedRecords(records, specs[key], host);
    if ok {
      ok := host.verified(key, records);
    }
  }

  /** The resource loop of LoadCollection, over resources in any order. */
  method AdmitAll(specs: map<Key, Spec>, loaded: map<Key, seq<Record>>, host: Host) returns (counts: Option<Provenance>)
    ensures counts.Some? <==> forall k :: k in loaded ==> Admissible(specs, host, k, loaded[k])
    ensures counts.Some? ==> counts.value == Provenance(|loaded|, RecordCount(loaded, loaded.Keys))
  {
    var resourceCount, recordCount, rest := 0, 0, loaded.Keys;
    while rest != {}
      invariant rest <= loaded.Keys
      invariant forall k :: k in loaded.Keys - rest ==> Admissible(specs, host, k, loaded[k])
      invariant resourceCount + |rest| == |loaded|
      invariant recordCount + RecordCount(loaded, rest) == RecordCount(loaded, loaded.Keys)
      decreases rest
    {
      var key :| key in rest;
      var ok := AdmitResource(specs, host, key, loaded[key]);
      if !ok {
        return None;
      }
      RecordCountWithout(loaded, rest, key);
      rest := rest - {key};
      resourceCount, recordCount := resourceCount + 1, recordCount + |loaded[key]|;
    }
    return Some(Provenance(resourceCount, recordCount));
  }

  /** LoadCollection, from the loaded resources on. */
  method LoadCollection(specs: map<Key, Spec>, loaded: map<Key, seq<Record>>, host: Host) returns (collection: Loaded?)
    ensures collection != null <==> forall k :: k in loaded ==> Admissible(specs, host, k, loaded[k])
    ensures collection != null ==>
      collection.Valid() && collection.specs == specs && collection.resources == loaded && collection.host == host
  {
    var counts := AdmitAll(specs, loaded, host);
    if counts.None? {
      return null;
    }
    collection := new Loaded(specs, loaded, host, counts.value);
  }

  // ------------------------------------------------ what identities mean

  /** Texts and truth values are their own identities. */
  lemma PlainKeys(text: string, b: bool, guard: string -> bool, sprint: Json -> string)
    ensures IdentityString(String(text), guard, sprint) == text
    ensures IdentityString(Bool(b), guard, sprint) in {"true", "false"}
    ensures IdentityString(Bool(b), guard, sprint) == "true" <==> b
  {
    assert "true"[0] != "false"[0];
  }

  lemma NumberIdentityNotEmpty(l: Lexeme, guard: string -> bool)
    requires l.WellFormed() && guard(l.Text())
    ensures Identity(l.Text(), guard) != ""
  {
    IdentityOfNormal(l, guard);
    var k := IdentityTextDenotes(NormalOf(l));
    assert |k.Mantissa()| > 0;
  }

  /** Two records keyed by numbers in range share an identity exactly when the numbers
      are equal, however they are written; a collection that renders the key then
      refuses them. */
  lemma NumericKeys(records: seq<Record>, spec: Spec, host: Host, guard: string -> bool, sprint: Json -> string,
                    i: nat, j: nat, l: Lexeme, k: Lexeme)
    requires forall v :: host.identity(v) == IdentityString(v, guard, sprint)
    requires i < j < |records| && spec.getKey in records[i] && spec.getKey in records[j]
    requires l.WellFormed() && guard(l.Text()) && records[i][spec.getKey] == Number(l.Text())
    requires k.WellFormed() && guard(k.Text()) && records[j][spec.getKey] == Number(k.Text())
    ensures IdentityOf(records[i], spec, host) == IdentityOf(records[j], spec, host) <==> l.Value() == k.Value()
    ensures l.Value() == k.Value() && spec.KeyRendered() ==> !Loadable(records, spec, host)
  {
    IdentityIsExact(l, k, guard);
    NumberIdentityNotEmpty(l, guard);
  }
}
