// The keyed comparison of internal/diff/diff.go: records indexed by identity,
// the field changes between two records, and the added, removed and changed
// records, proved to be a correct and minimal patch.
module KeyedDiff {
  import opened JsonValues
  import opened SortedKeys

  type Record = map<string, Json>

  /** What the comparison uses of a catalog entry and its options. */
  datatype Spec = Spec(keyField: string, operational: set<string>, ignoreOperational: bool)

  /** The float64 range check, and the identity of a value (Collection.IdentityString). */
  datatype Host = Host(guard: Guard, identity: Json -> string)

  datatype FieldChange = FieldChange(field: string, oldValue: Json, newValue: Json)
  datatype RecordRef = RecordRef(key: string, record: Record)
  datatype RecordChange = RecordChange(key: string, changes: seq<FieldChange>)
  datatype Diff = Diff(added: seq<RecordRef>, removed: seq<RecordRef>, changed: seq<RecordChange>)

  // ---------------------------------------------------------- record index

  /** filterRecordContext; decoded values are already in canonical form. */
  function Filtered(record: Record, spec: Spec): Record {
    map field | field in record && !(spec.ignoreOperational && field in spec.operational) :: record[field]
  }

  predicate HasIdentity(record: Record, spec: Spec) {
    spec.keyField in record && record[spec.keyField] != Null
  }

  function KeyOf(record: Record, spec: Spec, host: Host): string
    requires HasIdentity(record, spec)
  {
    host.identity(record[spec.keyField])
  }

  datatype InvalidDump =
    | MissingIdentity(at: nat)
    | EmptyIdentity(at: nat)
    | DuplicateIdentity(key: string)

  datatype Index = Keyed(records: map<string, Record>) | Invalid(error: InvalidDump)

  /** One step of keyedRecords. */
  function AddRecord(index: Index, at: nat, record: Record, spec: Spec, host: Host): Index {
    if index.Invalid? then index
    else if !HasIdentity(record, spec) then Invalid(MissingIdentity(at))
    else
      var key := KeyOf(record, spec, host);
      if key == "" then Invalid(EmptyIdentity(at))
      else if key in index.records then Invalid(DuplicateIdentity(key))
      else Keyed(index.records[key := Filtered(record, spec)])
  }

  function IndexOf(records: seq<Record>, spec: Spec, host: Host): Index {
    if records == [] then Keyed(map[])
    else
      var last := |records| - 1;
      AddRecord(IndexOf(records[..last], spec, host), last, records[last], spec, host)
  }

  method KeyedRecords(records: seq<Record>, spec: Spec, host: Host) returns (index: Index)
    ensures index == IndexOf(records, spec, host)
  {
    var out: map<string, Record> := map[];
    for i := 0 to |records|
      invariant IndexOf(records[..i], spec, host) == Keyed(out)
    {
      assert records[..i + 1][..i] == records[..i];
      var record := records[i];
      if !HasIdentity(record, spec) {
        IndexStaysInvalid(records, i + 1, spec, host);
        return Invalid(MissingIdentity(i));
      }
      var key := KeyOf(record, spec, host);
      if key == "" {
        IndexStaysInvalid(records, i + 1, spec, host);
        return Invalid(EmptyIdentity(i));
      }
      if key in out {
        IndexStaysInvalid(records, i + 1, spec, host);
        return Invalid(DuplicateIdentity(key));
      }
      out := out[key := Filtered(record, spec)];
    }
    assert records[..|records|] == records;
    return Keyed(out);
  }

  /** The first failing record decides the error. */
  lemma {:induction false} IndexStaysInvalid(records: seq<Record>, n: nat, spec: Spec, host: Host)
    requires n <= |records| && IndexOf(records[..n], spec, host).Invalid?
    ensures IndexOf(records, spec, host) == IndexOf(records[..n], spec, host)
    decreases |records| - n
  {
    if n < |records| {
      assert records[..n + 1][..n] == records[..n];
      IndexStaysInvalid(records, n + 1, spec, host);
    } else {
      assert records[..n] == records;
    }
  }

  /** Every record has a non-empty identity and no two share one. */
  ghost predicate Identified(records: seq<Record>, spec: Spec, host: Host)
  {
    && (forall i :: 0 <= i < |records| ==> HasIdentity(records[i], spec) && KeyOf(records[i], spec, host) != "")
    && (forall i, j :: 0 <= i < j < |records| ==> KeyOf(records[i], spec, host) != KeyOf(records[j], spec, host))
  }

  /** m maps the identity of each record to its filtered fields, and nothing else. */
  ghost predicate Indexes(m: map<string, Record>, records: seq<Record>, spec: Spec, host: Host)
    requires Identified(records, spec, host)
  {
    && (forall key :: key in m ==> exists i :: 0 <= i < |records| && KeyOf(records[i], spec, host) == key)
    && (forall i :: 0 <= i < |records| ==>
          KeyOf(records[i], spec, host) in m
          && m[KeyOf(records[i], spec, host)] == Filtered(records[i], spec))
  }

  /** A record may join identified ones when its identity is present and new. */
  ghost predicate Joins(front: seq<Record>, record: Record, spec: Spec, host: Host)
    requires Identified(front, spec, host)
  {
    && HasIdentity(record, spec)
    && KeyOf(record, spec, host) != ""
    && forall i :: 0 <= i < |front| ==> KeyOf(front[i], spec, host) != KeyOf(record, spec, host)
  }

  lemma IdentifiedSnoc(records: seq<Record>, spec: Spec, host: Host)
    requires records != []
    ensures Identified(records, spec, host)
       <==> Identified(records[..|records| - 1], spec, host)
            && Joins(records[..|records| - 1], records[|records| - 1], spec, host)
  {
    var front := records[..|records| - 1];
    assert forall i :: 0 <= i < |front| ==> records[i] == front[i];
  }

  lemma IndexesSnoc(m: map<string, Record>, front: seq<Record>, last: Record, spec: Spec, host: Host)
    requires Identified(front, spec, host) && Identified(front + [last], spec, host)
    requires HasIdentity(last, spec)
    requires Indexes(m, front, spec, host)
    ensures Indexes(m[KeyOf(last, spec, host) := Filtered(last, spec)], front + [last], spec, host)
    ensures KeyOf(last, spec, host) !in m
  {
    var records := front + [last];
    var key := KeyOf(last, spec, host);
    assert records[|front|] == last;
    assert forall i :: 0 <= i < |front| ==> records[i] == front[i];
    var longer := m[key := Filtered(last, spec)];
    forall k | k in longer && k != key ensures exists i :: 0 <= i < |records| && KeyOf(records[i], spec, host) == k {
      var i :| 0 <= i < |front| && KeyOf(front[i], spec, host) == k;
      assert records[i] == front[i];
    }
    forall i | 0 <= i < |front|
      ensures KeyOf(records[i], spec, host) != key
    {
      assert KeyOf(records[i], spec, host) != KeyOf(records[|front|], spec, host);
    }
  }

  lemma IndexedMeansJoins(m: map<string, Record>, front: seq<Record>, record: Record, spec: Spec, host: Host)
    requires Identified(front, spec, host) && Indexes(m, front, spec, host)
    ensures Joins(front, record, spec, host)
       <==> HasIdentity(record, spec) && KeyOf(record, spec, host) != "" && KeyOf(record, spec, host) !in m
  {
  }

  lemma AddRecordIffJoins(m: map<string, Record>, front: seq<Record>, last: Record, spec: Spec, host: Host)
    requires Identified(front, spec, host) && Indexes(m, front, spec, host) && |m| == |front|
    ensures AddRecord(Keyed(m), |front|, last, spec, host).Keyed? <==> Joins(front, last, spec, host)
    ensures Joins(front, last, spec, host) ==>
      AddRecord(Keyed(m), |front|, last, spec, host).records == m[KeyOf(last, spec, host) := Filtered(last, spec)]
      && |AddRecord(Keyed(m), |front|, last, spec, host).records| == |front| + 1
  {
    IndexedMeansJoins(m, front, last, spec, host);
  }

  lemma AddRecordIndexes(m: map<string, Record>, front: seq<Record>, last: Record, spec: Spec, host: Host)
    requires Identified(front, spec, host) && Indexes(m, front, spec, host) && |m| == |front|
    ensures AddRecord(Keyed(m), |front|, last, spec, host).Keyed? <==> Identified(front + [last], spec, host)
    ensures Identified(front + [last], spec, host) ==>
      var added := AddRecord(Keyed(m), |front|, last, spec, host).records;
      Indexes(added, front + [last], spec, host) && |added| == |front| + 1
  {
    assert (front + [last])[..|front|] == front && (front + [last])[|front|] == last;
    IdentifiedSnoc(front + [last], spec, host);
    AddRecordIffJoins(m, front, last, spec, host);
    if Identified(front + [last], spec, host) {
      IndexesSnoc(m, front, last, spec, host);
    }
  }

  /** Loading succeeds exactly on identified records, and then indexes all of them. */
  lemma {:induction false} IndexedIffIdentified(records: seq<Record>, spec: Spec, host: Host)
    ensures IndexOf(records, spec, host).Keyed? <==> Identified(records, spec, host)
    ensures Identified(records, spec, host) ==>
      Indexes(IndexOf(records, spec, host).records, records, spec, host)
      && |IndexOf(records, spec, host).records| == |records|
  {
    if records != [] {
      var front, last := records[..|records| - 1], records[|records| - 1];
      assert records == front + [last];
      IndexedIffIdentified(front, spec, host);
      IdentifiedSnoc(records, spec, host);
      if Identified(front, spec, host) {
        AddRecordIndexes(IndexOf(front, spec, host).records, front, last, spec, host);
      }
    }
  }

  // ---------------------------------------------------------- field changes

  function Field(record: Record, field: string): Json {
    if field in record then record[field] else Null
  }

  function ChangesOver(fields: seq<string>, oldRecord: Record, newRecord: Record, guard: Guard): seq<FieldChange> {
    if fields == [] then []
    else
      var field := fields[|fields| - 1];
      var earlier := ChangesOver(fields[..|fields| - 1], oldRecord, newRecord, guard);
      var oldValue, newValue := Field(oldRecord, field), Field(newRecord, field);
      if ValuesEqual(oldValue, newValue, guard) then earlier
      else earlier + [FieldChange(field, oldValue, newValue)]
  }

  ghost function FieldChanges(oldRecord: Record, newRecord: Record, guard: Guard): seq<FieldChange> {
    ChangesOver(Sorted(oldRecord.Keys + newRecord.Keys), oldRecord, newRecord, guard)
  }

  lemma ChangesStep(fields: seq<string>, field: string, oldRecord: Record, newRecord: Record, guard: Guard)
    ensures ChangesOver(fields + [field], oldRecord, newRecord, guard)
         == ChangesOver(fields, oldRecord, newRecord, guard)
            + if ValuesEqual(Field(oldRecord, field), Field(newRecord, field), guard) then []
              else [FieldChange(field, Field(oldRecord, field), Field(newRecord, field))]
  {
    assert (fields + [field])[..|fields|] == fields;
  }

  /** One turn of the field loop. */
  method DiffField(earlier: seq<string>, field: string, oldRecord: Record, newRecord: Record, guard: Guard, changes: seq<FieldChange>)
    returns (longer: seq<FieldChange>)
    requires changes == ChangesOver(earlier, oldRecord, newRecord, guard)
    ensures longer == ChangesOver(earlier + [field], oldRecord, newRecord, guard)
  {
    var oldValue, newValue := Null, Null;
    if field in oldRecord {
      oldValue := oldRecord[field];
    }
    if field in newRecord {
      newValue := newRecord[field];
    }
    assert oldValue == Field(oldRecord, field) && newValue == Field(newRecord, field);
    ChangesStep(earlier, field, oldRecord, newRecord, guard);
    longer := changes;
    if !ValuesEqual(oldValue, newValue, guard) {
      longer := changes + [FieldChange(field, oldValue, newValue)];
    }
  }

  /** The field loop. */
  method DiffOverFields(fields: seq<string>, oldRecord: Record, newRecord: Record, guard: Guard)
    returns (changes: seq<FieldChange>)
    ensures changes == ChangesOver(fields, oldRecord, newRecord, guard)
  {
    changes := [];
    for i := 0 to |fields|
      invariant changes == ChangesOver(fields[..i], oldRecord, newRecord, guard)
    {
      changes := DiffField(fields[..i], fields[i], oldRecord, newRecord, guard, changes);
      assert fields[..i + 1] == fields[..i] + [fields[i]];
    }
    assert fields[..|fields|] == fields;
  }

  method DiffFields(oldRecord: Record, newRecord: Record, guard: Guard) returns (changes: seq<FieldChange>)
    ensures changes == FieldChanges(oldRecord, newRecord, guard)
  {
    var fields := Sort(oldRecord.Keys + newRecord.Keys);
    ListUnique(fields, Sorted(oldRecord.Keys + newRecord.Keys), oldRecord.Keys + newRecord.Keys);
    changes := DiffOverFields(fields, oldRecord, newRecord, guard);
  }

  // ------------------------------------------------------------ the diff

  const EMPTY := Diff([], [], [])

  /** One key of the union of the two indexes. */
  ghost function Extend(d: Diff, key: string, before: map<string, Record>, after: map<string, Record>, guard: Guard): Diff {
    if key !in before && key in after then d.(added := d.added + [RecordRef(key, after[key])])
    else if key in before && key !in after then d.(removed := d.removed + [RecordRef(key, before[key])])
    else if key in before && key in after && FieldChanges(before[key], after[key], guard) != [] then
      d.(changed := d.changed + [RecordChange(key, FieldChanges(before[key], after[key], guard))])
    else d
  }

  ghost function DiffOver(keys: seq<string>, before: map<string, Record>, after: map<string, Record>, guard: Guard): Diff {
    if keys == [] then EMPTY
    else Extend(DiffOver(keys[..|keys| - 1], before, after, guard), keys[|keys| - 1], before, after, guard)
  }

  /** The comparison of two indexed record lists. */
  ghost function DiffOf(before: map<string, Record>, after: map<string, Record>, guard: Guard): Diff {
    DiffOver(Sorted(before.Keys + after.Keys), before, after, guard)
  }

  datatype Outcome = Compared(diff: Diff) | Rejected(error: InvalidDump)

  ghost function Comparison(oldRecords: seq<Record>, newRecords: seq<Record>, spec: Spec, host: Host): Outcome {
    var before := IndexOf(oldRecords, spec, host);
    var after := IndexOf(newRecords, spec, host);
    if before.Invalid? then Rejected(before.error)
    else if after.Invalid? then Rejected(after.error)
    else Compared(DiffOf(before.records, after.records, host.guard))
  }

  method CompareKeys(keys: seq<string>, oldByKey: map<string, Record>, newByKey: map<string, Record>, guard: Guard)
    returns (out: Diff)
    requires forall i :: 0 <= i < |keys| ==> keys[i] in oldByKey || keys[i] in newByKey
    ensures out == DiffOver(keys, oldByKey, newByKey, guard)
  {
    out := EMPTY;
    for i := 0 to |keys|
      invariant out == DiffOver(keys[..i], oldByKey, newByKey, guard)
    {
      var key := keys[i];
      assert keys[..i + 1][..i] == keys[..i];
      if key !in oldByKey {
        out := out.(added := out.added + [RecordRef(key, newByKey[key])]);
      } else if key !in newByKey {
        out := out.(removed := out.removed + [RecordRef(key, oldByKey[key])]);
      } else {
        var changes := DiffFields(oldByKey[key], newByKey[key], guard);
        if changes != [] {
          out := out.(changed := out.changed + [RecordChange(key, changes)]);
        }
      }
    }
    assert keys[..|keys|] == keys;
  }

  method CompareIndexed(oldByKey: map<string, Record>, newByKey: map<string, Record>, guard: Guard) returns (out: Diff)
    ensures out == DiffOf(oldByKey, newByKey, guard)
  {
    var all := oldByKey.Keys + newByKey.Keys;
    var keys := Sort(all);
    ListUnique(keys, Sorted(all), all);
    forall i | 0 <= i < |keys| ensures keys[i] in all {
      assert keys[i] in Elements(keys);
    }
    out := CompareKeys(keys, oldByKey, newByKey, guard);
  }

  /** compareKeyed */
  method CompareKeyed(oldRecords: seq<Record>, newRecords: seq<Record>, spec: Spec, host: Host) returns (outcome: Outcome)
    ensures outcome == Comparison(oldRecords, newRecords, spec, host)
  {
    var before := KeyedRecords(oldRecords, spec, host);
    if before.Invalid? {
      return Rejected(before.error);
    }
    var after := KeyedRecords(newRecords, spec, host);
    if after.Invalid? {
      return Rejected(after.error);
    }
    var out := CompareIndexed(before.records, after.records, host.guard);
    return Compared(out);
  }
}
