// The keyed comparison of internal/diff/diff.go said of the records as they were
// loaded: which fields are compared, what is listed under an identity, and which
// lists of records cannot be compared. Filtering and indexing do not occur in what
// is proved.
module RawRecords {
  import opened JsonValues
  import opened KeyedDiff
  import opened KeyedDiffProperties

  /** kept has exactly the fields of raw that are not ignored, with their values. */
  ghost predicate Keeps(kept: Record, raw: Record, ignored: set<string>) {
    && (forall field :: field in kept <==> field in raw && field !in ignored)
    && (forall field :: field in kept ==> kept[field] == raw[field])
  }

  /** The field is compared and holds different data, an absent field counting as null. */
  predicate DiffersIn(field: string, a: Record, b: Record, ignored: set<string>, guard: Guard) {
    && field !in ignored
    && !ValuesEqual(if field in a then a[field] else Null, if field in b then b[field] else Null, guard)
  }

  lemma FilteredKeeps(raw: Record, spec: Spec)
    ensures Keeps(Filtered(raw, spec), raw, if spec.ignoreOperational then spec.operational else {})
  {
  }

  lemma FilteredDiffers(field: string, a: Record, b: Record, spec: Spec, guard: Guard)
    ensures Differs(field, Filtered(a, spec), Filtered(b, spec), guard)
       <==> DiffersIn(field, a, b, if spec.ignoreOperational then spec.operational else {}, guard)
  {
    assert ValuesEqual(Null, Null, guard);
  }

  /** The changes list exactly the compared fields that differ, with both raw values. */
  ghost predicate Lists(changes: seq<FieldChange>, a: Record, b: Record, ignored: set<string>, guard: Guard) {
    forall c :: c in changes <==>
      && DiffersIn(c.field, a, b, ignored, guard)
      && c.oldValue == (if c.field in a then a[c.field] else Null)
      && c.newValue == (if c.field in b then b[c.field] else Null)
  }

  lemma FilteredLists(a: Record, b: Record, spec: Spec, guard: Guard)
    ensures Lists(FieldChanges(Filtered(a, spec), Filtered(b, spec), guard), a, b,
                  if spec.ignoreOperational then spec.operational else {}, guard)
  {
    FieldChangesExact(Filtered(a, spec), Filtered(b, spec), guard);
    forall c: FieldChange
      ensures Differs(c.field, Filtered(a, spec), Filtered(b, spec), guard)
         <==> DiffersIn(c.field, a, b, if spec.ignoreOperational then spec.operational else {}, guard)
    {
      FilteredDiffers(c.field, a, b, spec, guard);
    }
  }

  // ------------------------------------------------------- keyed records

  /** Every record has a value under the key field, that value an identity, and no two
      records share one. */
  ghost predicate Keyable(records: seq<Record>, spec: Spec, host: Host) {
    && (forall r :: r in records ==>
          spec.keyField in r && r[spec.keyField] != Null && host.identity(r[spec.keyField]) != "")
    && (forall i, j :: 0 <= i < j < |records| ==>
          host.identity(records[i][spec.keyField]) != host.identity(records[j][spec.keyField]))
  }

  lemma KeyableIffIdentified(records: seq<Record>, spec: Spec, host: Host)
    ensures Keyable(records, spec, host) <==> Identified(records, spec, host)
  {
    if Keyable(records, spec, host) {
      forall i | 0 <= i < |records| ensures HasIdentity(records[i], spec) && KeyOf(records[i], spec, host) != "" {
        assert records[i] in records;
      }
    }
  }

  /** A comparison results exactly from two keyable lists. */
  lemma ComparedIffKeyable(oldRecords: seq<Record>, newRecords: seq<Record>, spec: Spec, host: Host)
    ensures Comparison(oldRecords, newRecords, spec, host).Compared?
       <==> Keyable(oldRecords, spec, host) && Keyable(newRecords, spec, host)
  {
    KeyableIffIdentified(oldRecords, spec, host);
    KeyableIffIdentified(newRecords, spec, host);
    IndexedIffIdentified(oldRecords, spec, host);
    IndexedIffIdentified(newRecords, spec, host);
  }

  ghost predicate HasKey(records: seq<Record>, key: string, spec: Spec, host: Host)
    requires Keyable(records, spec, host)
  {
    exists r :: r in records && host.identity(r[spec.keyField]) == key
  }

  lemma IndexKeys(records: seq<Record>, key: string, spec: Spec, host: Host)
    requires Keyable(records, spec, host)
    ensures IndexOf(records, spec, host).Keyed?
    ensures key in IndexOf(records, spec, host).records <==> HasKey(records, key, spec, host)
  {
    KeyableIffIdentified(records, spec, host);
    IndexedIffIdentified(records, spec, host);
    var m := IndexOf(records, spec, host).records;
    if key in m {
      var i :| 0 <= i < |records| && KeyOf(records[i], spec, host) == key;
      assert records[i] in records;
    }
    if HasKey(records, key, spec, host) {
      var r :| r in records && host.identity(r[spec.keyField]) == key;
      var i :| 0 <= i < |records| && records[i] == r;
      assert KeyOf(records[i], spec, host) in m;
    }
  }

  lemma IndexHolds(records: seq<Record>, r: Record, spec: Spec, host: Host)
    requires Keyable(records, spec, host) && r in records
    ensures IndexOf(records, spec, host).Keyed?
    ensures host.identity(r[spec.keyField]) in IndexOf(records, spec, host).records
    ensures IndexOf(records, spec, host).records[host.identity(r[spec.keyField])] == Filtered(r, spec)
  {
    KeyableIffIdentified(records, spec, host);
    IndexedIffIdentified(records, spec, host);
    var i :| 0 <= i < |records| && records[i] == r;
    assert KeyOf(records[i], spec, host) == host.identity(r[spec.keyField]);
  }

  /** Record n is the first that cannot be indexed, for the reason the error gives. */
  ghost predicate Explains(error: InvalidDump, records: seq<Record>, n: nat, spec: Spec, host: Host)
    requires n < |records|
  {
    && Keyable(records[..n], spec, host)
    && var named := spec.keyField in records[n] && records[n][spec.keyField] != Null;
       match error
       case MissingIdentity(at) => at == n && !named
       case EmptyIdentity(at) => at == n && named && host.identity(records[n][spec.keyField]) == ""
       case DuplicateIdentity(key) =>
         key != "" && named && host.identity(records[n][spec.keyField]) == key && HasKey(records[..n], key, spec, host)
  }

  lemma {:induction false} ErrorExplained(records: seq<Record>, spec: Spec, host: Host) returns (n: nat)
    requires IndexOf(records, spec, host).Invalid?
    ensures n < |records| && Explains(IndexOf(records, spec, host).error, records, n, spec, host)
  {
    var front, last := records[..|records| - 1], records[|records| - 1];
    if IndexOf(front, spec, host).Invalid? {
      n := ErrorExplained(front, spec, host);
      assert front[..n] == records[..n];
    } else {
      n := |front|;
      IndexedIffIdentified(front, spec, host);
      KeyableIffIdentified(front, spec, host);
      if HasIdentity(last, spec) {
        IndexKeys(front, KeyOf(last, spec, host), spec, host);
      }
    }
  }

  /** A refused comparison blames the first bad record, of the old side if it has one. */
  lemma RejectionExplained(oldRecords: seq<Record>, newRecords: seq<Record>, spec: Spec, host: Host) returns (n: nat)
    requires Comparison(oldRecords, newRecords, spec, host).Rejected?
    ensures var error := Comparison(oldRecords, newRecords, spec, host).error;
      if Keyable(oldRecords, spec, host) then n < |newRecords| && Explains(error, newRecords, n, spec, host)
      else n < |oldRecords| && Explains(error, oldRecords, n, spec, host)
  {
    KeyableIffIdentified(oldRecords, spec, host);
    IndexedIffIdentified(oldRecords, spec, host);
    n := ErrorExplained(if Keyable(oldRecords, spec, host) then newRecords else oldRecords, spec, host);
  }

  /** Under an identity on both sides, exactly the compared fields that differ are
      listed, with both values; and it is listed under changed only, and only if some do. */
  lemma BothSides(oldRecords: seq<Record>, newRecords: seq<Record>, spec: Spec, host: Host, d: Diff, a: Record, b: Record)
    requires Comparison(oldRecords, newRecords, spec, host) == Compared(d)
    requires a in oldRecords && b in newRecords && spec.keyField in a && spec.keyField in b
    requires host.identity(a[spec.keyField]) == host.identity(b[spec.keyField])
    ensures var key := host.identity(a[spec.keyField]); var ignored := if spec.ignoreOperational then spec.operational else {};
      && (forall r :: r in d.added + d.removed ==> r.key != key)
      && (forall c :: c in d.changed && c.key == key ==> Lists(c.changes, a, b, ignored, host.guard))
      && ((exists c :: c in d.changed && c.key == key) <==> (exists field :: DiffersIn(field, a, b, ignored, host.guard)))
  {
    ComparedIffKeyable(oldRecords, newRecords, spec, host);
    var before, after := IndexOf(oldRecords, spec, host).records, IndexOf(newRecords, spec, host).records;
    var key := host.identity(a[spec.keyField]);
    IndexHolds(oldRecords, a, spec, host);
    IndexHolds(newRecords, b, spec, host);
    DiffExact(before, after, host.guard);
    FilteredLists(a, b, spec, host.guard);
    ListedIffChanges(d, before, after, key, host.guard);
    SomeChangeIffDiffers(a, b, if spec.ignoreOperational then spec.operational else {}, spec, host.guard);
  }

  lemma SomeChangeIffDiffers(a: Record, b: Record, ignored: set<string>, spec: Spec, guard: Guard)
    requires ignored == if spec.ignoreOperational then spec.operational else {}
    ensures FieldChanges(Filtered(a, spec), Filtered(b, spec), guard) != []
       <==> exists field :: DiffersIn(field, a, b, ignored, guard)
  {
    var x, y := Filtered(a, spec), Filtered(b, spec);
    NoChangesIffEqual(x, y, guard);
    if field :| Differs(field, x, y, guard) {
      FilteredDiffers(field, a, b, spec, guard);
      assert DiffersIn(field, a, b, ignored, guard);
    }
    if field :| DiffersIn(field, a, b, ignored, guard) {
      FilteredDiffers(field, a, b, spec, guard);
      assert Differs(field, x, y, guard);
    }
  }

  lemma ListedIffChanges(d: Diff, before: map<string, Record>, after: map<string, Record>, key: string, guard: Guard)
    requires d == DiffOf(before, after, guard) && key in before && key in after
    ensures (exists c :: c in d.changed && c.key == key) <==> FieldChanges(before[key], after[key], guard) != []
  {
    DiffExact(before, after, guard);
    var changes := FieldChanges(before[key], after[key], guard);
    if changes != [] {
      assert RecordChange(key, changes) in d.changed;
    }
  }

  /** What is added: exactly the new records whose identity is not on the old side,
      each without its ignored fields. */
  lemma AddedExactly(oldRecords: seq<Record>, newRecords: seq<Record>, spec: Spec, host: Host, d: Diff)
    requires Comparison(oldRecords, newRecords, spec, host) == Compared(d)
    ensures Keyable(oldRecords, spec, host) && Keyable(newRecords, spec, host)
    ensures var ignored := if spec.ignoreOperational then spec.operational else {};
      && (forall r :: r in d.added ==> exists b ::
            b in newRecords && host.identity(b[spec.keyField]) == r.key && Keeps(r.record, b, ignored))
      && (forall r :: r in d.added ==> !HasKey(oldRecords, r.key, spec, host))
      && (forall b :: b in newRecords && !HasKey(oldRecords, host.identity(b[spec.keyField]), spec, host) ==>
            exists r :: r in d.added && r.key == host.identity(b[spec.keyField]) && Keeps(r.record, b, ignored))
  {
    ComparedIffKeyable(oldRecords, newRecords, spec, host);
    var before, after := IndexOf(oldRecords, spec, host).records, IndexOf(newRecords, spec, host).records;
    DiffExact(before, after, host.guard);
    forall r | r in d.added
      ensures !HasKey(oldRecords, r.key, spec, host)
      ensures exists b :: (b in newRecords && host.identity(b[spec.keyField]) == r.key
        && Keeps(r.record, b, if spec.ignoreOperational then spec.operational else {}))
    {
      IndexKeys(oldRecords, r.key, spec, host);
      IndexKeys(newRecords, r.key, spec, host);
      var b :| b in newRecords && host.identity(b[spec.keyField]) == r.key;
      IndexHolds(newRecords, b, spec, host);
      FilteredKeeps(b, spec);
    }
    forall b | b in newRecords && !HasKey(oldRecords, host.identity(b[spec.keyField]), spec, host)
      ensures exists r :: (r in d.added && r.key == host.identity(b[spec.keyField])
        && Keeps(r.record, b, if spec.ignoreOperational then spec.operational else {}))
    {
      var key := host.identity(b[spec.keyField]);
      IndexKeys(oldRecords, key, spec, host);
      IndexHolds(newRecords, b, spec, host);
      FilteredKeeps(b, spec);
      assert RecordRef(key, after[key]) in d.added;
    }
  }

  /** What is removed: the same with the sides exchanged. */
  lemma RemovedExactly(oldRecords: seq<Record>, newRecords: seq<Record>, spec: Spec, host: Host, d: Diff)
    requires Comparison(oldRecords, newRecords, spec, host) == Compared(d)
    ensures Keyable(oldRecords, spec, host) && Keyable(newRecords, spec, host)
    ensures var ignored := if spec.ignoreOperational then spec.operational else {};
      && (forall r :: r in d.removed ==> exists a ::
            a in oldRecords && host.identity(a[spec.keyField]) == r.key && Keeps(r.record, a, ignored))
      && (forall r :: r in d.removed ==> !HasKey(newRecords, r.key, spec, host))
      && (forall a :: a in oldRecords && !HasKey(newRecords, host.identity(a[spec.keyField]), spec, host) ==>
            exists r :: r in d.removed && r.key == host.identity(a[spec.keyField]) && Keeps(r.record, a, ignored))
  {
    ComparedIffKeyable(oldRecords, newRecords, spec, host);
    var before, after := IndexOf(oldRecords, spec, host).records, IndexOf(newRecords, spec, host).records;
    var swapped := DiffOf(after, before, host.guard);
    DiffExact(before, after, host.guard);
    DiffExact(after, before, host.guard);
    assert forall r :: r in d.removed <==> r in swapped.added;
    assert Comparison(newRecords, oldRecords, spec, host) == Compared(swapped);
    AddedExactly(newRecords, oldRecords, spec, host, swapped);
  }

  /** Nothing is reported exactly when both sides have the same identities and no
      compared field differs under any of them. */
  ghost predicate SameKeyedData(oldRecords: seq<Record>, newRecords: seq<Record>, spec: Spec, host: Host)
    requires Keyable(oldRecords, spec, host) && Keyable(newRecords, spec, host)
  {
    && (forall key :: HasKey(oldRecords, key, spec, host) <==> HasKey(newRecords, key, spec, host))
    && var ignored := if spec.ignoreOperational then spec.operational else {};
       forall a, b, field ::
         a in oldRecords && b in newRecords && host.identity(a[spec.keyField]) == host.identity(b[spec.keyField]) ==>
         !DiffersIn(field, a, b, ignored, host.guard)
  }

  lemma EmptyIffSameKeyedData(oldRecords: seq<Record>, newRecords: seq<Record>, spec: Spec, host: Host, d: Diff)
    requires Comparison(oldRecords, newRecords, spec, host) == Compared(d)
    ensures Keyable(oldRecords, spec, host) && Keyable(newRecords, spec, host)
    ensures d == EMPTY <==> SameKeyedData(oldRecords, newRecords, spec, host)
  {
    AddedExactly(oldRecords, newRecords, spec, host, d);
    RemovedExactly(oldRecords, newRecords, spec, host, d);
    if d == EMPTY {
      EmptyMeansSame(oldRecords, newRecords, spec, host, d);
    }
    if SameKeyedData(oldRecords, newRecords, spec, host) {
      SameMeansEmpty(oldRecords, newRecords, spec, host, d);
    }
  }

  lemma EmptyMeansSame(oldRecords: seq<Record>, newRecords: seq<Record>, spec: Spec, host: Host, d: Diff)
    requires Comparison(oldRecords, newRecords, spec, host) == Compared(d) && d == EMPTY
    requires Keyable(oldRecords, spec, host) && Keyable(newRecords, spec, host)
    ensures SameKeyedData(oldRecords, newRecords, spec, host)
  {
    AddedExactly(oldRecords, newRecords, spec, host, d);
    RemovedExactly(oldRecords, newRecords, spec, host, d);
    var ignored := if spec.ignoreOperational then spec.operational else {};
    forall a, b, field |
      a in oldRecords && b in newRecords && host.identity(a[spec.keyField]) == host.identity(b[spec.keyField])
      ensures !DiffersIn(field, a, b, ignored, host.guard)
    {
      BothSides(oldRecords, newRecords, spec, host, d, a, b);
    }
  }

  lemma SameMeansEmpty(oldRecords: seq<Record>, newRecords: seq<Record>, spec: Spec, host: Host, d: Diff)
    requires Comparison(oldRecords, newRecords, spec, host) == Compared(d)
    requires Keyable(oldRecords, spec, host) && Keyable(newRecords, spec, host)
    requires SameKeyedData(oldRecords, newRecords, spec, host)
    ensures d == EMPTY
  {
    AddedExactly(oldRecords, newRecords, spec, host, d);
    RemovedExactly(oldRecords, newRecords, spec, host, d);
    if d.added != [] {
      var r := d.added[0];
      assert r in d.added && HasKey(newRecords, r.key, spec, host);
    }
    if d.removed != [] {
      var r := d.removed[0];
      assert r in d.removed && HasKey(oldRecords, r.key, spec, host);
    }
    if d.changed != [] {
      ChangedOnBothSides(oldRecords, newRecords, spec, host, d, d.changed[0]);
    }
  }

  lemma ChangedOnBothSides(oldRecords: seq<Record>, newRecords: seq<Record>, spec: Spec, host: Host, d: Diff, c: RecordChange)
    requires Comparison(oldRecords, newRecords, spec, host) == Compared(d) && c in d.changed
    ensures Keyable(oldRecords, spec, host) && Keyable(newRecords, spec, host)
    ensures var ignored := if spec.ignoreOperational then spec.operational else {};
      exists a, b, field ::
        && a in oldRecords && b in newRecords && host.identity(a[spec.keyField]) == host.identity(b[spec.keyField]) == c.key
        && DiffersIn(field, a, b, ignored, host.guard)
  {
    ComparedIffKeyable(oldRecords, newRecords, spec, host);
    var before, after := IndexOf(oldRecords, spec, host).records, IndexOf(newRecords, spec, host).records;
    DiffExact(before, after, host.guard);
    IndexKeys(oldRecords, c.key, spec, host);
    IndexKeys(newRecords, c.key, spec, host);
    var a :| a in oldRecords && host.identity(a[spec.keyField]) == c.key;
    var b :| b in newRecords && host.identity(b[spec.keyField]) == c.key;
    BothSides(oldRecords, newRecords, spec, host, d, a, b);
  }
}
