// What the keyed comparison guarantees: the diff is exact, a correct and minimal
// patch, independent of record order, mirrored when the sides are swapped, and
// empty when a list is compared with itself.
module KeyedDiffProperties {
  import opened JsonValues
  import opened SortedKeys
  import opened KeyedDiff

  // -------------------------------------------------------- which fields

  predicate Differs(field: string, oldRecord: Record, newRecord: Record, guard: Guard) {
    !ValuesEqual(Field(oldRecord, field), Field(newRecord, field), guard)
  }

  /** The two records hold equal data in every field, a null field being an absent one. */
  ghost predicate Equivalent(a: Record, b: Record, guard: Guard) {
    forall field :: Field(a, field) == Field(b, field) || ValuesEqual(Field(a, field), Field(b, field), guard)
  }

  lemma {:induction false} ChangesMembers(fields: seq<string>, oldRecord: Record, newRecord: Record, guard: Guard)
    ensures forall c :: c in ChangesOver(fields, oldRecord, newRecord, guard) <==>
      && c.field in fields && Differs(c.field, oldRecord, newRecord, guard)
      && c == FieldChange(c.field, Field(oldRecord, c.field), Field(newRecord, c.field))
  {
    if fields != [] {
      var front, last := fields[..|fields| - 1], fields[|fields| - 1];
      ChangesMembers(front, oldRecord, newRecord, guard);
      assert fields == front + [last];
      ChangesStep(front, last, oldRecord, newRecord, guard);
    }
  }

  /** A field is reported exactly when the two records differ in it, with both values. */
  lemma FieldChangesExact(oldRecord: Record, newRecord: Record, guard: Guard)
    ensures forall c :: c in FieldChanges(oldRecord, newRecord, guard) <==>
      && Differs(c.field, oldRecord, newRecord, guard)
      && c == FieldChange(c.field, Field(oldRecord, c.field), Field(newRecord, c.field))
  {
    var fields := Sorted(oldRecord.Keys + newRecord.Keys);
    ChangesMembers(fields, oldRecord, newRecord, guard);
    forall field | Differs(field, oldRecord, newRecord, guard) ensures field in fields {
      assert field in Elements(fields);
    }
  }

  function ApplyFields(record: Record, changes: seq<FieldChange>): Record {
    if changes == [] then record
    else
      var last := changes[|changes| - 1];
      ApplyFields(record, changes[..|changes| - 1])[last.field := last.newValue]
  }

  lemma {:induction false} ApplyFieldsAt(record: Record, changes: seq<FieldChange>, newRecord: Record, field: string)
    requires forall c :: c in changes ==> c.newValue == Field(newRecord, c.field)
    ensures Field(ApplyFields(record, changes), field)
         == if exists c :: c in changes && c.field == field then Field(newRecord, field) else Field(record, field)
  {
    if changes != [] {
      var front, last := changes[..|changes| - 1], changes[|changes| - 1];
      ApplyFieldsAt(record, front, newRecord, field);
      assert changes == front + [last];
    }
  }

  /** Applying the reported changes to the old record gives the new one. */
  lemma FieldPatchCorrect(oldRecord: Record, newRecord: Record, guard: Guard)
    ensures Equivalent(ApplyFields(oldRecord, FieldChanges(oldRecord, newRecord, guard)), newRecord, guard)
  {
    var changes := FieldChanges(oldRecord, newRecord, guard);
    FieldChangesExact(oldRecord, newRecord, guard);
    forall field
      ensures var f := Field(ApplyFields(oldRecord, changes), field);
        f == Field(newRecord, field) || ValuesEqual(f, Field(newRecord, field), guard)
    {
      ApplyFieldsAt(oldRecord, changes, newRecord, field);
      if Differs(field, oldRecord, newRecord, guard) {
        assert FieldChange(field, Field(oldRecord, field), Field(newRecord, field)) in changes;
      }
    }
  }

  /** Every value in the record passes the number guard. */
  ghost predicate Hashed(record: Record, guard: Guard) {
    forall field :: field in record ==> HashValue(record[field], guard).Some?
  }

  /** No change is reported exactly when the records agree in every field. */
  lemma NoChangesIffEqual(oldRecord: Record, newRecord: Record, guard: Guard)
    ensures FieldChanges(oldRecord, newRecord, guard) == [] <==>
      forall field :: !Differs(field, oldRecord, newRecord, guard)
  {
    FieldChangesExact(oldRecord, newRecord, guard);
    var changes := FieldChanges(oldRecord, newRecord, guard);
    if changes != [] {
      assert changes[0] in changes;
    }
    if field :| Differs(field, oldRecord, newRecord, guard) {
      assert FieldChange(field, Field(oldRecord, field), Field(newRecord, field)) in changes;
    }
  }

  lemma UnchangedIffHashed(record: Record, guard: Guard)
    ensures FieldChanges(record, record, guard) == [] <==> Hashed(record, guard)
  {
    NoChangesIffEqual(record, record, guard);
    forall field ensures Differs(field, record, record, guard) <==> HashValue(Field(record, field), guard).None? {
      ReflexiveWhereHashed(Field(record, field), guard);
    }
    if Hashed(record, guard) {
      assert forall field :: !Differs(field, record, record, guard);
    } else {
      var field :| field in record && HashValue(record[field], guard).None?;
      assert Differs(field, record, record, guard);
    }
  }

  // -------------------------------------------------------- which records

  predicate IsAdded(r: RecordRef, before: map<string, Record>, after: map<string, Record>) {
    r.key !in before && r.key in after && r.record == after[r.key]
  }

  ghost predicate IsChanged(c: RecordChange, before: map<string, Record>, after: map<string, Record>, guard: Guard) {
    && c.key in before && c.key in after
    && c.changes == FieldChanges(before[c.key], after[c.key], guard) != []
  }

  lemma {:induction false} DiffOverMembers(keys: seq<string>, before: map<string, Record>, after: map<string, Record>, guard: Guard)
    ensures var d := DiffOver(keys, before, after, guard);
      && (forall r :: r in d.added <==> r.key in keys && IsAdded(r, before, after))
      && (forall r :: r in d.removed <==> r.key in keys && IsAdded(r, after, before))
      && (forall c :: c in d.changed <==> c.key in keys && IsChanged(c, before, after, guard))
  {
    if keys != [] {
      var front, last := keys[..|keys| - 1], keys[|keys| - 1];
      DiffOverMembers(front, before, after, guard);
      assert keys == front + [last];
    }
  }

  /** Each key of the two indexes is added, removed, changed or unchanged, as it should be. */
  lemma DiffExact(before: map<string, Record>, after: map<string, Record>, guard: Guard)
    ensures var d := DiffOf(before, after, guard);
      && (forall r :: r in d.added <==> IsAdded(r, before, after))
      && (forall r :: r in d.removed <==> IsAdded(r, after, before))
      && (forall c :: c in d.changed <==> IsChanged(c, before, after, guard))
  {
    var keys := Sorted(before.Keys + after.Keys);
    DiffOverMembers(keys, before, after, guard);
    forall key | key in before || key in after ensures key in keys {
      assert key in Elements(keys);
    }
  }

  function Names(refs: seq<RecordRef>): seq<string> {
    seq(|refs|, i requires 0 <= i < |refs| => refs[i].key)
  }

  function ChangedNames(changes: seq<RecordChange>): seq<string> {
    seq(|changes|, i requires 0 <= i < |changes| => changes[i].key)
  }

  lemma IncreasingSnoc(s: seq<string>, x: string)
    requires Increasing(s) && forall i :: 0 <= i < |s| ==> Less(s[i], x)
    ensures Increasing(s + [x])
  {
  }

  /** Each of the three lists is in key order, so no key is listed twice. */
  predicate Ordered(d: Diff) {
    Increasing(Names(d.added)) && Increasing(Names(d.removed)) && Increasing(ChangedNames(d.changed))
  }

  predicate Below(d: Diff, key: string) {
    && (forall i :: 0 <= i < |d.added| ==> Less(d.added[i].key, key))
    && (forall i :: 0 <= i < |d.removed| ==> Less(d.removed[i].key, key))
    && (forall i :: 0 <= i < |d.changed| ==> Less(d.changed[i].key, key))
  }

  lemma ExtendOrdered(d: Diff, r: RecordRef, c: RecordChange)
    requires Ordered(d) && Below(d, r.key) && Below(d, c.key)
    ensures Ordered(d.(added := d.added + [r]))
    ensures Ordered(d.(removed := d.removed + [r]))
    ensures Ordered(d.(changed := d.changed + [c]))
  {
    IncreasingSnoc(Names(d.added), r.key);
    IncreasingSnoc(Names(d.removed), r.key);
    IncreasingSnoc(ChangedNames(d.changed), c.key);
    assert Names(d.added + [r]) == Names(d.added) + [r.key];
    assert Names(d.removed + [r]) == Names(d.removed) + [r.key];
    assert ChangedNames(d.changed + [c]) == ChangedNames(d.changed) + [c.key];
  }

  lemma BelowLast(keys: seq<string>, last: string, before: map<string, Record>, after: map<string, Record>, guard: Guard)
    requires forall key :: key in keys ==> Less(key, last)
    ensures Below(DiffOver(keys, before, after, guard), last)
  {
    DiffOverMembers(keys, before, after, guard);
    var d := DiffOver(keys, before, after, guard);
    assert forall i :: 0 <= i < |d.added| ==> d.added[i] in d.added;
    assert forall i :: 0 <= i < |d.removed| ==> d.removed[i] in d.removed;
    assert forall i :: 0 <= i < |d.changed| ==> d.changed[i] in d.changed;
  }

  lemma {:induction false} DiffOverOrdered(keys: seq<string>, before: map<string, Record>, after: map<string, Record>, guard: Guard)
    requires Increasing(keys)
    ensures Ordered(DiffOver(keys, before, after, guard))
  {
    if keys != [] {
      var front, last := keys[..|keys| - 1], keys[|keys| - 1];
      DiffOverOrdered(front, before, after, guard);
      BelowLast(front, last, before, after, guard);
      var record := if last in after then after[last] else if last in before then before[last] else map[];
      var changes := if last in before && last in after then FieldChanges(before[last], after[last], guard) else [];
      ExtendOrdered(DiffOver(front, before, after, guard), RecordRef(last, record), RecordChange(last, changes));
    }
  }

  // ------------------------------------------------------------- the patch

  function Remove(m: map<string, Record>, refs: seq<RecordRef>): map<string, Record> {
    if refs == [] then m else Remove(m, refs[..|refs| - 1]) - {refs[|refs| - 1].key}
  }

  function Add(m: map<string, Record>, refs: seq<RecordRef>): map<string, Record> {
    if refs == [] then m
    else
      var last := refs[|refs| - 1];
      Add(m, refs[..|refs| - 1])[last.key := last.record]
  }

  function Change(m: map<string, Record>, changes: seq<RecordChange>): map<string, Record> {
    if changes == [] then m
    else
      var last := changes[|changes| - 1];
      var n := Change(m, changes[..|changes| - 1]);
      if last.key in n then n[last.key := ApplyFields(n[last.key], last.changes)] else n
  }

  /** Deletes the removed records, applies the changes, inserts the added records. */
  function Patch(m: map<string, Record>, d: Diff): map<string, Record> {
    Add(Change(Remove(m, d.removed), d.changed), d.added)
  }

  lemma {:induction false} RemoveAt(m: map<string, Record>, refs: seq<RecordRef>, key: string)
    ensures key in Remove(m, refs) <==> key in m && forall r :: r in refs ==> r.key != key
    ensures key in Remove(m, refs) ==> Remove(m, refs)[key] == m[key]
  {
    if refs != [] {
      var front, last := refs[..|refs| - 1], refs[|refs| - 1];
      RemoveAt(m, front, key);
      assert refs == front + [last];
    }
  }

  lemma {:induction false} AddAt(m: map<string, Record>, refs: seq<RecordRef>, after: map<string, Record>, key: string)
    requires forall r :: r in refs ==> r.key in after && r.record == after[r.key]
    ensures key in Add(m, refs) <==> key in m || exists r :: r in refs && r.key == key
    ensures (exists r :: r in refs && r.key == key) ==> Add(m, refs)[key] == after[key]
    ensures (forall r :: r in refs ==> r.key != key) && key in m ==> Add(m, refs)[key] == m[key]
  {
    if refs != [] {
      var front, last := refs[..|refs| - 1], refs[|refs| - 1];
      AddAt(m, front, after, key);
      assert refs == front + [last];
      assert last in refs;
    }
  }

  lemma {:induction false} ChangeAt(m: map<string, Record>, changes: seq<RecordChange>, key: string)
    requires Increasing(ChangedNames(changes))
    ensures key in Change(m, changes) <==> key in m
    ensures (forall c :: c in changes ==> c.key != key) && key in m ==> Change(m, changes)[key] == m[key]
    ensures forall c :: c in changes && c.key == key && key in m ==>
      Change(m, changes)[key] == ApplyFields(m[key], c.changes)
  {
    if changes != [] {
      var front, last := changes[..|changes| - 1], changes[|changes| - 1];
      assert changes == front + [last];
      assert forall i :: 0 <= i < |front| ==> ChangedNames(front)[i] == ChangedNames(changes)[i];
      ChangeAt(m, front, key);
      forall c | c in front ensures c.key != last.key {
        var i :| 0 <= i < |front| && front[i] == c;
        assert Less(ChangedNames(changes)[i], ChangedNames(changes)[|front|]);
        LessIsStrictOrder(c.key, [], []);
      }
    }
  }

  /** Equal keys, and equivalent records under each. */
  ghost predicate SameRecords(m: map<string, Record>, n: map<string, Record>, guard: Guard) {
    m.Keys == n.Keys && forall key :: key in m ==> Equivalent(m[key], n[key], guard)
  }

  predicate Mentions(refs: seq<RecordRef>, key: string) {
    exists r :: r in refs && r.key == key
  }

  /** What patching with a diff does to one key. */
  predicate PatchedAt(before: map<string, Record>, after: map<string, Record>, d: Diff, p: map<string, Record>, key: string) {
    && (key in p ==> Mentions(d.added, key) || (key in before && !Mentions(d.removed, key)))
    && (Mentions(d.added, key) ==> key in p && key in after && p[key] == after[key])
    && (key in before && !Mentions(d.added, key) && !Mentions(d.removed, key) ==>
          && key in p
          && ((forall c :: c in d.changed ==> c.key != key) ==> p[key] == before[key])
          && (forall c :: c in d.changed && c.key == key ==> p[key] == ApplyFields(before[key], c.changes)))
  }

  lemma PatchParts(before: map<string, Record>, after: map<string, Record>, guard: Guard, key: string)
    ensures var d := DiffOf(before, after, guard); PatchedAt(before, after, d, Patch(before, d), key)
  {
    var d := DiffOf(before, after, guard);
    DiffExact(before, after, guard);
    DiffOverOrdered(Sorted(before.Keys + after.Keys), before, after, guard);
    RemoveAt(before, d.removed, key);
    ChangeAt(Remove(before, d.removed), d.changed, key);
    AddAt(Change(Remove(before, d.removed), d.changed), d.added, after, key);
  }

  lemma PatchKept(before: map<string, Record>, after: map<string, Record>, guard: Guard, key: string)
    requires key in before && key in after
    ensures var p := Patch(before, DiffOf(before, after, guard)); key in p && Equivalent(p[key], after[key], guard)
  {
    var d := DiffOf(before, after, guard);
    DiffExact(before, after, guard);
    PatchParts(before, after, guard, key);
    assert !Mentions(d.removed, key) && !Mentions(d.added, key);
    FieldPatchCorrect(before[key], after[key], guard);
    var changes := FieldChanges(before[key], after[key], guard);
    if changes != [] {
      assert RecordChange(key, changes) in d.changed;
    } else {
      assert ApplyFields(before[key], changes) == before[key];
    }
  }

  lemma PatchAt(before: map<string, Record>, after: map<string, Record>, guard: Guard, key: string)
    ensures var p := Patch(before, DiffOf(before, after, guard));
      && (key in p <==> key in after)
      && (key in after ==> Equivalent(p[key], after[key], guard))
  {
    var d := DiffOf(before, after, guard);
    if key in before && key in after {
      PatchKept(before, after, guard, key);
    } else {
      DiffExact(before, after, guard);
      PatchParts(before, after, guard, key);
      if key in after {
        assert RecordRef(key, after[key]) in d.added;
      } else if key in before {
        assert RecordRef(key, before[key]) in d.removed;
      }
    }
  }

  /** Patching the old records with the diff yields the new ones. */
  lemma PatchCorrect(before: map<string, Record>, after: map<string, Record>, guard: Guard)
    ensures SameRecords(Patch(before, DiffOf(before, after, guard)), after, guard)
  {
    forall key
      ensures var p := Patch(before, DiffOf(before, after, guard));
        (key in p <==> key in after) && (key in after ==> Equivalent(p[key], after[key], guard))
    {
      PatchAt(before, after, guard, key);
    }
  }

  /** The keys a diff touches. */
  ghost predicate Touches(d: Diff, key: string) {
    || (exists r :: r in d.added && r.key == key)
    || (exists r :: r in d.removed && r.key == key)
    || (exists c :: c in d.changed && c.key == key)
  }

  /** The key must be touched: it came, it went, or its record is not equivalent. */
  ghost predicate Needed(before: map<string, Record>, after: map<string, Record>, guard: Guard, key: string) {
    || (key in before) != (key in after)
    || (key in before && key in after && !Equivalent(before[key], after[key], guard))
  }

  /** A field holds the same value on both sides, with a number the guard refuses. */
  ghost predicate KeepsRefused(a: Record, b: Record, guard: Guard, field: string) {
    Field(a, field) == Field(b, field) && HashValue(Field(b, field), guard).None?
  }

  /** The diff touches what must be touched, and records that keep a refused number. */
  lemma TouchedExactly(before: map<string, Record>, after: map<string, Record>, guard: Guard, key: string)
    ensures Touches(DiffOf(before, after, guard), key) <==>
      || Needed(before, after, guard, key)
      || (key in before && key in after && exists field :: KeepsRefused(before[key], after[key], guard, field))
  {
    DiffExact(before, after, guard);
    var d := DiffOf(before, after, guard);
    if key in before && key in after {
      var changes := FieldChanges(before[key], after[key], guard);
      NoChangesIffEqual(before[key], after[key], guard);
      assert Touches(d, key) <==> changes != [] by {
        if changes != [] {
          assert RecordChange(key, changes) in d.changed;
        }
      }
      DiffersExactly(before[key], after[key], guard);
    } else if key in after {
      assert RecordRef(key, after[key]) in d.added;
    } else if key in before {
      assert RecordRef(key, before[key]) in d.removed;
    }
  }

  lemma DiffersExactly(a: Record, b: Record, guard: Guard)
    ensures (exists field :: Differs(field, a, b, guard)) <==>
      !Equivalent(a, b, guard) || exists field :: KeepsRefused(a, b, guard, field)
  {
    forall field
      ensures Differs(field, a, b, guard) <==>
        || !(Field(a, field) == Field(b, field) || ValuesEqual(Field(a, field), Field(b, field), guard))
        || KeepsRefused(a, b, guard, field)
    {
      ReflexiveWhereHashed(Field(b, field), guard);
    }
  }

  lemma {:induction false} AddElsewhere(m: map<string, Record>, refs: seq<RecordRef>, key: string)
    requires forall r :: r in refs ==> r.key != key
    ensures key in Add(m, refs) <==> key in m
    ensures key in m ==> Add(m, refs)[key] == m[key]
  {
    if refs != [] {
      assert refs[|refs| - 1] in refs;
      AddElsewhere(m, refs[..|refs| - 1], key);
    }
  }

  lemma {:induction false} ChangeElsewhere(m: map<string, Record>, changes: seq<RecordChange>, key: string)
    requires forall c :: c in changes ==> c.key != key
    ensures key in Change(m, changes) <==> key in m
    ensures key in m ==> Change(m, changes)[key] == m[key]
  {
    if changes != [] {
      assert changes[|changes| - 1] in changes;
      ChangeElsewhere(m, changes[..|changes| - 1], key);
    }
  }

  /** Any diff at all leaves alone the keys it does not touch. */
  lemma PatchElsewhere(m: map<string, Record>, d: Diff, key: string)
    requires !Touches(d, key)
    ensures key in Patch(m, d) <==> key in m
    ensures key in m ==> Patch(m, d)[key] == m[key]
  {
    RemoveAt(m, d.removed, key);
    ChangeElsewhere(Remove(m, d.removed), d.changed, key);
    AddElsewhere(Change(Remove(m, d.removed), d.changed), d.added, key);
  }

  /** No correct patch touches less: whichever diff turns the old index into the new one
      touches every key that this one does, refused numbers apart. */
  lemma DiffMinimal(before: map<string, Record>, after: map<string, Record>, guard: Guard, d: Diff, key: string)
    requires SameRecords(Patch(before, d), after, guard)
    requires Touches(DiffOf(before, after, guard), key)
    ensures
      || Touches(d, key)
      || (key in before && key in after && exists field :: KeepsRefused(before[key], after[key], guard, field))
  {
    TouchedExactly(before, after, guard, key);
    if !Touches(d, key) {
      PatchElsewhere(before, d, key);
    }
  }

  lemma {:induction false} ApplyElsewhere(record: Record, changes: seq<FieldChange>, field: string)
    requires forall c :: c in changes ==> c.field != field
    ensures Field(ApplyFields(record, changes), field) == Field(record, field)
  {
    if changes != [] {
      assert changes[|changes| - 1] in changes;
      ApplyElsewhere(record, changes[..|changes| - 1], field);
    }
  }

  /** The same within a record: whichever changes turn the old record into the new one
      name every field that the reported ones name. */
  lemma FieldChangesMinimal(a: Record, b: Record, guard: Guard, changes: seq<FieldChange>, reported: FieldChange)
    requires Equivalent(ApplyFields(a, changes), b, guard)
    requires reported in FieldChanges(a, b, guard)
    ensures (exists c :: c in changes && c.field == reported.field) || KeepsRefused(a, b, guard, reported.field)
  {
    FieldChangesExact(a, b, guard);
    if forall c :: c in changes ==> c.field != reported.field {
      ApplyElsewhere(a, changes, reported.field);
      ReflexiveWhereHashed(Field(b, reported.field), guard);
    }
  }

  // ----------------------------------------------------- swap, self, order

  function SwapChange(c: FieldChange): FieldChange {
    FieldChange(c.field, c.newValue, c.oldValue)
  }

  function SwapChanges(changes: seq<FieldChange>): seq<FieldChange> {
    seq(|changes|, i requires 0 <= i < |changes| => SwapChange(changes[i]))
  }

  function SwapRecords(changes: seq<RecordChange>): seq<RecordChange> {
    seq(|changes|, i requires 0 <= i < |changes| => RecordChange(changes[i].key, SwapChanges(changes[i].changes)))
  }

  function Swap(d: Diff): Diff {
    Diff(d.removed, d.added, SwapRecords(d.changed))
  }

  lemma SwapSnoc(changes: seq<FieldChange>, last: FieldChange)
    ensures SwapChanges(changes + [last]) == SwapChanges(changes) + [SwapChange(last)]
  {
  }

  lemma {:induction false} SwapChangesOver(fields: seq<string>, a: Record, b: Record, guard: Guard)
    ensures ChangesOver(fields, b, a, guard) == SwapChanges(ChangesOver(fields, a, b, guard))
  {
    if fields != [] {
      var front, last := fields[..|fields| - 1], fields[|fields| - 1];
      SwapChangesOver(front, a, b, guard);
      assert fields == front + [last];
      ChangesStep(front, last, a, b, guard);
      ChangesStep(front, last, b, a, guard);
      EqualitySymmetric(Field(a, last), Field(b, last), guard);
      SwapSnoc(ChangesOver(front, a, b, guard), FieldChange(last, Field(a, last), Field(b, last)));
    }
  }

  lemma SwapFieldChanges(a: Record, b: Record, guard: Guard)
    ensures FieldChanges(b, a, guard) == SwapChanges(FieldChanges(a, b, guard))
  {
    assert a.Keys + b.Keys == b.Keys + a.Keys;
    SwapChangesOver(Sorted(a.Keys + b.Keys), a, b, guard);
  }

  lemma SwapExtend(d: Diff, key: string, before: map<string, Record>, after: map<string, Record>, guard: Guard)
    ensures Extend(Swap(d), key, after, before, guard) == Swap(Extend(d, key, before, after, guard))
  {
    if key in before && key in after {
      SwapFieldChanges(before[key], after[key], guard);
      var c := RecordChange(key, FieldChanges(before[key], after[key], guard));
      assert SwapRecords(d.changed + [c]) == SwapRecords(d.changed) + [RecordChange(key, SwapChanges(c.changes))];
    }
  }

  lemma {:induction false} SwapDiffOver(keys: seq<string>, before: map<string, Record>, after: map<string, Record>, guard: Guard)
    ensures DiffOver(keys, after, before, guard) == Swap(DiffOver(keys, before, after, guard))
  {
    if keys != [] {
      var front, last := keys[..|keys| - 1], keys[|keys| - 1];
      SwapDiffOver(front, before, after, guard);
      SwapExtend(DiffOver(front, before, after, guard), last, before, after, guard);
    }
  }

  /** Comparing in the other direction mirrors the diff. */
  lemma DiffSwaps(before: map<string, Record>, after: map<string, Record>, guard: Guard)
    ensures DiffOf(after, before, guard) == Swap(DiffOf(before, after, guard))
  {
    assert after.Keys + before.Keys == before.Keys + after.Keys;
    SwapDiffOver(Sorted(before.Keys + after.Keys), before, after, guard);
  }

  lemma EmptyIffNoMember<T(!new)>(s: seq<T>)
    ensures s == [] <==> forall x :: x !in s
  {
    if s != [] {
      assert s[0] in s;
    }
  }

  /** Some key is only in the second index. */
  ghost predicate Gains(before: map<string, Record>, after: map<string, Record>) {
    exists key :: key in after && key !in before
  }

  /** Some common key has records that differ in a field. */
  ghost predicate Alters(before: map<string, Record>, after: map<string, Record>, guard: Guard) {
    exists key :: key in before && key in after && FieldChanges(before[key], after[key], guard) != []
  }

  lemma NothingAdded(before: map<string, Record>, after: map<string, Record>, guard: Guard)
    ensures var d := DiffOf(before, after, guard);
      && (d.added == [] <==> !Gains(before, after))
      && (d.removed == [] <==> !Gains(after, before))
      && (d.changed == [] <==> !Alters(before, after, guard))
  {
    var d := DiffOf(before, after, guard);
    DiffExact(before, after, guard);
    EmptyIffNoMember(d.added);
    EmptyIffNoMember(d.removed);
    EmptyIffNoMember(d.changed);
    if key :| key in after && key !in before {
      assert IsAdded(RecordRef(key, after[key]), before, after);
    }
    if key :| key in before && key !in after {
      assert IsAdded(RecordRef(key, before[key]), after, before);
    }
    if key :| key in before && key in after && FieldChanges(before[key], after[key], guard) != [] {
      assert IsChanged(RecordChange(key, FieldChanges(before[key], after[key], guard)), before, after, guard);
    }
  }

  /** The diff is empty exactly when both sides have the same keys and no record differs in a field. */
  lemma EmptyIffNothingDiffers(before: map<string, Record>, after: map<string, Record>, guard: Guard)
    ensures DiffOf(before, after, guard) == EMPTY <==>
      && before.Keys == after.Keys
      && forall key, field :: key in before && key in after ==> !Differs(field, before[key], after[key], guard)
  {
    NothingAdded(before, after, guard);
    forall key | key in before && key in after
      ensures FieldChanges(before[key], after[key], guard) == [] <==>
        forall field :: !Differs(field, before[key], after[key], guard)
    {
      NoChangesIffEqual(before[key], after[key], guard);
    }
    assert !Gains(before, after) && !Gains(after, before) <==> before.Keys == after.Keys;
  }

  /** A list compared with itself shows no drift exactly when its numbers pass the guard. */
  lemma SelfDiffEmpty(m: map<string, Record>, guard: Guard)
    ensures DiffOf(m, m, guard) == EMPTY <==> forall key :: key in m ==> Hashed(m[key], guard)
  {
    NothingAdded(m, m, guard);
    forall key | key in m
      ensures FieldChanges(m[key], m[key], guard) == [] <==> Hashed(m[key], guard)
    {
      UnchangedIffHashed(m[key], guard);
    }
  }

  /** Records as they are loaded: well-formed numbers that pass the guard. */
  ghost predicate AdmissibleRecord(record: Record, guard: Guard) {
    forall field :: field in record ==> Admissible(record[field], guard)
  }

  lemma NothingRefused(a: Record, b: Record, guard: Guard, field: string)
    requires AdmissibleRecord(b, guard)
    ensures !KeepsRefused(a, b, guard, field)
  {
    if field in b {
      AdmissibleHashed(b[field], guard);
    }
  }

  /** On what has been loaded, no correct patch touches less than the reported one. */
  lemma LoadedDiffMinimal(before: map<string, Record>, after: map<string, Record>, guard: Guard, d: Diff, key: string)
    requires key in after ==> AdmissibleRecord(after[key], guard)
    requires SameRecords(Patch(before, d), after, guard)
    requires Touches(DiffOf(before, after, guard), key)
    ensures Touches(d, key)
  {
    DiffMinimal(before, after, guard, d, key);
    if key in before && key in after {
      forall field ensures !KeepsRefused(before[key], after[key], guard, field) {
        NothingRefused(before[key], after[key], guard, field);
      }
    }
  }

  /** Comparing what has been loaded with itself is empty. */
  lemma LoadedSelfDiffEmpty(m: map<string, Record>, guard: Guard)
    requires forall key :: key in m ==> AdmissibleRecord(m[key], guard)
    ensures DiffOf(m, m, guard) == EMPTY
  {
    SelfDiffEmpty(m, guard);
    forall key, field | key in m && field in m[key] ensures HashValue(m[key][field], guard).Some? {
      AdmissibleHashed(m[key][field], guard);
    }
  }

  lemma TwiceInMultiset<T>(s: seq<T>, x: T) returns (i: nat, j: nat)
    requires multiset(s)[x] >= 2
    ensures i < j < |s| && s[i] == s[j] == x
  {
    i :| i < |s| && s[i] == x;
    assert s == s[..i] + [x] + s[i + 1..];
    var front, back := s[..i], s[i + 1..];
    assert multiset(s) == multiset(front) + multiset{x} + multiset(back);
    if x in back {
      var k :| 0 <= k < |back| && back[k] == x;
      j := i + 1 + k;
    } else {
      assert x in front;
      var k :| 0 <= k < |front| && front[k] == x;
      i, j := k, i;
    }
  }

  lemma PermutedIdentified(records: seq<Record>, permuted: seq<Record>, spec: Spec, host: Host)
    requires multiset(records) == multiset(permuted) && Identified(records, spec, host)
    ensures Identified(permuted, spec, host)
  {
    forall i | 0 <= i < |permuted|
      ensures HasIdentity(permuted[i], spec) && KeyOf(permuted[i], spec, host) != ""
    {
      assert permuted[i] in multiset(records);
    }
    forall i, j | 0 <= i < j < |permuted|
      ensures KeyOf(permuted[i], spec, host) != KeyOf(permuted[j], spec, host)
    {
      var x, y := permuted[i], permuted[j];
      if x == y {
        assert permuted == permuted[..i] + [x] + permuted[i + 1..j] + [x] + permuted[j + 1..];
        var _, _ := TwiceInMultiset(records, x);
      } else {
        assert x in multiset(records) && y in multiset(records);
      }
    }
  }

  /** The index does not depend on the order of the records. */
  lemma IndexOrderIrrelevant(records: seq<Record>, permuted: seq<Record>, spec: Spec, host: Host)
    requires multiset(records) == multiset(permuted)
    ensures IndexOf(records, spec, host).Keyed? <==> IndexOf(permuted, spec, host).Keyed?
    ensures IndexOf(records, spec, host).Keyed? ==>
      IndexOf(records, spec, host) == IndexOf(permuted, spec, host)
  {
    IndexedIffIdentified(records, spec, host);
    IndexedIffIdentified(permuted, spec, host);
    if Identified(records, spec, host) {
      PermutedIdentified(records, permuted, spec, host);
      var m, n := IndexOf(records, spec, host).records, IndexOf(permuted, spec, host).records;
      IndexContained(m, records, n, permuted, spec, host);
      IndexContained(n, permuted, m, records, spec, host);
      assert m == n;
    } else if Identified(permuted, spec, host) {
      PermutedIdentified(permuted, records, spec, host);
      assert false;
    }
  }

  lemma IndexContained(m: map<string, Record>, records: seq<Record>, n: map<string, Record>, permuted: seq<Record>, spec: Spec, host: Host)
    requires multiset(records) == multiset(permuted)
    requires Identified(records, spec, host) && Identified(permuted, spec, host)
    requires Indexes(m, records, spec, host) && Indexes(n, permuted, spec, host)
    ensures forall key :: key in m ==> key in n && n[key] == m[key]
  {
    forall key | key in m ensures key in n && n[key] == m[key] {
      var i :| 0 <= i < |records| && KeyOf(records[i], spec, host) == key;
      assert records[i] in multiset(permuted);
      var j :| 0 <= j < |permuted| && permuted[j] == records[i];
    }
  }

  /** Whether two lists compare, and the diff when they do, depends on neither list's order. */
  lemma ComparisonOrderIrrelevant(oldRecords: seq<Record>, newRecords: seq<Record>,
                                  oldPermuted: seq<Record>, newPermuted: seq<Record>, spec: Spec, host: Host)
    requires multiset(oldRecords) == multiset(oldPermuted) && multiset(newRecords) == multiset(newPermuted)
    ensures Comparison(oldRecords, newRecords, spec, host).Compared? <==> Comparison(oldPermuted, newPermuted, spec, host).Compared?
    ensures Comparison(oldRecords, newRecords, spec, host).Compared? ==>
      Comparison(oldRecords, newRecords, spec, host) == Comparison(oldPermuted, newPermuted, spec, host)
  {
    IndexOrderIrrelevant(oldRecords, oldPermuted, spec, host);
    IndexOrderIrrelevant(newRecords, newPermuted, spec, host);
  }

  // ------------------------------------------------------- record counts

  lemma ExtendCounts(d: Diff, key: string, before: map<string, Record>, after: map<string, Record>, guard: Guard)
    ensures var e := Extend(d, key, before, after, guard);
      |e.added| - |e.removed| == |d.added| - |d.removed| + (if key in after then 1 else 0) - (if key in before then 1 else 0)
  {
  }

  lemma {:induction false} DiffOverCounts(keys: seq<string>, before: map<string, Record>, after: map<string, Record>, guard: Guard)
    requires Increasing(keys)
    ensures var d := DiffOver(keys, before, after, guard);
      |d.added| - |d.removed| == |Elements(keys) * after.Keys| - |Elements(keys) * before.Keys|
  {
    if keys != [] {
      var front, last := keys[..|keys| - 1], keys[|keys| - 1];
      DiffOverCounts(front, before, after, guard);
      LastIsNew(keys);
      ExtendCounts(DiffOver(front, before, after, guard), last, before, after, guard);
      CountWith(Elements(front), last, after.Keys);
      CountWith(Elements(front), last, before.Keys);
    }
  }

  lemma CountWith(s: set<string>, x: string, t: set<string>)
    requires x !in s
    ensures |(s + {x}) * t| == |s * t| + if x in t then 1 else 0
  {
    assert (s + {x}) * t == s * t + if x in t then {x} else {};
  }

  /** Added minus removed is the growth in the number of records. */
  lemma KeyedCounts(oldRecords: seq<Record>, newRecords: seq<Record>, spec: Spec, host: Host)
    requires Comparison(oldRecords, newRecords, spec, host).Compared?
    ensures var d := Comparison(oldRecords, newRecords, spec, host).diff;
      |d.added| - |d.removed| == |newRecords| - |oldRecords|
  {
    IndexedIffIdentified(oldRecords, spec, host);
    IndexedIffIdentified(newRecords, spec, host);
    var before, after := IndexOf(oldRecords, spec, host).records, IndexOf(newRecords, spec, host).records;
    var keys := Sorted(before.Keys + after.Keys);
    DiffOverCounts(keys, before, after, host.guard);
    assert Elements(keys) * after.Keys == after.Keys && Elements(keys) * before.Keys == before.Keys;
    assert |after.Keys| == |after| && |before.Keys| == |before|;
  }
}
