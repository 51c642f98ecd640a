// The content-hash comparison of internal/diff/diff.go, for resources without an
// identity: records bucketed by the hash of their canonical form, and the proof
// that the reported records are the difference of the two multisets.
module HashDiff {
  import opened Options
  import opened JsonValues
  import opened SortedKeys
  import opened KeyedDiff
  import opened RawRecords

  /** SHA-256 of the marshalled canonical record, which no two records share. */
  type Digest = Json -> string

  ghost predicate Injective(digest: Digest) {
    forall a, b :: digest(a) == digest(b) ==> a == b
  }

  datatype HashRef = HashRef(hash: string, record: Record)

  /** recordHash; None is the error of a number that fails the guard. */
  function RecordHash(record: Record, guard: Guard, digest: Digest): Option<string> {
    var canonical := HashValue(Object(record), guard);
    if canonical.None? then None else Some(digest(canonical.value))
  }

  /** The records with their hashes, in order; None when one cannot be hashed. */
  function Rows(records: seq<Record>, spec: Spec, guard: Guard, digest: Digest): Option<seq<HashRef>> {
    if records == [] then Some([])
    else
      var earlier := Rows(records[..|records| - 1], spec, guard, digest);
      var filtered := Filtered(records[|records| - 1], spec.(ignoreOperational := true));
      var hash := RecordHash(filtered, guard, digest);
      if earlier.None? || hash.None? then None else Some(earlier.value + [HashRef(hash.value, filtered)])
  }

  function Bucket(rows: seq<HashRef>, hash: string): seq<Record> {
    if rows == [] then []
    else
      var last := rows[|rows| - 1];
      Bucket(rows[..|rows| - 1], hash) + if last.hash == hash then [last.record] else []
  }

  function Hashes(rows: seq<HashRef>): set<string> {
    set row | row in rows :: row.hash
  }

  /** buckets maps each hash to its records in input order. */
  predicate BucketsOf(buckets: map<string, seq<Record>>, rows: seq<HashRef>) {
    && buckets.Keys == Hashes(rows)
    && forall hash :: hash in buckets ==> buckets[hash] == Bucket(rows, hash)
  }

  lemma {:induction false} EmptyBucket(rows: seq<HashRef>, hash: string)
    ensures Bucket(rows, hash) == [] <==> hash !in Hashes(rows)
  {
    if rows != [] {
      EmptyBucket(rows[..|rows| - 1], hash);
      HashesSnoc(rows[..|rows| - 1], rows[|rows| - 1]);
      assert rows == rows[..|rows| - 1] + [rows[|rows| - 1]];
    }
  }

  lemma HashesSnoc(rows: seq<HashRef>, row: HashRef)
    ensures Hashes(rows + [row]) == Hashes(rows) + {row.hash}
  {
    assert row in rows + [row];
    assert forall r :: r in rows + [row] <==> r in rows || r == row;
  }

  lemma BucketsSnoc(buckets: map<string, seq<Record>>, rows: seq<HashRef>, row: HashRef)
    requires BucketsOf(buckets, rows)
    ensures BucketsOf(buckets[row.hash := (if row.hash in buckets then buckets[row.hash] else []) + [row.record]], rows + [row])
  {
    HashesSnoc(rows, row);
    EmptyBucket(rows, row.hash);
    assert (rows + [row])[..|rows|] == rows;
  }

  /** hashedRecords */
  method HashedRecords(records: seq<Record>, spec: Spec, guard: Guard, digest: Digest)
    returns (buckets: Option<map<string, seq<Record>>>)
    ensures buckets.Some? <==> Rows(records, spec, guard, digest).Some?
    ensures buckets.Some? ==> BucketsOf(buckets.value, Rows(records, spec, guard, digest).value)
  {
    var out: map<string, seq<Record>> := map[];
    for i := 0 to |records|
      invariant Rows(records[..i], spec, guard, digest).Some?
      invariant BucketsOf(out, Rows(records[..i], spec, guard, digest).value)
    {
      assert records[..i + 1][..i] == records[..i];
      var filtered := Filtered(records[i], spec.(ignoreOperational := true));
      var hash := RecordHash(filtered, guard, digest);
      if hash.None? {
        RowsStayFailed(records, i + 1, spec, guard, digest);
        return None;
      }
      BucketsSnoc(out, Rows(records[..i], spec, guard, digest).value, HashRef(hash.value, filtered));
      out := out[hash.value := (if hash.value in out then out[hash.value] else []) + [filtered]];
    }
    assert records[..|records|] == records;
    return Some(out);
  }

  lemma {:induction false} RowsStayFailed(records: seq<Record>, n: nat, spec: Spec, guard: Guard, digest: Digest)
    requires n <= |records| && Rows(records[..n], spec, guard, digest).None?
    ensures Rows(records, spec, guard, digest).None?
    decreases |records| - n
  {
    if n < |records| {
      assert records[..n + 1][..n] == records[..n];
      RowsStayFailed(records, n + 1, spec, guard, digest);
    } else {
      assert records[..n] == records;
    }
  }

  // ------------------------------------------------------------- surplus

  function Refs(hash: string, records: seq<Record>): seq<HashRef> {
    seq(|records|, i requires 0 <= i < |records| => HashRef(hash, records[i]))
  }

  /** The records of one hash that one side has beyond the number on the other. */
  function Surplus(hash: string, rows: seq<HashRef>, against: seq<HashRef>): seq<HashRef> {
    var mine, theirs := Bucket(rows, hash), Bucket(against, hash);
    if |mine| > |theirs| then Refs(hash, mine[|theirs|..]) else []
  }

  function SurplusOver(hashes: seq<string>, rows: seq<HashRef>, against: seq<HashRef>): seq<HashRef> {
    if hashes == [] then []
    else SurplusOver(hashes[..|hashes| - 1], rows, against) + Surplus(hashes[|hashes| - 1], rows, against)
  }

  function BucketIn(buckets: map<string, seq<Record>>, hash: string): seq<Record> {
    if hash in buckets then buckets[hash] else []
  }

  lemma BucketFound(buckets: map<string, seq<Record>>, rows: seq<HashRef>, hash: string)
    requires BucketsOf(buckets, rows)
    ensures BucketIn(buckets, hash) == Bucket(rows, hash)
  {
    EmptyBucket(rows, hash);
  }

  method AppendSurplus(out: seq<HashRef>, hash: string, mine: seq<Record>, from: nat) returns (longer: seq<HashRef>)
    requires from <= |mine|
    ensures longer == out + Refs(hash, mine[from..])
  {
    longer := out;
    for i := from to |mine|
      invariant longer == out + Refs(hash, mine[from..i])
    {
      assert Refs(hash, mine[from..i + 1]) == Refs(hash, mine[from..i]) + [HashRef(hash, mine[i])];
      longer := longer + [HashRef(hash, mine[i])];
    }
    assert mine[from..|mine|] == mine[from..];
  }

  method CompareBuckets(hashes: seq<string>, oldByHash: map<string, seq<Record>>, newByHash: map<string, seq<Record>>,
                        ghost oldRows: seq<HashRef>, ghost newRows: seq<HashRef>)
    returns (added: seq<HashRef>, removed: seq<HashRef>)
    requires BucketsOf(oldByHash, oldRows) && BucketsOf(newByHash, newRows)
    ensures added == SurplusOver(hashes, newRows, oldRows)
    ensures removed == SurplusOver(hashes, oldRows, newRows)
  {
    added, removed := [], [];
    for i := 0 to |hashes|
      invariant added == SurplusOver(hashes[..i], newRows, oldRows)
      invariant removed == SurplusOver(hashes[..i], oldRows, newRows)
    {
      assert hashes[..i + 1][..i] == hashes[..i];
      var hash := hashes[i];
      var oldBucket, newBucket := BucketIn(oldByHash, hash), BucketIn(newByHash, hash);
      BucketFound(oldByHash, oldRows, hash);
      BucketFound(newByHash, newRows, hash);
      if |oldBucket| > |newBucket| {
        removed := AppendSurplus(removed, hash, oldBucket, |newBucket|);
      } else if |newBucket| > |oldBucket| {
        added := AppendSurplus(added, hash, newBucket, |oldBucket|);
      }
    }
    assert hashes[..|hashes|] == hashes;
  }

  predicate ByHash(refs: seq<HashRef>) {
    forall i, j :: 0 <= i < j < |refs| ==> !Less(refs[j].hash, refs[i].hash)
  }

  /** sortRecordRefs: an unstable sort by hash. */
  method SortRefs(refs: seq<HashRef>) returns (sorted: seq<HashRef>)
    ensures multiset(sorted) == multiset(refs) && ByHash(sorted)
  {
    sorted := [];
    for i := 0 to |refs|
      invariant multiset(sorted) == multiset(refs[..i]) && ByHash(sorted)
    {
      sorted := InsertRef(refs[i], sorted);
      assert refs[..i + 1] == refs[..i] + [refs[i]];
    }
    assert refs[..|refs|] == refs;
  }

  /** Every hash of refs is at most, or at least, the given one. */
  predicate AllAtMost(refs: seq<HashRef>, hash: string) {
    forall k :: 0 <= k < |refs| ==> !Less(hash, refs[k].hash)
  }

  predicate AllAtLeast(refs: seq<HashRef>, hash: string) {
    forall k :: 0 <= k < |refs| ==> !Less(refs[k].hash, hash)
  }

  lemma ByHashInsert(front: seq<HashRef>, ref: HashRef, back: seq<HashRef>)
    requires ByHash(front + back) && AllAtMost(front, ref.hash) && AllAtLeast(back, ref.hash)
    ensures ByHash(front + [ref] + back)
  {
    var s, t := front + back, front + [ref] + back;
    forall i, j | 0 <= i < j < |t| ensures !Less(t[j].hash, t[i].hash) {
      if i != |front| && j != |front| {
        var i', j' := if i < |front| then i else i - 1, if j < |front| then j else j - 1;
        assert t[i] == s[i'] && t[j] == s[j'];
      }
    }
  }

  lemma OneMoreAtLeast(refs: seq<HashRef>, i: nat, hash: string)
    requires 0 < i <= |refs| && AllAtLeast(refs[i..], hash) && Less(hash, refs[i - 1].hash)
    ensures AllAtLeast(refs[i - 1..], hash)
  {
    LessIsStrictOrder(hash, refs[i - 1].hash, hash);
    var longer, shorter := refs[i - 1..], refs[i..];
    forall k | 0 <= k < |longer| ensures !Less(longer[k].hash, hash) {
      if k > 0 {
        assert longer[k] == shorter[k - 1];
      }
    }
  }

  lemma InsertedAt(ref: HashRef, refs: seq<HashRef>, i: nat)
    requires ByHash(refs) && i <= |refs| && AllAtMost(refs[..i], ref.hash) && AllAtLeast(refs[i..], ref.hash)
    ensures ByHash(refs[..i] + [ref] + refs[i..])
    ensures multiset(refs[..i] + [ref] + refs[i..]) == multiset(refs) + multiset{ref}
  {
    assert refs == refs[..i] + refs[i..];
    ByHashInsert(refs[..i], ref, refs[i..]);
  }

  method InsertRef(ref: HashRef, refs: seq<HashRef>) returns (longer: seq<HashRef>)
    requires ByHash(refs)
    ensures multiset(longer) == multiset(refs) + multiset{ref} && ByHash(longer)
  {
    var i := |refs|;
    while i > 0 && Less(ref.hash, refs[i - 1].hash)
      invariant 0 <= i <= |refs|
      invariant AllAtLeast(refs[i..], ref.hash)
    {
      OneMoreAtLeast(refs, i, ref.hash);
      i := i - 1;
    }
    FrontAtMost(refs, i, ref.hash);
    InsertedAt(ref, refs, i);
    longer := refs[..i] + [ref] + refs[i..];
  }

  lemma FrontAtMost(refs: seq<HashRef>, i: nat, hash: string)
    requires ByHash(refs) && i <= |refs| && (i > 0 ==> !Less(hash, refs[i - 1].hash))
    ensures AllAtMost(refs[..i], hash)
  {
    forall k | 0 <= k < i ensures !Less(hash, refs[k].hash) {
      NotLessTransitive(refs[k].hash, refs[i - 1].hash, hash);
    }
  }

  lemma NotLessTransitive(a: string, b: string, c: string)
    requires a == b || !Less(b, a)
    requires !Less(c, b)
    ensures !Less(c, a)
  {
    LessIsTotal(a, b);
    LessIsStrictOrder(c, a, b);
  }

  datatype Outcome = Compared(added: seq<HashRef>, removed: seq<HashRef>) | Unhashable

  /** added and removed are the two surpluses over all hashes, in hash order. */
  ghost predicate IsHashDiff(outcome: Outcome, oldRows: seq<HashRef>, newRows: seq<HashRef>) {
    var hashes := Sorted(Hashes(oldRows) + Hashes(newRows));
    && outcome.Compared?
    && ByHash(outcome.added) && ByHash(outcome.removed)
    && multiset(outcome.added) == multiset(SurplusOver(hashes, newRows, oldRows))
    && multiset(outcome.removed) == multiset(SurplusOver(hashes, oldRows, newRows))
  }

  /** compareContentHash */
  method CompareContentHash(oldRecords: seq<Record>, newRecords: seq<Record>, spec: Spec, guard: Guard, digest: Digest)
    returns (outcome: Outcome)
    ensures var oldRows := Rows(oldRecords, spec, guard, digest); var newRows := Rows(newRecords, spec, guard, digest);
      if oldRows.Some? && newRows.Some? then IsHashDiff(outcome, oldRows.value, newRows.value) else outcome.Unhashable?
  {
    var oldByHash := HashedRecords(oldRecords, spec, guard, digest);
    if oldByHash.None? {
      return Unhashable;
    }
    var newByHash := HashedRecords(newRecords, spec, guard, digest);
    if newByHash.None? {
      return Unhashable;
    }
    ghost var oldRows := Rows(oldRecords, spec, guard, digest).value;
    ghost var newRows := Rows(newRecords, spec, guard, digest).value;
    var all := oldByHash.value.Keys + newByHash.value.Keys;
    var hashes := Sort(all);
    ListUnique(hashes, Sorted(all), all);
    var added, removed := CompareBuckets(hashes, oldByHash.value, newByHash.value, oldRows, newRows);
    added := SortRefs(added);
    removed := SortRefs(removed);
    return Outcome.Compared(added, removed);
  }

  // ------------------------------------------------- multiset difference

  function CountHash(refs: seq<HashRef>, hash: string): nat {
    |Bucket(refs, hash)|
  }

  lemma {:induction false} BucketAppend(a: seq<HashRef>, b: seq<HashRef>, hash: string)
    ensures Bucket(a + b, hash) == Bucket(a, hash) + Bucket(b, hash)
    decreases |b|
  {
    if b == [] {
      assert a + b == a;
    } else {
      BucketAppend(a, b[..|b| - 1], hash);
      assert (a + b)[..|a + b| - 1] == a + b[..|b| - 1];
    }
  }

  lemma BucketSnoc(rows: seq<HashRef>, row: HashRef, hash: string)
    ensures Bucket(rows + [row], hash) == Bucket(rows, hash) + if row.hash == hash then [row.record] else []
  {
    assert (rows + [row])[..|rows|] == rows;
  }

  lemma RefsSnoc(hash: string, records: seq<Record>, record: Record)
    ensures Refs(hash, records + [record]) == Refs(hash, records) + [HashRef(hash, record)]
  {
  }

  lemma RefsJoin(hash: string, front: seq<Record>, last: Record, other: string)
    requires Bucket(Refs(hash, front), other) == if hash == other then front else []
    ensures Bucket(Refs(hash, front + [last]), other) == if hash == other then front + [last] else []
  {
    RefsSnoc(hash, front, last);
    BucketSnoc(Refs(hash, front), HashRef(hash, last), other);
  }

  lemma {:induction false} BucketOfRefs(hash: string, records: seq<Record>, other: string)
    ensures Bucket(Refs(hash, records), other) == if hash == other then records else []
    decreases |records|
  {
    if records != [] {
      var front, last := records[..|records| - 1], records[|records| - 1];
      BucketOfRefs(hash, front, other);
      RefsJoin(hash, front, last, other);
      assert front + [last] == records;
    }
  }

  /** Positive part. */
  function Excess(a: nat, b: nat): nat {
    if a > b then a - b else 0
  }

  lemma SurplusOfOne(last: string, rows: seq<HashRef>, against: seq<HashRef>, hash: string)
    ensures CountHash(Surplus(last, rows, against), hash)
         == if hash == last then Excess(CountHash(rows, hash), CountHash(against, hash)) else 0
  {
    var mine, theirs := Bucket(rows, last), Bucket(against, last);
    if |mine| > |theirs| {
      BucketOfRefs(last, mine[|theirs|..], hash);
    }
  }

  lemma {:induction false} SurplusCount(hashes: seq<string>, rows: seq<HashRef>, against: seq<HashRef>, hash: string)
    requires Increasing(hashes)
    ensures CountHash(SurplusOver(hashes, rows, against), hash)
         == if hash in hashes then Excess(CountHash(rows, hash), CountHash(against, hash)) else 0
    decreases |hashes|
  {
    if hashes != [] {
      var front, last := hashes[..|hashes| - 1], hashes[|hashes| - 1];
      SurplusCount(front, rows, against, hash);
      BucketAppend(SurplusOver(front, rows, against), Surplus(last, rows, against), hash);
      SurplusOfOne(last, rows, against, hash);
      LastIsNew(hashes);
      assert hash in hashes <==> hash in Elements(hashes);
      assert hash in front <==> hash in Elements(front);
    }
  }

  lemma {:induction false} CountByMultiplicity(refs: seq<HashRef>, sorted: seq<HashRef>, hash: string)
    requires multiset(refs) == multiset(sorted)
    ensures CountHash(refs, hash) == CountHash(sorted, hash)
    decreases |refs|
  {
    if refs == [] {
      assert multiset(sorted) == multiset{};
      assert sorted == [];
    } else {
      var last := refs[|refs| - 1];
      assert last in multiset(sorted);
      var i :| 0 <= i < |sorted| && sorted[i] == last;
      var without := sorted[..i] + sorted[i + 1..];
      assert sorted == sorted[..i] + [last] + sorted[i + 1..];
      assert refs == refs[..|refs| - 1] + [last];
      assert multiset(without) == multiset(sorted) - multiset{last};
      CountByMultiplicity(refs[..|refs| - 1], without, hash);
      BucketAppend(sorted[..i], sorted[i + 1..], hash);
      BucketAppend(sorted[..i] + [last], sorted[i + 1..], hash);
      BucketAppend(sorted[..i], [last], hash);
      BucketAppend(refs[..|refs| - 1], [last], hash);
    }
  }

  /** Per hash, the diff is the difference of the two multisets, and never both ways. */
  lemma MultisetDifference(outcome: Outcome, oldRows: seq<HashRef>, newRows: seq<HashRef>, hash: string)
    requires IsHashDiff(outcome, oldRows, newRows)
    ensures CountHash(outcome.added, hash) == Excess(CountHash(newRows, hash), CountHash(oldRows, hash))
    ensures CountHash(outcome.removed, hash) == Excess(CountHash(oldRows, hash), CountHash(newRows, hash))
    ensures CountHash(outcome.added, hash) == 0 || CountHash(outcome.removed, hash) == 0
  {
    var hashes := Sorted(Hashes(oldRows) + Hashes(newRows));
    CountByMultiplicity(outcome.added, SurplusOver(hashes, newRows, oldRows), hash);
    CountByMultiplicity(outcome.removed, SurplusOver(hashes, oldRows, newRows), hash);
    SurplusCount(hashes, newRows, oldRows, hash);
    SurplusCount(hashes, oldRows, newRows, hash);
    assert hash in hashes <==> hash in Elements(hashes);
    EmptyBucket(oldRows, hash);
    EmptyBucket(newRows, hash);
  }

  // --------------------------------------- buckets hold equal records only

  lemma {:induction false} RowsHash(records: seq<Record>, spec: Spec, guard: Guard, digest: Digest)
    requires Rows(records, spec, guard, digest).Some?
    ensures |Rows(records, spec, guard, digest).value| == |records|
    ensures forall i :: 0 <= i < |records| ==>
      var row := Rows(records, spec, guard, digest).value[i];
      row.record == Filtered(records[i], spec.(ignoreOperational := true))
      && Some(row.hash) == RecordHash(row.record, guard, digest)
    decreases |records|
  {
    if records != [] {
      RowsHash(records[..|records| - 1], spec, guard, digest);
    }
  }

  /** Two hashed records fall into one bucket exactly when they hold equal data. */
  lemma SameBucketIffEqual(a: Record, b: Record, guard: Guard, digest: Digest)
    requires Injective(digest)
    requires RecordHash(a, guard, digest).Some? && RecordHash(b, guard, digest).Some?
    ensures RecordHash(a, guard, digest) == RecordHash(b, guard, digest) <==> ValuesEqual(Object(a), Object(b), guard)
  {
    EqualIffSameHash(Object(a), Object(b), guard);
  }

  // ------------------------------------------- the data, without a digest

  function Contents(record: Record, spec: Spec): Json {
    Object(Filtered(record, spec.(ignoreOperational := true)))
  }

  /** Every field that is not operational can be hashed. */
  ghost predicate HashableRecord(raw: Record, spec: Spec, guard: Guard) {
    forall field :: field in raw && field !in spec.operational ==> HashValue(raw[field], guard).Some?
  }

  ghost predicate Hashable(records: seq<Record>, spec: Spec, guard: Guard) {
    forall r :: r in records ==> HashableRecord(r, spec, guard)
  }

  lemma ContentsHashable(raw: Record, spec: Spec, guard: Guard)
    ensures HashValue(Contents(raw, spec), guard).Some? <==> HashableRecord(raw, spec, guard)
  {
    var kept := Contents(raw, spec).fields;
    FilteredKeeps(raw, spec.(ignoreOperational := true));
    if HashableRecord(raw, spec, guard) {
      assert forall key :: key in kept ==> HashValue(kept[key], guard).Some?;
    }
    if HashValue(Contents(raw, spec), guard).Some? {
      forall field | field in raw && field !in spec.operational ensures HashValue(raw[field], guard).Some? {
        assert field in kept;
      }
    }
  }

  lemma {:induction false} RowsIffHashable(records: seq<Record>, spec: Spec, guard: Guard, digest: Digest)
    ensures Rows(records, spec, guard, digest).Some? <==> Hashable(records, spec, guard)
  {
    if records != [] {
      var front, last := records[..|records| - 1], records[|records| - 1];
      RowsIffHashable(front, spec, guard, digest);
      ContentsHashable(last, spec, guard);
      assert records == front + [last];
      assert Hashable(records, spec, guard) <==> Hashable(front, spec, guard) && HashableRecord(last, spec, guard);
    }
  }

  /** x holds exactly the fields of raw that are not operational, with equal data. */
  ghost predicate Agrees(raw: Record, x: Record, spec: Spec, guard: Guard) {
    && (forall field :: field in x <==> field in raw && field !in spec.operational)
    && (forall field :: field in x ==> ValuesEqual(raw[field], x[field], guard))
  }

  lemma AgreeingIsEqual(raw: Record, x: Record, spec: Spec, guard: Guard)
    requires Agrees(raw, x, spec, guard)
    ensures ValuesEqual(Contents(raw, spec), Object(x), guard)
  {
    var kept := Contents(raw, spec).fields;
    FilteredKeeps(raw, spec.(ignoreOperational := true));
    assert kept.Keys == x.Keys;
    SameKeysSameSize(kept, x);
  }

  lemma EqualAgrees(raw: Record, x: Record, spec: Spec, guard: Guard)
    requires ValuesEqual(Contents(raw, spec), Object(x), guard)
    ensures Agrees(raw, x, spec, guard)
  {
    var kept := Contents(raw, spec).fields;
    FilteredKeeps(raw, spec.(ignoreOperational := true));
    SameSizeSameKeys(kept, x);
    forall field ensures field in x <==> field in kept {
      assert field in x.Keys <==> field in kept.Keys;
    }
  }

  lemma AgreesIffEqual(raw: Record, x: Record, spec: Spec, guard: Guard)
    ensures Agrees(raw, x, spec, guard) <==> ValuesEqual(Contents(raw, spec), Object(x), guard)
  {
    if Agrees(raw, x, spec, guard) {
      AgreeingIsEqual(raw, x, spec, guard);
    }
    if ValuesEqual(Contents(raw, spec), Object(x), guard) {
      EqualAgrees(raw, x, spec, guard);
    }
  }

  /** How many of the records, as loaded, hold the data x besides operational fields. */
  ghost function CountEqual(records: seq<Record>, spec: Spec, x: Record, guard: Guard): nat {
    if records == [] then 0
    else
      CountEqual(records[..|records| - 1], spec, x, guard)
      + if Agrees(records[|records| - 1], x, spec, guard) then 1 else 0
  }

  /** Whatever the data, both sides hold it equally often. */
  ghost predicate SameContents(oldRecords: seq<Record>, newRecords: seq<Record>, spec: Spec, guard: Guard) {
    forall x: Record :: CountEqual(oldRecords, spec, x, guard) == CountEqual(newRecords, spec, x, guard)
  }

  lemma {:induction false} CountEqualIsCountHash(records: seq<Record>, spec: Spec, x: Record, guard: Guard, digest: Digest)
    requires Injective(digest) && Rows(records, spec, guard, digest).Some? && RecordHash(x, guard, digest).Some?
    ensures CountEqual(records, spec, x, guard)
         == CountHash(Rows(records, spec, guard, digest).value, RecordHash(x, guard, digest).value)
  {
    if records != [] {
      var front, last := records[..|records| - 1], Filtered(records[|records| - 1], spec.(ignoreOperational := true));
      CountEqualIsCountHash(front, spec, x, guard, digest);
      AgreesIffEqual(records[|records| - 1], x, spec, guard);
      SameBucketIffEqual(last, x, guard, digest);
      var earlier, row := Rows(front, spec, guard, digest).value, HashRef(RecordHash(last, guard, digest).value, last);
      assert Rows(records, spec, guard, digest).value == earlier + [row];
      assert (earlier + [row])[..|earlier|] == earlier;
    }
  }

  lemma {:induction false} NothingEqualsUnhashable(records: seq<Record>, spec: Spec, x: Record, guard: Guard)
    requires HashValue(Object(x), guard).None?
    ensures CountEqual(records, spec, x, guard) == 0
  {
    if records != [] {
      NothingEqualsUnhashable(records[..|records| - 1], spec, x, guard);
      AgreesIffEqual(records[|records| - 1], x, spec, guard);
      EqualIffSameHash(Contents(records[|records| - 1], spec), Object(x), guard);
    }
  }

  lemma SameCountsOfHash(oldRecords: seq<Record>, newRecords: seq<Record>, spec: Spec, guard: Guard, digest: Digest, hash: string)
    requires Injective(digest) && SameContents(oldRecords, newRecords, spec, guard)
    requires Rows(oldRecords, spec, guard, digest).Some? && Rows(newRecords, spec, guard, digest).Some?
    ensures CountHash(Rows(oldRecords, spec, guard, digest).value, hash)
         == CountHash(Rows(newRecords, spec, guard, digest).value, hash)
  {
    var oldRows, newRows := Rows(oldRecords, spec, guard, digest).value, Rows(newRecords, spec, guard, digest).value;
    EmptyBucket(oldRows, hash);
    EmptyBucket(newRows, hash);
    if hash in Hashes(oldRows) + Hashes(newRows) {
      var x := RecordOfHash(if hash in Hashes(oldRows) then oldRecords else newRecords, spec, guard, digest, hash);
      CountEqualIsCountHash(oldRecords, spec, x, guard, digest);
      CountEqualIsCountHash(newRecords, spec, x, guard, digest);
      assert CountEqual(oldRecords, spec, x, guard) == CountEqual(newRecords, spec, x, guard);
    }
  }

  lemma RecordOfHash(records: seq<Record>, spec: Spec, guard: Guard, digest: Digest, hash: string) returns (x: Record)
    requires Rows(records, spec, guard, digest).Some? && hash in Hashes(Rows(records, spec, guard, digest).value)
    ensures RecordHash(x, guard, digest) == Some(hash)
  {
    RowsHash(records, spec, guard, digest);
    var rows := Rows(records, spec, guard, digest).value;
    var row :| row in rows && row.hash == hash;
    x := row.record;
  }

  /** Equal counts of every hash are equal counts of all data, and no hash is left in
      what that says. */
  lemma SameContentsIffSameCounts(oldRecords: seq<Record>, newRecords: seq<Record>, spec: Spec, guard: Guard, digest: Digest)
    requires Injective(digest)
    requires Rows(oldRecords, spec, guard, digest).Some? && Rows(newRecords, spec, guard, digest).Some?
    ensures SameContents(oldRecords, newRecords, spec, guard) <==>
      forall hash ::
        CountHash(Rows(oldRecords, spec, guard, digest).value, hash)
        == CountHash(Rows(newRecords, spec, guard, digest).value, hash)
  {
    var oldRows, newRows := Rows(oldRecords, spec, guard, digest).value, Rows(newRecords, spec, guard, digest).value;
    if SameContents(oldRecords, newRecords, spec, guard) {
      forall hash ensures CountHash(oldRows, hash) == CountHash(newRows, hash) {
        SameCountsOfHash(oldRecords, newRecords, spec, guard, digest, hash);
      }
    }
    if forall hash :: CountHash(oldRows, hash) == CountHash(newRows, hash) {
      forall x: Record ensures CountEqual(oldRecords, spec, x, guard) == CountEqual(newRecords, spec, x, guard) {
        if HashValue(Object(x), guard).None? {
          NothingEqualsUnhashable(oldRecords, spec, x, guard);
          NothingEqualsUnhashable(newRecords, spec, x, guard);
        } else {
          CountEqualIsCountHash(oldRecords, spec, x, guard, digest);
          CountEqualIsCountHash(newRecords, spec, x, guard, digest);
        }
      }
    }
  }

  // ------------------------------------------------ what the lists hold

  /** How many of the listed records are x. */
  function CountListed(refs: seq<HashRef>, x: Record, guard: Guard): nat {
    if refs == [] then 0
    else
      CountListed(refs[..|refs| - 1], x, guard)
      + if ValuesEqual(Object(refs[|refs| - 1].record), Object(x), guard) then 1 else 0
  }

  predicate HashesOwn(refs: seq<HashRef>, guard: Guard, digest: Digest) {
    forall r :: r in refs ==> RecordHash(r.record, guard, digest) == Some(r.hash)
  }

  lemma {:induction false} CountListedIsCountHash(refs: seq<HashRef>, x: Record, guard: Guard, digest: Digest)
    requires Injective(digest) && HashesOwn(refs, guard, digest) && RecordHash(x, guard, digest).Some?
    ensures CountListed(refs, x, guard) == CountHash(refs, RecordHash(x, guard, digest).value)
  {
    if refs != [] {
      var front, last := refs[..|refs| - 1], refs[|refs| - 1];
      assert last in refs && forall r :: r in front ==> r in refs;
      CountListedIsCountHash(front, x, guard, digest);
      SameBucketIffEqual(last.record, x, guard, digest);
    }
  }

  lemma {:induction false} NothingListedUnhashable(refs: seq<HashRef>, x: Record, guard: Guard)
    requires HashValue(Object(x), guard).None?
    ensures CountListed(refs, x, guard) == 0
  {
    if refs != [] {
      NothingListedUnhashable(refs[..|refs| - 1], x, guard);
      EqualIffSameHash(Object(refs[|refs| - 1].record), Object(x), guard);
    }
  }

  lemma {:induction false} BucketFromRows(rows: seq<HashRef>, hash: string, record: Record)
    requires record in Bucket(rows, hash)
    ensures HashRef(hash, record) in rows
  {
    var front, last := rows[..|rows| - 1], rows[|rows| - 1];
    if record in Bucket(front, hash) {
      BucketFromRows(front, hash, record);
    } else {
      assert last == HashRef(hash, record);
    }
  }

  lemma {:induction false} SurplusFromRows(hashes: seq<string>, rows: seq<HashRef>, against: seq<HashRef>, ref: HashRef)
    requires ref in SurplusOver(hashes, rows, against)
    ensures ref in rows
  {
    var front, last := hashes[..|hashes| - 1], hashes[|hashes| - 1];
    if ref in SurplusOver(front, rows, against) {
      SurplusFromRows(front, rows, against, ref);
    } else {
      assert ref in Surplus(last, rows, against);
      BucketFromRows(rows, last, ref.record);
    }
  }

  lemma ListedFromRows(outcome: Outcome, oldRows: seq<HashRef>, newRows: seq<HashRef>, ref: HashRef)
    requires IsHashDiff(outcome, oldRows, newRows)
    ensures ref in outcome.added ==> ref in newRows
    ensures ref in outcome.removed ==> ref in oldRows
  {
    var hashes := Sorted(Hashes(oldRows) + Hashes(newRows));
    if ref in outcome.added {
      assert ref in multiset(outcome.added);
      SurplusFromRows(hashes, newRows, oldRows, ref);
    }
    if ref in outcome.removed {
      assert ref in multiset(outcome.removed);
      SurplusFromRows(hashes, oldRows, newRows, ref);
    }
  }

  lemma RowsHashOwn(records: seq<Record>, spec: Spec, guard: Guard, digest: Digest)
    requires Rows(records, spec, guard, digest).Some?
    ensures HashesOwn(Rows(records, spec, guard, digest).value, guard, digest)
    ensures forall r :: r in Rows(records, spec, guard, digest).value ==>
      exists raw :: raw in records && Keeps(r.record, raw, spec.operational)
  {
    RowsHash(records, spec, guard, digest);
    var rows := Rows(records, spec, guard, digest).value;
    forall r | r in rows
      ensures RecordHash(r.record, guard, digest) == Some(r.hash)
      ensures exists raw :: raw in records && Keeps(r.record, raw, spec.operational)
    {
      var i :| 0 <= i < |rows| && rows[i] == r;
      FilteredKeeps(records[i], spec.(ignoreOperational := true));
      assert records[i] in records;
    }
  }

  /** The comparison said of the records as loaded: of any data x, as many records are
      listed as added as the new side has more of it than the old, and conversely; and
      what is listed are loaded records without their operational fields. */
  lemma ContentDiffExactly(outcome: Outcome, oldRecords: seq<Record>, newRecords: seq<Record>,
                           spec: Spec, guard: Guard, digest: Digest, x: Record)
    requires Injective(digest)
    requires Rows(oldRecords, spec, guard, digest).Some? && Rows(newRecords, spec, guard, digest).Some?
    requires IsHashDiff(outcome, Rows(oldRecords, spec, guard, digest).value, Rows(newRecords, spec, guard, digest).value)
    ensures CountListed(outcome.added, x, guard)
         == Excess(CountEqual(newRecords, spec, x, guard), CountEqual(oldRecords, spec, x, guard))
    ensures CountListed(outcome.removed, x, guard)
         == Excess(CountEqual(oldRecords, spec, x, guard), CountEqual(newRecords, spec, x, guard))
    ensures forall r :: r in outcome.added ==> exists raw :: raw in newRecords && Keeps(r.record, raw, spec.operational)
    ensures forall r :: r in outcome.removed ==> exists raw :: raw in oldRecords && Keeps(r.record, raw, spec.operational)
  {
    var oldRows, newRows := Rows(oldRecords, spec, guard, digest).value, Rows(newRecords, spec, guard, digest).value;
    RowsHashOwn(oldRecords, spec, guard, digest);
    RowsHashOwn(newRecords, spec, guard, digest);
    forall r: HashRef ensures (r in outcome.added ==> r in newRows) && (r in outcome.removed ==> r in oldRows) {
      ListedFromRows(outcome, oldRows, newRows, r);
    }
    if HashValue(Object(x), guard).None? {
      NothingListedUnhashable(outcome.added, x, guard);
      NothingListedUnhashable(outcome.removed, x, guard);
      NothingEqualsUnhashable(oldRecords, spec, x, guard);
      NothingEqualsUnhashable(newRecords, spec, x, guard);
    } else {
      CountListedIsCountHash(outcome.added, x, guard, digest);
      CountListedIsCountHash(outcome.removed, x, guard, digest);
      CountEqualIsCountHash(oldRecords, spec, x, guard, digest);
      CountEqualIsCountHash(newRecords, spec, x, guard, digest);
      MultisetDifference(outcome, oldRows, newRows, RecordHash(x, guard, digest).value);
    }
  }

  // -------------------------------------------------------- record counts

  function TotalOver(hashes: seq<string>, rows: seq<HashRef>): nat {
    if hashes == [] then 0
    else TotalOver(hashes[..|hashes| - 1], rows) + CountHash(rows, hashes[|hashes| - 1])
  }

  lemma {:induction false} TotalSnoc(hashes: seq<string>, rows: seq<HashRef>, row: HashRef)
    requires Increasing(hashes)
    ensures TotalOver(hashes, rows + [row]) == TotalOver(hashes, rows) + if row.hash in hashes then 1 else 0
    decreases |hashes|
  {
    if hashes != [] {
      var front, last := hashes[..|hashes| - 1], hashes[|hashes| - 1];
      TotalSnoc(front, rows, row);
      assert (rows + [row])[..|rows|] == rows;
      assert hashes == front + [last];
      LessIsStrictOrder(last, [], []);
    }
  }

  lemma {:induction false} TotalIsLength(hashes: seq<string>, rows: seq<HashRef>)
    requires Increasing(hashes) && forall row :: row in rows ==> row.hash in hashes
    ensures TotalOver(hashes, rows) == |rows|
    decreases |rows|
  {
    if rows == [] {
      TotalOfNothing(hashes);
    } else {
      var front, last := rows[..|rows| - 1], rows[|rows| - 1];
      assert rows == front + [last];
      TotalIsLength(hashes, front);
      TotalSnoc(hashes, front, last);
    }
  }

  lemma {:induction false} TotalOfNothing(hashes: seq<string>)
    ensures TotalOver(hashes, []) == 0
  {
    if hashes != [] {
      TotalOfNothing(hashes[..|hashes| - 1]);
    }
  }

  lemma {:induction false} SurplusLengths(hashes: seq<string>, a: seq<HashRef>, b: seq<HashRef>)
    ensures |SurplusOver(hashes, a, b)| - |SurplusOver(hashes, b, a)| == TotalOver(hashes, a) - TotalOver(hashes, b)
  {
    if hashes != [] {
      SurplusLengths(hashes[..|hashes| - 1], a, b);
    }
  }

  /** Added minus removed is the growth in the number of records. */
  lemma HashCounts(outcome: Outcome, oldRows: seq<HashRef>, newRows: seq<HashRef>)
    requires IsHashDiff(outcome, oldRows, newRows)
    ensures |outcome.added| - |outcome.removed| == |newRows| - |oldRows|
  {
    var hashes := Sorted(Hashes(oldRows) + Hashes(newRows));
    SurplusLengths(hashes, newRows, oldRows);
    forall row | row in oldRows || row in newRows ensures row.hash in hashes {
      assert row.hash in Hashes(oldRows) + Hashes(newRows);
      assert row.hash in Elements(hashes);
    }
    TotalIsLength(hashes, newRows);
    TotalIsLength(hashes, oldRows);
    assert |multiset(outcome.added)| == |outcome.added|;
    assert |multiset(outcome.removed)| == |outcome.removed|;
  }

  lemma EmptyIffNoCount(refs: seq<HashRef>)
    ensures refs == [] <==> forall hash :: CountHash(refs, hash) == 0
  {
    if refs != [] {
      EmptyBucket(refs, refs[0].hash);
      assert refs[0] in refs;
      assert CountHash(refs, refs[0].hash) != 0;
    }
  }

  /** Nothing is reported exactly when both sides hold each record equally often. */
  lemma NoHashDriftIffSameCounts(outcome: Outcome, oldRows: seq<HashRef>, newRows: seq<HashRef>)
    requires IsHashDiff(outcome, oldRows, newRows)
    ensures outcome.added == [] && outcome.removed == [] <==>
      forall hash :: CountHash(oldRows, hash) == CountHash(newRows, hash)
  {
    forall hash
      ensures CountHash(outcome.added, hash) == Excess(CountHash(newRows, hash), CountHash(oldRows, hash))
      ensures CountHash(outcome.removed, hash) == Excess(CountHash(oldRows, hash), CountHash(newRows, hash))
    {
      MultisetDifference(outcome, oldRows, newRows, hash);
    }
    EmptyIffNoCount(outcome.added);
    EmptyIffNoCount(outcome.removed);
  }
}
