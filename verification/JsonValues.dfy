// JSON trees as the diff sees them (internal/diff/diff.go): the equality that
// decides drift, the canonical form that is hashed, and the proof that the two
// agree on every tree and mean equality of the data the trees denote.
module JsonValues {
  import opened Options
  import opened CanonicalNumber

  /** A tree decoded with UseNumber: a number keeps its lexeme. */
  datatype Json =
    | Null
    | Bool(value: bool)
    | Number(lexeme: string)
    | String(text: string)
    | Array(items: seq<Json>)
    | Object(fields: map<string, Json>)

  type Guard = string -> bool

  /** jsonValuesEqual */
  predicate ValuesEqual(left: Json, right: Json, guard: Guard)
  {
    if left.Number? || right.Number? then
      && left.Number? && right.Number?
      && Canonical(left.lexeme, guard).Some?
      && Canonical(left.lexeme, guard) == Canonical(right.lexeme, guard)
    else
      match left
      case Object(l) =>
        && right.Object?
        && |l| == |right.fields|
        && forall key | key in l :: key in right.fields && ValuesEqual(l[key], right.fields[key], guard)
      case Array(l) =>
        && right.Array?
        && |l| == |right.items|
        && forall i | 0 <= i < |l| :: ValuesEqual(l[i], right.items[i], guard)
      case _ => left == right
  }

  /** canonicalHashValue; None is its error. */
  function HashValue(value: Json, guard: Guard): Option<Json>
  {
    match value
    case Number(lexeme) =>
      var canonical := Canonical(lexeme, guard);
      if canonical.None? then None else Some(Number(canonical.value))
    case Object(fields) =>
      if forall key | key in fields :: HashValue(fields[key], guard).Some?
      then Some(Object(map key | key in fields :: HashValue(fields[key], guard).value))
      else None
    case Array(items) =>
      if forall i | 0 <= i < |items| :: HashValue(items[i], guard).Some?
      then Some(Array(seq(|items|, i requires 0 <= i < |items| => HashValue(items[i], guard).value)))
      else None
    case _ => Some(value)
  }

  lemma SubsetOfSameSize<T>(a: set<T>, b: set<T>)
    requires a <= b && |a| == |b|
    ensures a == b
  {
    assert |b - a| == 0;
    assert b == a + (b - a);
  }

  lemma SameSizeSameKeys(l: map<string, Json>, r: map<string, Json>)
    requires |l| == |r| && forall key | key in l :: key in r
    ensures l.Keys == r.Keys
  {
    SubsetOfSameSize(l.Keys, r.Keys);
  }

  lemma SameKeysSameSize(l: map<string, Json>, r: map<string, Json>)
    requires l.Keys == r.Keys
    ensures |l| == |r|
  {
    assert |l.Keys| == |r.Keys|;
  }

  lemma {:induction false} HashOfObject(fields: map<string, Json>, guard: Guard)
    requires HashValue(Object(fields), guard).Some?
    ensures HashValue(Object(fields), guard).value.Object?
    ensures HashValue(Object(fields), guard).value.fields.Keys == fields.Keys
    ensures forall key | key in fields ::
      HashValue(fields[key], guard) == Some(HashValue(Object(fields), guard).value.fields[key])
  {
  }

  lemma {:induction false} EqualObjectsSameHash(l: map<string, Json>, r: map<string, Json>, guard: Guard)
    requires l.Keys == r.Keys
    requires forall key | key in l :: HashValue(l[key], guard).Some? && HashValue(l[key], guard) == HashValue(r[key], guard)
    ensures HashValue(Object(l), guard).Some? && HashValue(Object(l), guard) == HashValue(Object(r), guard)
  {
    assert forall key | key in r :: key in l.Keys;
    HashOfObject(l, guard);
    HashOfObject(r, guard);
    assert HashValue(Object(l), guard).value.fields == HashValue(Object(r), guard).value.fields;
  }

  lemma {:induction false} ObjectsEqualIffSameHash(l: map<string, Json>, r: map<string, Json>, guard: Guard)
    requires forall key | key in l && key in r ::
      ValuesEqual(l[key], r[key], guard) <==> HashValue(l[key], guard).Some? && HashValue(l[key], guard) == HashValue(r[key], guard)
    ensures ValuesEqual(Object(l), Object(r), guard)
       <==> HashValue(Object(l), guard).Some? && HashValue(Object(l), guard) == HashValue(Object(r), guard)
  {
    if ValuesEqual(Object(l), Object(r), guard) {
      SameSizeSameKeys(l, r);
      EqualObjectsSameHash(l, r, guard);
    }
    if HashValue(Object(l), guard).Some? && HashValue(Object(l), guard) == HashValue(Object(r), guard) {
      HashOfObject(l, guard);
      HashOfObject(r, guard);
      SameKeysSameSize(l, r);
      forall key | key in l ensures key in r && ValuesEqual(l[key], r[key], guard) {
        assert key in r.Keys;
      }
    }
  }

  lemma {:induction false} ArraysEqualIffSameHash(l: seq<Json>, r: seq<Json>, guard: Guard)
    requires forall i | 0 <= i < |l| && i < |r| ::
      ValuesEqual(l[i], r[i], guard) <==> HashValue(l[i], guard).Some? && HashValue(l[i], guard) == HashValue(r[i], guard)
    ensures ValuesEqual(Array(l), Array(r), guard)
       <==> HashValue(Array(l), guard).Some? && HashValue(Array(l), guard) == HashValue(Array(r), guard)
  {
    if ValuesEqual(Array(l), Array(r), guard) {
      assert HashValue(Array(l), guard).value.items == HashValue(Array(r), guard).value.items;
    }
    if HashValue(Array(l), guard).Some? && HashValue(Array(l), guard) == HashValue(Array(r), guard) {
      var hl, hr := HashValue(Array(l), guard).value.items, HashValue(Array(r), guard).value.items;
      assert |hl| == |l| && |hr| == |r|;
      forall i | 0 <= i < |l| ensures ValuesEqual(l[i], r[i], guard) {
        assert hl[i] == hr[i];
      }
    }
  }

  lemma {:induction false} HashOfNumber(lexeme: string, guard: Guard)
    ensures HashValue(Number(lexeme), guard)
         == if Canonical(lexeme, guard).None? then None else Some(Number(Canonical(lexeme, guard).value))
  {
  }

  lemma {:induction false} EqualNumbers(l: string, r: string, guard: Guard)
    ensures ValuesEqual(Number(l), Number(r), guard)
       <==> Canonical(l, guard).Some? && Canonical(l, guard) == Canonical(r, guard)
  {
  }

  lemma {:induction false} NumbersEqualIffSameHash(l: string, r: string, guard: Guard)
    ensures ValuesEqual(Number(l), Number(r), guard)
       <==> HashValue(Number(l), guard).Some? && HashValue(Number(l), guard) == HashValue(Number(r), guard)
  {
    HashOfNumber(l, guard);
    HashOfNumber(r, guard);
    EqualNumbers(l, r, guard);
  }

  /** Hashing keeps the constructor. */
  predicate SameShape(left: Json, right: Json) {
    match left
    case Null => right.Null?
    case Bool(_) => right.Bool?
    case Number(_) => right.Number?
    case String(_) => right.String?
    case Array(_) => right.Array?
    case Object(_) => right.Object?
  }

  lemma {:induction false} HashKeepsShape(value: Json, guard: Guard)
    requires HashValue(value, guard).Some?
    ensures SameShape(value, HashValue(value, guard).value)
  {
  }

  lemma {:induction false} UnlikeNeverEqual(left: Json, right: Json, guard: Guard)
    requires !SameShape(left, right)
    ensures !ValuesEqual(left, right, guard)
    ensures HashValue(left, guard).Some? ==> HashValue(left, guard) != HashValue(right, guard)
  {
    if HashValue(left, guard).Some? && HashValue(right, guard).Some? {
      HashKeepsShape(left, guard);
      HashKeepsShape(right, guard);
    }
  }

  /** Equality and hash bucketing never disagree, on any two trees. */
  lemma {:induction false} EqualIffSameHash(left: Json, right: Json, guard: Guard)
    ensures ValuesEqual(left, right, guard)
       <==> HashValue(left, guard).Some? && HashValue(left, guard) == HashValue(right, guard)
  {
    if !SameShape(left, right) {
      UnlikeNeverEqual(left, right, guard);
    } else if left.Object? {
      var l, r := left.fields, right.fields;
      forall key | key in l && key in r
        ensures ValuesEqual(l[key], r[key], guard)
           <==> HashValue(l[key], guard).Some? && HashValue(l[key], guard) == HashValue(r[key], guard)
      {
        EqualIffSameHash(l[key], r[key], guard);
      }
      ObjectsEqualIffSameHash(l, r, guard);
    } else if left.Array? {
      var l, r := left.items, right.items;
      forall i | 0 <= i < |l| && i < |r|
        ensures ValuesEqual(l[i], r[i], guard)
           <==> HashValue(l[i], guard).Some? && HashValue(l[i], guard) == HashValue(r[i], guard)
      {
        EqualIffSameHash(l[i], r[i], guard);
      }
      ArraysEqualIffSameHash(l, r, guard);
    } else if left.Number? {
      NumbersEqualIffSameHash(left.lexeme, right.lexeme, guard);
    }
  }

  /** A tree equals itself exactly when every number in it passes the guard. */
  lemma {:induction false} ReflexiveWhereHashed(value: Json, guard: Guard)
    ensures ValuesEqual(value, value, guard) <==> HashValue(value, guard).Some?
  {
    EqualIffSameHash(value, value, guard);
  }

  lemma EqualitySymmetric(a: Json, b: Json, guard: Guard)
    ensures ValuesEqual(a, b, guard) <==> ValuesEqual(b, a, guard)
  {
    EqualIffSameHash(a, b, guard);
    EqualIffSameHash(b, a, guard);
  }

  lemma EqualityTransitive(a: Json, b: Json, c: Json, guard: Guard)
    requires ValuesEqual(a, b, guard) && ValuesEqual(b, c, guard)
    ensures ValuesEqual(a, c, guard)
  {
    EqualIffSameHash(a, b, guard);
    EqualIffSameHash(b, c, guard);
    EqualIffSameHash(a, c, guard);
  }

  // -------------------------------------------- equality means equal data

  ghost predicate Spells(lexeme: string, l: Lexeme) {
    l.WellFormed() && l.Text() == lexeme
  }

  /** A number the decoder delivers and the float64 range check admits. */
  ghost predicate AdmissibleNumber(lexeme: string, guard: Guard) {
    guard(lexeme) && exists l :: Spells(lexeme, l)
  }

  /** Every number of the tree is admissible. */
  ghost predicate Admissible(value: Json, guard: Guard)
  {
    match value
    case Number(lexeme) => AdmissibleNumber(lexeme, guard)
    case Object(fields) => forall key | key in fields :: Admissible(fields[key], guard)
    case Array(items) => forall i | 0 <= i < |items| :: Admissible(items[i], guard)
    case _ => true
  }

  ghost function NumberValue(lexeme: string): real
    requires exists l :: Spells(lexeme, l)
  {
    var l :| Spells(lexeme, l);
    l.Value()
  }

  lemma NumbersEqualIffSameValue(a: string, b: string, guard: Guard)
    requires AdmissibleNumber(a, guard) && AdmissibleNumber(b, guard)
    ensures Canonical(a, guard).Some? && Canonical(b, guard).Some?
    ensures Canonical(a, guard) == Canonical(b, guard) <==> NumberValue(a) == NumberValue(b)
  {
    var l :| Spells(a, l) && NumberValue(a) == l.Value();
    var k :| Spells(b, k) && NumberValue(b) == k.Value();
    CanonicalDecidesEquality(l, k, guard);
    AlgorithmNormalises(l, guard);
    AlgorithmNormalises(k, guard);
  }

  /** Same data: numbers as exact rationals, arrays in order, objects by field. */
  ghost predicate SameData(a: Json, b: Json, guard: Guard)
    requires Admissible(a, guard) && Admissible(b, guard)
    decreases a
  {
    match a
    case Number(lexeme) => b.Number? && NumberValue(lexeme) == NumberValue(b.lexeme)
    case Object(fields) =>
      b.Object? && fields.Keys == b.fields.Keys
      && forall key | key in fields :: SameData(fields[key], b.fields[key], guard)
    case Array(items) =>
      b.Array? && |items| == |b.items|
      && forall i | 0 <= i < |items| :: SameData(items[i], b.items[i], guard)
    case _ => a == b
  }

  lemma {:induction false} EqualIffSameData(a: Json, b: Json, guard: Guard)
    requires Admissible(a, guard) && Admissible(b, guard)
    ensures ValuesEqual(a, b, guard) <==> SameData(a, b, guard)
  {
    match a
    case Number(lexeme) =>
      if b.Number? {
        NumbersEqualIffSameValue(lexeme, b.lexeme, guard);
      }
    case Object(fields) =>
      if b.Object? {
        if |fields| == |b.fields| && forall key | key in fields :: key in b.fields {
          SameSizeSameKeys(fields, b.fields);
        }
        if fields.Keys == b.fields.Keys {
          SameKeysSameSize(fields, b.fields);
        }
        forall key | key in fields && key in b.fields
          ensures ValuesEqual(fields[key], b.fields[key], guard) <==> SameData(fields[key], b.fields[key], guard)
        {
          EqualIffSameData(fields[key], b.fields[key], guard);
        }
      }
    case Array(items) =>
      if b.Array? {
        forall i | 0 <= i < |items| && i < |b.items|
          ensures ValuesEqual(items[i], b.items[i], guard) <==> SameData(items[i], b.items[i], guard)
        {
          EqualIffSameData(items[i], b.items[i], guard);
        }
      }
    case _ =>
  }

  /** Every admissible tree has a hash, so equality is reflexive on them. */
  lemma {:induction false} AdmissibleHashed(value: Json, guard: Guard)
    requires Admissible(value, guard)
    ensures HashValue(value, guard).Some?
  {
    match value
    case Number(lexeme) =>
      NumbersEqualIffSameValue(lexeme, lexeme, guard);
    case Object(fields) =>
      forall key | key in fields ensures HashValue(fields[key], guard).Some? {
        AdmissibleHashed(fields[key], guard);
      }
    case Array(items) =>
      forall i | 0 <= i < |items| ensures HashValue(items[i], guard).Some? {
        AdmissibleHashed(items[i], guard);
      }
    case _ =>
  }
}
