// Counting the records of a resource payload from its JSON tokens, without decoding
// it: the depth counter and the one-record-at-a-time scan of internal/diff/diff.go,
// and the mutually recursive consumer of internal/dump/artifact.go, against decoding
// the payload and counting.
module TokenScan {
  import opened Options
  import opened JsonValues
  import opened Artifact

  // -------------------------------------------------------- tokens of a value

  /** json.Token: delimiters, and the scalars between them. */
  datatype Token = Open(braces: bool) | Close(braces: bool) | Word(text: string) | Num(lexeme: string) | Flag(value: bool) | Nil

  /** A JSON text: fields in order, keys possibly repeated. */
  datatype Tree =
    | Leaf(token: Token)
    | List(items: seq<Tree>)
    | Dict(fields: seq<Field>)

  datatype Field = Field(key: string, value: Tree)

  predicate IsScalar(t: Token) {
    !t.Open? && !t.Close?
  }

  predicate Ok(t: Tree) {
    match t
    case Leaf(token) => IsScalar(token)
    case List(items) => forall i :: i in items ==> Ok(i)
    case Dict(fields) => forall f :: f in fields ==> Ok(f.value)
  }

  function Tokens(t: Tree): seq<Token>
    decreases t, 0
  {
    match t
    case Leaf(token) => [token]
    case List(items) => [Open(false)] + (ItemTokens(items) + [Close(false)])
    case Dict(fields) => [Open(true)] + (FieldTokens(fields) + [Close(true)])
  }

  function ItemTokens(items: seq<Tree>): seq<Token>
    decreases items, 1
  {
    if items == [] then [] else Tokens(items[0]) + ItemTokens(items[1..])
  }

  function FieldTokens(fields: seq<Field>): seq<Token>
    decreases fields, 1
  {
    if fields == [] then [] else [Word(fields[0].key)] + (Tokens(fields[0].value) + FieldTokens(fields[1..]))
  }

  /** The value a text denotes: of a repeated key the last one counts. */
  function Denotes(t: Tree): Json
    requires Ok(t)
    decreases t, 0
  {
    match t
    case Leaf(Word(text)) => String(text)
    case Leaf(Num(lexeme)) => Number(lexeme)
    case Leaf(Flag(value)) => Bool(value)
    case Leaf(Nil) => Null
    case List(items) => Array(seq(|items|, i requires 0 <= i < |items| => Denotes(items[i])))
    case Dict(fields) => Object(FieldsDenote(fields))
  }

  function FieldsDenote(fields: seq<Field>): map<string, Json>
    requires forall f :: f in fields ==> Ok(f.value)
    decreases fields, 1
  {
    if fields == [] then map[]
    else
      var last := fields[|fields| - 1];
      FieldsDenote(fields[..|fields| - 1])[last.key := Denotes(last.value)]
  }

  // ---------------------------------------------------- decoding, the reference

  /** guard: the number is in range, for decoders that look. */
  predicate Accepted(t: Token, guard: string -> bool) {
    t.Num? ==> guard(t.lexeme)
  }

  predicate AllAccepted(s: seq<Token>, guard: string -> bool) {
    forall k :: k in s ==> Accepted(k, guard)
  }

  datatype Decoded<T> = Decoded(value: T, rest: seq<Token>)

  /** The first value of a stream of tokens and what follows it, for a decoder that
      looks at every number it reads. With UseNumber it looks at none. */
  function DecodeValue(s: seq<Token>, guard: string -> bool): (r: Option<Decoded<Tree>>)
    ensures r.Some? ==> |r.value.rest| < |s|
    decreases |s|, 0
  {
    if s == [] || !Accepted(s[0], guard) || s[0].Close? then None
    else if IsScalar(s[0]) then Some(Decoded(Leaf(s[0]), s[1..]))
    else if s[0].braces then
      match DecodeFields(s[1..], guard)
      case None => None
      case Some(d) => Some(Decoded(Dict(d.value), d.rest))
    else
      match DecodeItems(s[1..], guard)
      case None => None
      case Some(d) => Some(Decoded(List(d.value), d.rest))
  }

  /** The items up to the closing bracket. */
  function DecodeItems(s: seq<Token>, guard: string -> bool): (r: Option<Decoded<seq<Tree>>>)
    ensures r.Some? ==> |r.value.rest| < |s|
    decreases |s|, 1
  {
    if s == [] then None
    else if s[0].Close? then if s[0].braces then None else Some(Decoded([], s[1..]))
    else
      match DecodeValue(s, guard)
      case None => None
      case Some(first) =>
        match DecodeItems(first.rest, guard)
        case None => None
        case Some(later) => Some(Decoded([first.value] + later.value, later.rest))
  }

  /** The fields up to the closing brace. */
  function DecodeFields(s: seq<Token>, guard: string -> bool): (r: Option<Decoded<seq<Field>>>)
    ensures r.Some? ==> |r.value.rest| < |s|
    decreases |s|, 1
  {
    if s == [] then None
    else if s[0].Close? then if s[0].braces then Some(Decoded([], s[1..])) else None
    else if !s[0].Word? then None
    else
      match DecodeValue(s[1..], guard)
      case None => None
      case Some(first) =>
        match DecodeFields(first.rest, guard)
        case None => None
        case Some(later) => Some(Decoded([Field(s[0].text, first.value)] + later.value, later.rest))
  }

  /** Decode a whole stream, then count its records. */
  function DecodeThenCount(s: seq<Token>, guard: string -> bool): Option<nat> {
    match DecodeValue(s, guard)
    case None => None
    case Some(d) => if d.rest != [] then None else CountOf(d.value)
  }

  /** The records of a payload: one for an object, the items of an array of objects. */
  function CountOf(t: Tree): Option<nat> {
    match t
    case Leaf(_) => None
    case Dict(_) => Some(1)
    case List(items) => if forall i :: 0 <= i < |items| ==> items[i].Dict? then Some(|items|) else None
  }

  lemma DenotesObject(t: Tree)
    requires Ok(t)
    ensures Denotes(t).Object? <==> t.Dict?
  {
  }

  /** CountOf is the count of the value a text denotes. */
  lemma CountIsPayloadCount(t: Tree)
    requires Ok(t)
    ensures CountOf(t) == PayloadCount(Denotes(t))
  {
    if t.List? {
      var decoded := Denotes(t).items;
      forall i | 0 <= i < |t.items| ensures decoded[i].Object? <==> t.items[i].Dict? {
        assert Ok(t.items[i]) && decoded[i] == Denotes(t.items[i]);
        DenotesObject(t.items[i]);
      }
    }
  }

  /** What decoding reads is what was written. */
  lemma {:induction false} DecodeSound(s: seq<Token>, guard: string -> bool)
    requires DecodeValue(s, guard).Some?
    ensures var d := DecodeValue(s, guard).value;
      s == Tokens(d.value) + d.rest && Ok(d.value) && AllAccepted(Tokens(d.value), guard)
    decreases |s|, 0
  {
    if !IsScalar(s[0]) {
      if s[0].braces {
        FieldsSound(s[1..], guard);
      } else {
        ItemsSound(s[1..], guard);
      }
    }
  }

  lemma {:induction false} ItemsSound(s: seq<Token>, guard: string -> bool)
    requires DecodeItems(s, guard).Some?
    ensures var d := DecodeItems(s, guard).value;
      s == ItemTokens(d.value) + [Close(false)] + d.rest
      && (forall i :: i in d.value ==> Ok(i)) && AllAccepted(ItemTokens(d.value), guard)
    decreases |s|, 1
  {
    if !s[0].Close? {
      DecodeSound(s, guard);
      ItemsSound(DecodeValue(s, guard).value.rest, guard);
    }
  }

  lemma {:induction false} FieldJoins(first: Field, rest: seq<Token>, later: seq<Field>, end: seq<Token>, guard: string -> bool)
    requires rest == FieldTokens(later) + [Close(true)] + end
    requires Ok(first.value) && AllAccepted(Tokens(first.value), guard)
    requires (forall f :: f in later ==> Ok(f.value)) && AllAccepted(FieldTokens(later), guard)
    ensures var fields := [first] + later;
      && [Word(first.key)] + (Tokens(first.value) + rest) == FieldTokens(fields) + [Close(true)] + end
      && (forall f :: f in fields ==> Ok(f.value)) && AllAccepted(FieldTokens(fields), guard)
  {
    var fields := [first] + later;
    assert fields[1..] == later;
    assert FieldTokens(fields) == [Word(first.key)] + (Tokens(first.value) + FieldTokens(later));
  }

  lemma {:induction false} FieldsSound(s: seq<Token>, guard: string -> bool)
    requires DecodeFields(s, guard).Some?
    ensures var d := DecodeFields(s, guard).value;
      s == FieldTokens(d.value) + [Close(true)] + d.rest
      && (forall f :: f in d.value ==> Ok(f.value)) && AllAccepted(FieldTokens(d.value), guard)
    decreases |s|, 1
  {
    if !s[0].Close? {
      var first := DecodeValue(s[1..], guard).value;
      DecodeSound(s[1..], guard);
      FieldsSound(first.rest, guard);
      var later := DecodeFields(first.rest, guard).value;
      assert s == [Word(s[0].text)] + s[1..];
      FieldJoins(Field(s[0].text, first.value), first.rest, later.value, later.rest, guard);
    }
  }

  lemma AcceptedParts(a: seq<Token>, b: seq<Token>, guard: string -> bool)
    ensures AllAccepted(a + b, guard) <==> AllAccepted(a, guard) && AllAccepted(b, guard)
  {
    assert forall k :: k in a + b <==> k in a || k in b;
  }

  /** Everything written is read back, unless a number is refused. */
  lemma {:induction false} DecodeComplete(t: Tree, rest: seq<Token>, guard: string -> bool)
    requires Ok(t)
    ensures DecodeValue(Tokens(t) + rest, guard)
         == if AllAccepted(Tokens(t), guard) then Some(Decoded(t, rest)) else None
    decreases t, 0
  {
    match t
    case Leaf(token) =>
      assert (Tokens(t) + rest)[1..] == rest;
    case List(items) =>
      var tail := [Close(false)] + rest;
      ItemsComplete(items, rest, guard);
      assert (Tokens(t) + rest)[1..] == ItemTokens(items) + tail;
      AcceptedParts([Open(false)], ItemTokens(items) + [Close(false)], guard);
      AcceptedParts(ItemTokens(items), [Close(false)], guard);
    case Dict(fields) =>
      var tail := [Close(true)] + rest;
      FieldsComplete(fields, rest, guard);
      assert (Tokens(t) + rest)[1..] == FieldTokens(fields) + tail;
      AcceptedParts([Open(true)], FieldTokens(fields) + [Close(true)], guard);
      AcceptedParts(FieldTokens(fields), [Close(true)], guard);
  }

  lemma TokensStart(t: Tree)
    requires Ok(t)
    ensures Tokens(t) != [] && !Tokens(t)[0].Close?
  {
  }

  lemma {:induction false} ItemsComplete(items: seq<Tree>, rest: seq<Token>, guard: string -> bool)
    requires forall i :: i in items ==> Ok(i)
    ensures DecodeItems(ItemTokens(items) + ([Close(false)] + rest), guard)
         == if AllAccepted(ItemTokens(items), guard) then Some(Decoded(items, rest)) else None
    decreases items, 1
  {
    var tail := [Close(false)] + rest;
    if items == [] {
      assert ItemTokens(items) + tail == tail && tail[1..] == rest;
    } else {
      var later := ItemTokens(items[1..]);
      assert ItemTokens(items) + tail == Tokens(items[0]) + (later + tail);
      TokensStart(items[0]);
      DecodeComplete(items[0], later + tail, guard);
      ItemsComplete(items[1..], rest, guard);
      AcceptedParts(Tokens(items[0]), later, guard);
      assert items == [items[0]] + items[1..];
    }
  }

  lemma FieldTokensStart(f: Field, later: seq<Token>, tail: seq<Token>)
    ensures var s := [Word(f.key)] + (Tokens(f.value) + later) + tail;
      s[0] == Word(f.key) && s[1..] == Tokens(f.value) + (later + tail)
  {
  }

  lemma FieldAccepted(f: Field, later: seq<Token>, guard: string -> bool)
    ensures AllAccepted([Word(f.key)] + (Tokens(f.value) + later), guard)
       <==> AllAccepted(Tokens(f.value), guard) && AllAccepted(later, guard)
  {
    AcceptedParts([Word(f.key)], Tokens(f.value) + later, guard);
    AcceptedParts(Tokens(f.value), later, guard);
  }

  lemma {:induction false} FieldsComplete(fields: seq<Field>, rest: seq<Token>, guard: string -> bool)
    requires forall f :: f in fields ==> Ok(f.value)
    ensures DecodeFields(FieldTokens(fields) + ([Close(true)] + rest), guard)
         == if AllAccepted(FieldTokens(fields), guard) then Some(Decoded(fields, rest)) else None
    decreases fields, 1
  {
    var tail := [Close(true)] + rest;
    if fields == [] {
      assert FieldTokens(fields) + tail == tail && tail[1..] == rest;
    } else {
      var f, later := fields[0], FieldTokens(fields[1..]);
      FieldTokensStart(f, later, tail);
      DecodeComplete(f.value, later + tail, guard);
      FieldsComplete(fields[1..], rest, guard);
      FieldAccepted(f, later, guard);
      assert fields == [f] + fields[1..];
    }
  }

  // ------------------------------------------------------------ the decoder

  datatype Read = Got(token: Token) | End | Bad

  class Decoder {
    const tokens: seq<Token>
    const guard: string -> bool
    var pos: nat

    constructor (tokens: seq<Token>, guard: string -> bool)
      ensures Valid() && Rest() == tokens && this.guard == guard
    {
      this.tokens := tokens;
      this.guard := guard;
      pos := 0;
    }

    predicate Valid()
      reads this
    {
      pos <= |tokens|
    }

    function Rest(): seq<Token>
      requires Valid()
      reads this
    {
      tokens[pos..]
    }

    method Next() returns (read: Read)
      requires Valid()
      modifies this
      ensures Valid()
      ensures var s := old(Rest());
        if s == [] then read == End && Rest() == s
        else if !Accepted(s[0], guard) then read == Bad && Rest() == s
        else read == Got(s[0]) && Rest() == s[1..]
    {
      if pos == |tokens| {
        read := End;
      } else if !Accepted(tokens[pos], guard) {
        read := Bad;
      } else {
        read := Got(tokens[pos]);
        pos := pos + 1;
      }
    }

    /** More: another element or field of the current array or object follows. */
    predicate More()
      requires Valid()
      reads this
    {
      pos < |tokens| && !tokens[pos].Close?
    }

    method Decode() returns (tree: Option<Tree>)
      requires Valid()
      modifies this
      ensures Valid()
      ensures match DecodeValue(old(Rest()), guard)
              case None => tree == None
              case Some(d) => tree == Some(d.value) && Rest() == d.rest
    {
      var decoded := DecodeValue(Rest(), guard);
      match decoded {
        case None =>
          tree := None;
        case Some(d) =>
          DecodeSound(Rest(), guard);
          assert Rest()[|Rest()| - |d.rest|..] == d.rest;
          assert tokens[|tokens| - |d.rest|..] == Rest()[|Rest()| - |d.rest|..];
          pos := |tokens| - |d.rest|;
          tree := Some(d.value);
      }
    }
  }

  // ----------------------------------- the recursive consumer (artifact.go)

  /** What follows the container whose opening has been read. */
  function AfterContainer(s: seq<Token>, braces: bool, guard: string -> bool): Option<seq<Token>> {
    if braces then
      match DecodeFields(s, guard)
      case None => None
      case Some(d) => Some(d.rest)
    else
      match DecodeItems(s, guard)
      case None => None
      case Some(d) => Some(d.rest)
  }

  function AfterValue(s: seq<Token>, guard: string -> bool): Option<seq<Token>> {
    match DecodeValue(s, guard)
    case None => None
    case Some(d) => Some(d.rest)
  }

  /** consumeOpenedJSONContainer consumes exactly what decoding would, or fails with it. */
  method ConsumeOpenedContainer(d: Decoder, braces: bool) returns (ok: bool)
    requires d.Valid()
    modifies d
    ensures d.Valid()
    ensures ok <==> AfterContainer(old(d.Rest()), braces, d.guard).Some?
    ensures ok ==> Some(d.Rest()) == AfterContainer(old(d.Rest()), braces, d.guard)
    ensures d.pos >= old(d.pos)
    decreases |d.tokens| - d.pos, 1
  {
    while d.More()
      invariant d.Valid() && d.pos >= old(d.pos)
      invariant AfterContainer(d.Rest(), braces, d.guard) == AfterContainer(old(d.Rest()), braces, d.guard)
      decreases |d.tokens| - d.pos
    {
      if braces {
        var key := d.Next();
        if !key.Got? || !key.token.Word? {
          return false;
        }
      }
      var consumed := ConsumeValue(d);
      if !consumed {
        return false;
      }
    }
    var token := d.Next();
    ok := token == Got(Close(braces));
  }

  /** consumeJSONValue */
  method ConsumeValue(d: Decoder) returns (ok: bool)
    requires d.Valid()
    modifies d
    ensures d.Valid()
    ensures ok <==> AfterValue(old(d.Rest()), d.guard).Some?
    ensures ok ==> Some(d.Rest()) == AfterValue(old(d.Rest()), d.guard) && d.pos > old(d.pos)
    ensures d.pos >= old(d.pos)
    decreases |d.tokens| - d.pos, 0
  {
    var read := d.Next();
    if !read.Got? || read.token.Close? {
      return false;
    }
    if read.token.Open? {
      ok := ConsumeOpenedContainer(d, read.token.braces);
      return;
    }
    return true;
  }

  /** The items decoded from s are those of done and then those decoded from rest. */
  predicate ItemsSoFar(s: seq<Token>, done: seq<Tree>, rest: seq<Token>, guard: string -> bool) {
    DecodeItems(s, guard)
      == match DecodeItems(rest, guard)
         case None => None
         case Some(later) => Some(Decoded(done + later.value, later.rest))
  }

  lemma NothingSoFar(s: seq<Token>, guard: string -> bool)
    ensures ItemsSoFar(s, [], s, guard)
  {
    if DecodeItems(s, guard).Some? {
      assert [] + DecodeItems(s, guard).value.value == DecodeItems(s, guard).value.value;
    }
  }

  lemma OneMoreItem(s: seq<Token>, done: seq<Tree>, rest: seq<Token>, guard: string -> bool)
    requires ItemsSoFar(s, done, rest, guard) && rest != [] && !rest[0].Close? && DecodeValue(rest, guard).Some?
    ensures var first := DecodeValue(rest, guard).value;
      ItemsSoFar(s, done + [first.value], first.rest, guard)
  {
    var first := DecodeValue(rest, guard).value;
    var later := DecodeItems(first.rest, guard);
    if later.Some? {
      assert done + ([first.value] + later.value.value) == done + [first.value] + later.value.value;
    }
  }

  /** An item that does not open with a brace is no object. */
  lemma NotAnObject(s: seq<Token>, done: seq<Tree>, rest: seq<Token>, guard: string -> bool)
    requires ItemsSoFar(s, done, rest, guard) && rest != [] && !rest[0].Close? && rest[0] != Open(true)
    ensures DecodeItems(s, guard).Some? ==> !AllDicts(DecodeItems(s, guard).value.value)
  {
    if DecodeItems(s, guard).Some? {
      var items := DecodeItems(s, guard).value.value;
      assert items[|done|] == DecodeValue(rest, guard).value.value;
      assert !items[|done|].Dict?;
    }
  }

  predicate AllDicts(items: seq<Tree>) {
    forall i :: 0 <= i < |items| ==> items[i].Dict?
  }

  /** The record loop of scanArtifactResource, after the opening bracket. */
  method ScanRecords(d: Decoder) returns (records: Option<nat>)
    requires d.Valid()
    modifies d
    ensures d.Valid()
    ensures match DecodeItems(old(d.Rest()), d.guard)
            case None => records == None
            case Some(items) =>
              records == (if AllDicts(items.value) then Some(|items.value|) else None)
              && (records.Some? ==> d.Rest() == items.rest)
  {
    var count := 0;
    ghost var done: seq<Tree> := [];
    NothingSoFar(d.Rest(), d.guard);
    while d.More()
      invariant d.Valid() && |done| == count && AllDicts(done)
      invariant ItemsSoFar(old(d.Rest()), done, d.Rest(), d.guard)
      decreases |d.tokens| - d.pos
    {
      ghost var before := d.Rest();
      var item := d.Next();
      if item != Got(Open(true)) {
        NotAnObject(old(d.Rest()), done, before, d.guard);
        return None;
      }
      var consumed := ConsumeOpenedContainer(d, true);
      if !consumed {
        assert DecodeValue(before, d.guard).None? && DecodeItems(before, d.guard).None?;
        return None;
      }
      ghost var decoded := DecodeValue(before, d.guard).value;
      assert decoded.value.Dict? && decoded.rest == d.Rest();
      OneMoreItem(old(d.Rest()), done, before, d.guard);
      done := done + [decoded.value];
      count := count + 1;
    }
    var closing := d.Next();
    if closing != Got(Close(false)) {
      return None;
    }
    assert done + [] == done;
    return Some(count);
  }

  /** scanArtifactResource: on every stream of tokens, decoding and then counting. */
  method ScanArtifactResource(d: Decoder) returns (records: Option<nat>)
    requires d.Valid()
    modifies d
    ensures records == DecodeThenCount(old(d.Rest()), d.guard)
  {
    var first := d.Next();
    if !first.Got? || !first.token.Open? {
      return None;
    }
    if !first.token.braces {
      records := ScanRecords(d);
      if records.None? {
        return;
      }
    } else {
      var consumed := ConsumeOpenedContainer(d, true);
      if !consumed {
        return None;
      }
      records := Some(1);
    }
    if d.pos < |d.tokens| {
      records := None;
    }
  }

  // ------------------------------------------- the depth counter (diff.go)

  /** What follows when as many closings as depth have been counted off. */
  function AfterDepth(s: seq<Token>, guard: string -> bool, depth: nat): Option<seq<Token>>
    decreases |s|
  {
    if depth == 0 then Some(s)
    else if s == [] || !Accepted(s[0], guard) then None
    else AfterDepth(s[1..], guard, if s[0].Open? then depth + 1 else if s[0].Close? then depth - 1 else depth)
  }

  /** Inside a container the counter passes over s, or stops at a number refused in it. */
  ghost predicate Passes(s: seq<Token>, guard: string -> bool, depth: nat) {
    forall rest :: AfterDepth(s + rest, guard, depth) == if AllAccepted(s, guard) then AfterDepth(rest, guard, depth) else None
  }

  lemma PassesNothing(guard: string -> bool, depth: nat)
    ensures Passes([], guard, depth)
  {
    forall rest: seq<Token> ensures AfterDepth([] + rest, guard, depth) == AfterDepth(rest, guard, depth) {
      assert [] + rest == rest;
    }
  }

  lemma PassesScalar(t: Token, guard: string -> bool, depth: nat)
    requires IsScalar(t) && depth >= 1
    ensures Passes([t], guard, depth)
  {
    forall rest: seq<Token>
      ensures AfterDepth([t] + rest, guard, depth)
           == if AllAccepted([t], guard) then AfterDepth(rest, guard, depth) else None
    {
      assert ([t] + rest)[1..] == rest;
    }
  }

  lemma PassesBoth(a: seq<Token>, b: seq<Token>, guard: string -> bool, depth: nat)
    requires Passes(a, guard, depth) && Passes(b, guard, depth)
    ensures Passes(a + b, guard, depth)
  {
    AcceptedParts(a, b, guard);
    forall rest: seq<Token>
      ensures AfterDepth(a + b + rest, guard, depth)
           == if AllAccepted(a + b, guard) then AfterDepth(rest, guard, depth) else None
    {
      assert a + b + rest == a + (b + rest);
    }
  }

  lemma DelimiterCounts(t: Token, rest: seq<Token>, guard: string -> bool, depth: nat)
    requires depth >= 1 && !IsScalar(t)
    ensures AfterDepth([t] + rest, guard, depth) == AfterDepth(rest, guard, if t.Open? then depth + 1 else depth - 1)
  {
    assert ([t] + rest)[1..] == rest;
  }

  lemma PassesContainer(inner: seq<Token>, braces: bool, guard: string -> bool, depth: nat)
    requires depth >= 1 && Passes(inner, guard, depth + 1)
    ensures Passes([Open(braces)] + (inner + [Close(braces)]), guard, depth)
  {
    var s := [Open(braces)] + (inner + [Close(braces)]);
    AcceptedParts([Open(braces)], inner + [Close(braces)], guard);
    AcceptedParts(inner, [Close(braces)], guard);
    forall rest: seq<Token>
      ensures AfterDepth(s + rest, guard, depth) == if AllAccepted(s, guard) then AfterDepth(rest, guard, depth) else None
    {
      assert s + rest == [Open(braces)] + (inner + ([Close(braces)] + rest));
      DelimiterCounts(Open(braces), inner + ([Close(braces)] + rest), guard, depth);
      DelimiterCounts(Close(braces), rest, guard, depth + 1);
    }
  }

  lemma {:induction false} PassesValue(t: Tree, guard: string -> bool, depth: nat)
    requires Ok(t) && depth >= 1
    ensures Passes(Tokens(t), guard, depth)
    decreases t, 0
  {
    match t
    case Leaf(token) => PassesScalar(token, guard, depth);
    case List(items) =>
      PassesItems(items, guard, depth + 1);
      PassesContainer(ItemTokens(items), false, guard, depth);
    case Dict(fields) =>
      PassesFields(fields, guard, depth + 1);
      PassesContainer(FieldTokens(fields), true, guard, depth);
  }

  lemma {:induction false} PassesItems(items: seq<Tree>, guard: string -> bool, depth: nat)
    requires depth >= 1 && forall i :: i in items ==> Ok(i)
    ensures Passes(ItemTokens(items), guard, depth)
    decreases items, 1
  {
    if items == [] {
      PassesNothing(guard, depth);
    } else {
      PassesValue(items[0], guard, depth);
      PassesItems(items[1..], guard, depth);
      PassesBoth(Tokens(items[0]), ItemTokens(items[1..]), guard, depth);
    }
  }

  lemma {:induction false} PassesFields(fields: seq<Field>, guard: string -> bool, depth: nat)
    requires depth >= 1 && forall f :: f in fields ==> Ok(f.value)
    ensures Passes(FieldTokens(fields), guard, depth)
    decreases fields, 1
  {
    if fields == [] {
      PassesNothing(guard, depth);
    } else {
      var f := fields[0];
      PassesScalar(Word(f.key), guard, depth);
      PassesValue(f.value, guard, depth);
      PassesFields(fields[1..], guard, depth);
      PassesBoth(Tokens(f.value), FieldTokens(fields[1..]), guard, depth);
      PassesBoth([Word(f.key)], Tokens(f.value) + FieldTokens(fields[1..]), guard, depth);
    }
  }

  /** Once its brace has been read, the counter consumes exactly one object. */
  lemma CountsOneObject(fields: seq<Field>, rest: seq<Token>, guard: string -> bool)
    requires forall f :: f in fields ==> Ok(f.value)
    ensures AfterDepth(FieldTokens(fields) + ([Close(true)] + rest), guard, 1)
         == if AllAccepted(FieldTokens(fields), guard) then Some(rest) else None
  {
    PassesFields(fields, guard, 1);
    DelimiterCounts(Close(true), rest, guard, 1);
  }

  /** consumeJSONComposite */
  method ConsumeComposite(d: Decoder) returns (ok: bool)
    requires d.Valid()
    modifies d
    ensures d.Valid()
    ensures ok <==> AfterDepth(old(d.Rest()), d.guard, 1).Some?
    ensures ok ==> Some(d.Rest()) == AfterDepth(old(d.Rest()), d.guard, 1)
  {
    var depth := 1;
    while depth > 0
      invariant d.Valid() && depth >= 0
      invariant AfterDepth(d.Rest(), d.guard, depth) == AfterDepth(old(d.Rest()), d.guard, 1)
      decreases |d.tokens| - d.pos, depth
    {
      var read := d.Next();
      if !read.Got? {
        return false;
      }
      if read.token.Open? {
        depth := depth + 1;
      } else if read.token.Close? {
        depth := depth - 1;
      }
    }
    return true;
  }

  /** resourceJSONShape */
  datatype Shape = Shape(records: nat, objectOrArray: bool, nonObjectRecord: bool)

  /** The array loop of scanResourceJSON, decoding one record at a time. */
  method ScanItems(d: Decoder) returns (shape: Option<Shape>)
    requires d.Valid()
    modifies d
    ensures d.Valid()
    ensures match DecodeItems(old(d.Rest()), d.guard)
            case None => shape == None
            case Some(items) =>
              shape.Some? && d.Rest() == items.rest && shape.value.objectOrArray
              && shape.value.nonObjectRecord == !AllDicts(items.value)
              && (AllDicts(items.value) ==> shape.value.records == |items.value|)
  {
    var s := Shape(0, true, false);
    ghost var done: seq<Tree> := [];
    NothingSoFar(d.Rest(), d.guard);
    while d.More()
      invariant d.Valid() && ItemsSoFar(old(d.Rest()), done, d.Rest(), d.guard)
      invariant s.objectOrArray && s.nonObjectRecord == !AllDicts(done) && (AllDicts(done) ==> s.records == |done|)
      decreases |d.tokens| - d.pos
    {
      ghost var before := d.Rest();
      var item := d.Decode();
      if item.None? {
        assert DecodeItems(before, d.guard).None?;
        return None;
      }
      OneMoreItem(old(d.Rest()), done, before, d.guard);
      assert AllDicts(done + [item.value]) <==> AllDicts(done) && item.value.Dict? by {
        assert (done + [item.value])[|done|] == item.value;
        assert forall i :: 0 <= i < |done| ==> (done + [item.value])[i] == done[i];
      }
      done := done + [item.value];
      s := if item.value.Dict? then s.(records := s.records + 1) else s.(nonObjectRecord := true);
    }
    var closing := d.Next();
    assert done + [] == done;
    if closing != Got(Close(false)) {
      return None;
    }
    return Some(s);
  }

  lemma ListAccepted(t: Tree, guard: string -> bool)
    requires t.List?
    ensures AllAccepted(Tokens(t), guard) <==> AllAccepted(ItemTokens(t.items), guard)
  {
    AcceptedParts([Open(false)], ItemTokens(t.items) + [Close(false)], guard);
    AcceptedParts(ItemTokens(t.items), [Close(false)], guard);
  }

  lemma DictAccepted(t: Tree, guard: string -> bool)
    requires t.Dict?
    ensures AllAccepted(Tokens(t), guard) <==> AllAccepted(FieldTokens(t.fields), guard)
  {
    AcceptedParts([Open(true)], FieldTokens(t.fields) + [Close(true)], guard);
    AcceptedParts(FieldTokens(t.fields), [Close(true)], guard);
  }

  /** What the scan knows of a text it has passed over. */
  ghost predicate ShapeOf(t: Tree, shape: Shape) {
    && shape.objectOrArray == !t.Leaf?
    && (t.Dict? ==> shape.records == 1 && !shape.nonObjectRecord)
    && (t.List? ==>
          && shape.nonObjectRecord == !AllDicts(t.items)
          && (AllDicts(t.items) ==> shape.records == |t.items|))
  }

  /** scanResourceJSON, an object whose brace has been read. */
  method ScanObject(d: Decoder, ghost t: Tree, ghost rest: seq<Token>) returns (shape: Option<Shape>)
    requires d.Valid() && Ok(t) && t.Dict? && d.Rest() == FieldTokens(t.fields) + ([Close(true)] + rest)
    modifies d
    ensures d.Valid()
    ensures shape.Some? <==> AllAccepted(Tokens(t), d.guard)
    ensures shape.Some? ==> ShapeOf(t, shape.value) && d.Rest() == rest
  {
    CountsOneObject(t.fields, rest, d.guard);
    DictAccepted(t, d.guard);
    var consumed := ConsumeComposite(d);
    if !consumed {
      return None;
    }
    return Some(Shape(1, true, false));
  }

  /** The same of an array. */
  method ScanArray(d: Decoder, ghost t: Tree, ghost rest: seq<Token>) returns (shape: Option<Shape>)
    requires d.Valid() && Ok(t) && t.List? && d.Rest() == ItemTokens(t.items) + ([Close(false)] + rest)
    modifies d
    ensures d.Valid()
    ensures shape.Some? <==> AllAccepted(Tokens(t), d.guard)
    ensures shape.Some? ==> ShapeOf(t, shape.value) && d.Rest() == rest
  {
    ItemsComplete(t.items, rest, d.guard);
    ListAccepted(t, d.guard);
    shape := ScanItems(d);
  }

  lemma TextTokens(t: Tree, rest: seq<Token>)
    ensures Tokens(t) + rest != []
    ensures (Tokens(t) + rest)[0] == Tokens(t)[0]
    ensures (Tokens(t) + rest)[1..]
      == match t
         case Leaf(token) => rest
         case List(items) => ItemTokens(items) + ([Close(false)] + rest)
         case Dict(fields) => FieldTokens(fields) + ([Close(true)] + rest)
  {
  }

  lemma FirstAccepted(t: Tree, guard: string -> bool)
    requires Ok(t)
    ensures if t.Leaf? then AllAccepted(Tokens(t), guard) <==> Accepted(t.token, guard) else Accepted(Tokens(t)[0], guard)
  {
  }

  /** scanResourceJSON on the tokens of any JSON text t, with whatever follows it. */
  method ScanResourceJSON(d: Decoder, ghost t: Tree, ghost rest: seq<Token>) returns (shape: Option<Shape>)
    requires d.Valid() && Ok(t) && d.Rest() == Tokens(t) + rest
    modifies d
    ensures shape.Some? <==> AllAccepted(Tokens(t), d.guard) && rest == []
    ensures shape.Some? ==> ShapeOf(t, shape.value)
  {
    TextTokens(t, rest);
    FirstAccepted(t, d.guard);
    var first := d.Next();
    if !first.Got? {
      return None;
    }
    if first.token == Open(true) {
      shape := ScanObject(d, t, rest);
    } else if first.token == Open(false) {
      shape := ScanArray(d, t, rest);
    } else {
      shape := Some(Shape(0, false, false));
    }
    if shape.None? {
      return;
    }
    var trailing := d.Next();
    if !trailing.End? {
      shape := None;
    }
  }

  // ------------------------------------------------ the two verdicts (diff.go)

  /** An unselected resource: every number that is written is looked at. */
  function UnselectedVerdict(t: Tree, rest: seq<Token>, guard: string -> bool): Option<nat>
    requires Ok(t)
  {
    if AllAccepted(Tokens(t), guard) && rest == [] then PayloadCount(Denotes(t)) else None
  }

  /** validateDecodedNumbers: the numbers that have survived decoding are in range. */
  predicate NumbersPass(value: Json, guard: string -> bool) {
    match value
    case Number(lexeme) => guard(lexeme)
    case Array(items) => forall i | 0 <= i < |items| :: NumbersPass(items[i], guard)
    case Object(fields) => forall key | key in fields :: NumbersPass(fields[key], guard)
    case _ => true
  }

  /** A selected resource: only the numbers that survive are looked at. */
  function SelectedVerdict(t: Tree, rest: seq<Token>, guard: string -> bool): Option<nat>
    requires Ok(t)
  {
    if rest == [] && NumbersPass(Denotes(t), guard) then PayloadCount(Denotes(t)) else None
  }

  /** The verdict of readUnselectedResourceCount: on the tokens of any JSON text, the
      count that json.Unmarshal and then counting gives. */
  method UnselectedCount(d: Decoder, ghost t: Tree, ghost rest: seq<Token>) returns (records: Option<nat>)
    requires d.Valid() && Ok(t) && d.Rest() == Tokens(t) + rest
    modifies d
    ensures records == DecodeThenCount(Tokens(t) + rest, d.guard)
    ensures records == UnselectedVerdict(t, rest, d.guard)
  {
    DecodeComplete(t, rest, d.guard);
    CountIsPayloadCount(t);
    var shape := ScanResourceJSON(d, t, rest);
    if shape.None? || !shape.value.objectOrArray || shape.value.nonObjectRecord {
      return None;
    }
    records := Some(shape.value.records);
  }

  /** decodeResourceValue and the record loop of readResourceWithLimit: a decoder that
      takes every number as it stands, and the check of what it has decoded. */
  method SelectedCount(d: Decoder, guard: string -> bool, ghost t: Tree, ghost rest: seq<Token>) returns (records: Option<nat>)
    requires d.Valid() && Ok(t) && d.Rest() == Tokens(t) + rest
    requires forall lexeme :: d.guard(lexeme)
    modifies d
    ensures records == SelectedVerdict(t, rest, guard)
  {
    DecodeComplete(t, rest, d.guard);
    var tree := d.Decode();
    if tree.None? || d.pos < |d.tokens| {
      return None;
    }
    var raw := Denotes(tree.value);
    if !NumbersPass(raw, guard) {
      return None;
    }
    match raw {
      case Array(items) =>
        records := CountObjects(items);
      case Object(_) =>
        records := Some(1);
      case _ =>
        records := None;
    }
  }

  method CountObjects(items: seq<Json>) returns (records: Option<nat>)
    ensures records == PayloadCount(Array(items))
  {
    for i := 0 to |items|
      invariant forall k :: 0 <= k < i ==> items[k].Object?
    {
      if !items[i].Object? {
        return None;
      }
    }
    return Some(|items|);
  }

  // ------------------------------------------------- where the verdicts part

  lemma {:induction false} ItemsAccepted(items: seq<Tree>, guard: string -> bool)
    ensures AllAccepted(ItemTokens(items), guard) <==> forall i :: i in items ==> AllAccepted(Tokens(i), guard)
  {
    if items != [] {
      assert ItemTokens(items) == Tokens(items[0]) + ItemTokens(items[1..]);
      AcceptedParts(Tokens(items[0]), ItemTokens(items[1..]), guard);
      ItemsAccepted(items[1..], guard);
      assert items == [items[0]] + items[1..];
      assert forall i :: i in items <==> i == items[0] || i in items[1..];
    }
  }

  lemma {:induction false} FieldsAccepted(fields: seq<Field>, guard: string -> bool)
    ensures AllAccepted(FieldTokens(fields), guard) <==> forall f :: f in fields ==> AllAccepted(Tokens(f.value), guard)
  {
    if fields != [] {
      FieldAccepted(fields[0], FieldTokens(fields[1..]), guard);
      FieldsAccepted(fields[1..], guard);
      assert fields == [fields[0]] + fields[1..];
      assert forall f :: f in fields <==> f == fields[0] || f in fields[1..];
    }
  }

  /** What an object holds under a key was written there. */
  lemma {:induction false} FieldWritten(fields: seq<Field>, key: string) returns (f: Field)
    requires (forall f :: f in fields ==> Ok(f.value)) && key in FieldsDenote(fields)
    ensures f in fields && f.key == key && FieldsDenote(fields)[key] == Denotes(f.value)
  {
    var front, last := fields[..|fields| - 1], fields[|fields| - 1];
    assert fields == front + [last];
    if key == last.key {
      f := last;
    } else {
      f := FieldWritten(front, key);
    }
  }

  /** What survives was written: if all that is written passes, so does what survives. */
  lemma {:induction false} SurvivorsPass(t: Tree, guard: string -> bool)
    requires Ok(t) && AllAccepted(Tokens(t), guard)
    ensures NumbersPass(Denotes(t), guard)
  {
    match t
    case Leaf(token) =>
      assert token in Tokens(t);
    case List(items) =>
      ListAccepted(t, guard);
      ItemsAccepted(items, guard);
      forall i | 0 <= i < |items| ensures NumbersPass(Denotes(items[i]), guard) {
        SurvivorsPass(items[i], guard);
      }
    case Dict(fields) =>
      DictAccepted(t, guard);
      FieldsAccepted(fields, guard);
      forall key | key in FieldsDenote(fields) ensures NumbersPass(FieldsDenote(fields)[key], guard) {
        var f := FieldWritten(fields, key);
        SurvivorsPass(f.value, guard);
      }
  }

  /** No object of the text repeats a key. */
  predicate KeysOnce(t: Tree) {
    match t
    case Leaf(_) => true
    case List(items) => forall i :: i in items ==> KeysOnce(i)
    case Dict(fields) =>
      && (forall i, j :: 0 <= i < j < |fields| ==> fields[i].key != fields[j].key)
      && forall f :: f in fields ==> KeysOnce(f.value)
  }

  lemma {:induction false} FieldSurvives(fields: seq<Field>, f: Field)
    requires (forall f :: f in fields ==> Ok(f.value)) && f in fields
    requires forall i, j :: 0 <= i < j < |fields| ==> fields[i].key != fields[j].key
    ensures f.key in FieldsDenote(fields) && FieldsDenote(fields)[f.key] == Denotes(f.value)
  {
    var front, last := fields[..|fields| - 1], fields[|fields| - 1];
    assert fields == front + [last];
    if f != last {
      FieldSurvives(front, f);
      var i :| 0 <= i < |front| && front[i] == f;
      assert fields[i].key != fields[|front|].key;
    }
  }

  /** Without repeated keys all that is written survives. */
  lemma {:induction false} AllSurvive(t: Tree, guard: string -> bool)
    requires Ok(t) && KeysOnce(t) && NumbersPass(Denotes(t), guard)
    ensures AllAccepted(Tokens(t), guard)
  {
    match t
    case Leaf(token) =>
    case List(items) =>
      forall i | i in items ensures AllAccepted(Tokens(i), guard) {
        var k :| 0 <= k < |items| && items[k] == i;
        assert Denotes(t).items[k] == Denotes(i);
        AllSurvive(i, guard);
      }
      ItemsAccepted(items, guard);
      ListAccepted(t, guard);
    case Dict(fields) =>
      forall f | f in fields ensures AllAccepted(Tokens(f.value), guard) {
        FieldSurvives(fields, f);
        AllSurvive(f.value, guard);
      }
      FieldsAccepted(fields, guard);
      DictAccepted(t, guard);
  }

  /** The verdicts part exactly on a countable payload whose surviving numbers are all
      in range while some number written is not; then only the selected one accepts. */
  lemma VerdictsPartExactly(t: Tree, rest: seq<Token>, guard: string -> bool)
    requires Ok(t)
    ensures SelectedVerdict(t, rest, guard) != UnselectedVerdict(t, rest, guard) <==>
      && rest == [] && PayloadCount(Denotes(t)).Some?
      && NumbersPass(Denotes(t), guard) && !AllAccepted(Tokens(t), guard)
    ensures UnselectedVerdict(t, rest, guard).Some? ==> SelectedVerdict(t, rest, guard) == UnselectedVerdict(t, rest, guard)
  {
    if AllAccepted(Tokens(t), guard) {
      SurvivorsPass(t, guard);
    }
  }

  /** They never part on a text without repeated keys. */
  lemma VerdictsAgreeOnUniqueKeys(t: Tree, rest: seq<Token>, guard: string -> bool)
    requires Ok(t) && KeysOnce(t)
    ensures SelectedVerdict(t, rest, guard) == UnselectedVerdict(t, rest, guard)
  {
    VerdictsPartExactly(t, rest, guard);
    if NumbersPass(Denotes(t), guard) {
      AllSurvive(t, guard);
    }
  }

  /** {"a":1e400,"a":1} */
  const OVERWRITTEN := Dict([Field("a", Leaf(Num("1e400"))), Field("a", Leaf(Num("1")))])

  lemma OverwrittenDenotes()
    ensures Ok(OVERWRITTEN) && Denotes(OVERWRITTEN) == Object(map["a" := Number("1")])
  {
    var fields := OVERWRITTEN.fields;
    assert fields[..1] == [fields[0]] && fields[..1][..0] == [];
    assert FieldsDenote(fields) == FieldsDenote(fields[..1])["a" := Number("1")];
    assert FieldsDenote(fields[..1]) == map["a" := Number("1e400")];
  }

  lemma OverwrittenNumber(guard: string -> bool)
    requires !guard("1e400") && guard("1")
    ensures Ok(OVERWRITTEN)
    ensures SelectedVerdict(OVERWRITTEN, [], guard) == Some(1) && UnselectedVerdict(OVERWRITTEN, [], guard) == None
  {
    OverwrittenDenotes();
    var first := OVERWRITTEN.fields[0];
    DictAccepted(OVERWRITTEN, guard);
    FieldsAccepted(OVERWRITTEN.fields, guard);
    assert first in OVERWRITTEN.fields && Num("1e400") in Tokens(first.value);
  }

  /** Its tokens, and those of a list of the four other scalars with what they denote. */
  lemma TokensWritten(text: string, b: bool, lexeme: string)
    ensures Tokens(OVERWRITTEN) == [Open(true), Word("a"), Num("1e400"), Word("a"), Num("1"), Close(true)]
    ensures var t := List([Leaf(Word(text)), Leaf(Flag(b)), Leaf(Nil), Leaf(Num(lexeme))]);
      && Tokens(t) == [Open(false), Word(text), Flag(b), Nil, Num(lexeme), Close(false)]
      && Ok(t) && Denotes(t) == Array([String(text), Bool(b), Null, Number(lexeme)])
  {
    var fields := OVERWRITTEN.fields;
    assert fields[1..] == [fields[1]] && fields[1..][1..] == [];
    assert FieldTokens(fields) == [Word("a"), Num("1e400")] + FieldTokens(fields[1..]);
    var items := [Leaf(Word(text)), Leaf(Flag(b)), Leaf(Nil), Leaf(Num(lexeme))];
    assert items[1..] == [Leaf(Flag(b)), Leaf(Nil), Leaf(Num(lexeme))];
    assert items[1..][1..] == [Leaf(Nil), Leaf(Num(lexeme))];
    assert items[1..][1..][1..] == [Leaf(Num(lexeme))];
    assert ItemTokens(items[1..][1..][1..]) == [Num(lexeme)];
    assert ItemTokens(items[1..][1..]) == [Nil, Num(lexeme)];
    assert ItemTokens(items[1..]) == [Flag(b), Nil, Num(lexeme)];
    assert ItemTokens(items) == [Word(text), Flag(b), Nil, Num(lexeme)];
  }

  /** The same file read both ways. */
  method VerdictsCanPart() returns (selected: Option<nat>, unselected: Option<nat>)
    ensures selected == Some(1) && unselected == None
  {
    var guard := lexeme => lexeme != "1e400";
    OverwrittenNumber(guard);
    var tokens := Tokens(OVERWRITTEN);
    assert tokens + [] == tokens;
    var whole := new Decoder(tokens, _ => true);
    selected := SelectedCount(whole, guard, OVERWRITTEN, []);
    var streamed := new Decoder(tokens, guard);
    unselected := UnselectedCount(streamed, OVERWRITTEN, []);
  }
}
