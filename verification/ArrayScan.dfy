// The one-pass scan for the strings that are direct elements of a JSON array
// (directArrayStringStarts of internal/redact/paste_credentials.go), against the
// array's syntax tree.
module ArrayScan {

  // ------------------------------------------------------ printed JSON

  /** A character of a string body, or an escape: a backslash and any character. */
  datatype Unit = Plain(c: char) | Escape(c: char)

  /** A value as written: strings, other scalars, and arrays and objects with the
      white space around their parts. */
  datatype Value =
    | Text(body: seq<Unit>)
    | Scalar(word: string)
    | Array(elements: seq<Element>, blank: string)
    | Object(fields: seq<Field>, blank: string)

  datatype Element = Element(before: string, value: Value, after: string)

  datatype Field = Field(before: string, name: seq<Unit>, middle: string, value: Value, after: string)

  /** Neither a bracket, a brace nor a quote. */
  predicate Dull(s: string) {
    forall i :: 0 <= i < |s| ==> s[i] !in {'[', ']', '{', '}', '"'}
  }

  predicate BodyOk(body: seq<Unit>) {
    forall i :: 0 <= i < |body| ==> body[i].Plain? ==> body[i].c != '"' && body[i].c != '\\'
  }

  predicate Ok(v: Value) {
    match v
    case Text(body) => BodyOk(body)
    case Scalar(word) => Dull(word)
    case Array(elements, blank) => Dull(blank) && forall e :: e in elements ==> Dull(e.before) && Ok(e.value) && Dull(e.after)
    case Object(fields, blank) =>
      Dull(blank)
      && forall f :: f in fields ==> Dull(f.before) && BodyOk(f.name) && Dull(f.middle) && Ok(f.value) && Dull(f.after)
  }

  function PrintBody(body: seq<Unit>): string {
    if body == [] then ""
    else (if body[0].Plain? then [body[0].c] else ['\\', body[0].c]) + PrintBody(body[1..])
  }

  function Quoted(body: seq<Unit>): string {
    ['"'] + (PrintBody(body) + ['"'])
  }

  function Joined(parts: seq<string>): string {
    if parts == [] then "" else parts[0] + Joined(parts[1..])
  }

  /** A comma after each element but the last. */
  function Comma<T>(elements: seq<T>): string {
    if |elements| > 1 then "," else ""
  }

  function Print(v: Value): string
    decreases v, 0
  {
    match v
    case Text(body) => Quoted(body)
    case Scalar(word) => word
    case Array(elements, blank) => ['['] + (PrintElements(elements) + blank + [']'])
    case Object(fields, blank) => ['{'] + (PrintFields(fields) + blank + ['}'])
  }

  function ElementParts(elements: seq<Element>): seq<string>
    requires elements != []
    decreases elements, 1
  {
    var e := elements[0];
    [e.before, Print(e.value), e.after, Comma(elements), PrintElements(elements[1..])]
  }

  function PrintElements(elements: seq<Element>): string
    decreases elements, 2
  {
    if elements == [] then "" else Joined(ElementParts(elements))
  }

  function FieldParts(fields: seq<Field>): seq<string>
    requires fields != []
    decreases fields, 1
  {
    var f := fields[0];
    [f.before, Quoted(f.name), f.middle, Print(f.value), f.after, Comma(fields), PrintFields(fields[1..])]
  }

  function PrintFields(fields: seq<Field>): string
    decreases fields, 2
  {
    if fields == [] then "" else Joined(FieldParts(fields))
  }

  /** Where the direct string elements open, counted from the position at. */
  function DirectStarts(elements: seq<Element>, at: nat): set<nat>
    decreases elements
  {
    if elements == [] then {}
    else
      var e := elements[0];
      var start := at + |e.before|;
      var next := start + |Print(e.value)| + |e.after| + if |elements| > 1 then 1 else 0;
      (if e.value.Text? then {start} else {}) + DirectStarts(elements[1..], next)
  }

  // ---------------------------------------------------------- the scan

  /** Where the inner loop stops: the closing quote, or past the end. */
  function SkipString(text: string, i: nat): (j: nat)
    ensures i <= j
    decreases |text| - i
  {
    if i >= |text| || text[i] == '"' then i
    else SkipString(text, if text[i] == '\\' then i + 2 else i + 1)
  }

  /** The openings found in text from position at of the input on, at some depth. */
  function Found(text: string, at: nat, depth: int): set<nat>
    decreases |text|
  {
    if text == "" then {}
    else if text[0] == '[' || text[0] == '{' then Found(text[1..], at + 1, depth + 1)
    else if text[0] == ']' || text[0] == '}' then Found(text[1..], at + 1, depth - 1)
    else if text[0] == '"' then
      var next := SkipString(text, 1) + 1;
      (if depth == 1 then {at} else {}) + if next <= |text| then Found(text[next..], at + next, depth) else {}
    else Found(text[1..], at + 1, depth)
  }

  lemma {:induction false} SkipsDull(s: string, rest: string, at: nat, depth: int)
    requires Dull(s)
    ensures Found(s + rest, at, depth) == Found(rest, at + |s|, depth)
    decreases |s|
  {
    if s == "" {
      assert s + rest == rest;
    } else {
      assert (s + rest)[1..] == s[1..] + rest;
      assert (s + rest)[0] == s[0];
      SkipsDull(s[1..], rest, at + 1, depth);
    }
  }

  lemma {:induction false} SkipsBody(text: string, i: nat, body: seq<Unit>, rest: string)
    requires BodyOk(body) && i <= |text| && text[i..] == PrintBody(body) + (['"'] + rest)
    ensures SkipString(text, i) == i + |PrintBody(body)|
    decreases |body|
  {
    var tail := PrintBody(body) + (['"'] + rest);
    if body == [] {
      assert text[i] == tail[0] == '"';
    } else {
      var head := if body[0].Plain? then [body[0].c] else ['\\', body[0].c];
      assert tail == head + (PrintBody(body[1..]) + (['"'] + rest));
      assert text[i] == tail[0] == head[0];
      assert text[i + |head|..] == tail[|head|..] == PrintBody(body[1..]) + (['"'] + rest);
      SkipsBody(text, i + |head|, body[1..], rest);
    }
  }

  lemma FindsString(body: seq<Unit>, rest: string, at: nat, depth: int)
    requires BodyOk(body)
    ensures Found(Quoted(body) + rest, at, depth)
         == (if depth == 1 then {at} else {}) + Found(rest, at + |Quoted(body)|, depth)
  {
    var text := Quoted(body) + rest;
    assert text[1..] == PrintBody(body) + (['"'] + rest);
    SkipsBody(text, 1, body, rest);
    assert text[|Quoted(body)|..] == rest;
  }

  // -------------------------------------------- what holds nothing to find

  /** At a depth the scan passes over s and finds nothing in it. */
  ghost predicate Skips(s: string, depth: int) {
    forall rest: string, at: nat :: Found(s + rest, at, depth) == Found(rest, at + |s|, depth)
  }

  lemma SkipsWord(s: string, depth: int)
    requires Dull(s)
    ensures Skips(s, depth)
  {
    forall rest: string, at: nat ensures Found(s + rest, at, depth) == Found(rest, at + |s|, depth) {
      SkipsDull(s, rest, at, depth);
    }
  }

  lemma SkipsBoth(a: string, b: string, depth: int)
    requires Skips(a, depth) && Skips(b, depth)
    ensures Skips(a + b, depth)
  {
    forall rest: string, at: nat ensures Found(a + b + rest, at, depth) == Found(rest, at + |a + b|, depth) {
      assert a + b + rest == a + (b + rest);
    }
  }

  lemma SkipsString(body: seq<Unit>, depth: int)
    requires BodyOk(body) && depth != 1
    ensures Skips(Quoted(body), depth)
  {
    forall rest: string, at: nat
      ensures Found(Quoted(body) + rest, at, depth) == Found(rest, at + |Quoted(body)|, depth)
    {
      FindsString(body, rest, at, depth);
    }
  }

  lemma BracketCounts(mark: char, rest: string, at: nat, depth: int)
    requires mark in {'[', '{', ']', '}'}
    ensures Found([mark] + rest, at, depth) == Found(rest, at + 1, if mark in {'[', '{'} then depth + 1 else depth - 1)
  {
    assert ([mark] + rest)[1..] == rest;
  }

  /** Whatever is passed over inside brackets is passed over with them. */
  lemma SkipsBrackets(open: char, inner: string, close: char, depth: int)
    requires open in {'[', '{'} && close in {']', '}'} && Skips(inner, depth + 1)
    ensures Skips([open] + (inner + [close]), depth)
  {
    forall rest: string, at: nat
      ensures Found([open] + (inner + [close]) + rest, at, depth)
           == Found(rest, at + |[open] + (inner + [close])|, depth)
    {
      assert [open] + (inner + [close]) + rest == [open] + (inner + ([close] + rest));
      BracketCounts(open, inner + ([close] + rest), at, depth);
      BracketCounts(close, rest, at + 1 + |inner|, depth + 1);
    }
  }

  lemma SkipsAll(parts: seq<string>, depth: int)
    requires forall p :: p in parts ==> Skips(p, depth)
    ensures Skips(Joined(parts), depth)
  {
    if parts == [] {
      SkipsWord("", depth);
    } else {
      assert forall p :: p in parts[1..] ==> p in parts;
      SkipsAll(parts[1..], depth);
      SkipsBoth(parts[0], Joined(parts[1..]), depth);
    }
  }

  /** A value holds nothing to find, unless it is a string directly in the array. */
  lemma {:induction false} SkipsValue(v: Value, depth: int)
    requires Ok(v) && depth >= 1 && (v.Text? ==> depth >= 2)
    ensures Skips(Print(v), depth)
    decreases v, 0
  {
    match v
    case Text(body) => SkipsString(body, depth);
    case Scalar(word) => SkipsWord(word, depth);
    case Array(elements, blank) =>
      SkipsElements(elements, depth + 1);
      SkipsWord(blank, depth + 1);
      SkipsBoth(PrintElements(elements), blank, depth + 1);
      SkipsBrackets('[', PrintElements(elements) + blank, ']', depth);
    case Object(fields, blank) =>
      SkipsFields(fields, depth + 1);
      SkipsWord(blank, depth + 1);
      SkipsBoth(PrintFields(fields), blank, depth + 1);
      SkipsBrackets('{', PrintFields(fields) + blank, '}', depth);
  }

  predicate ElementOk(e: Element) {
    Dull(e.before) && Ok(e.value) && Dull(e.after)
  }

  predicate FieldOk(f: Field) {
    Dull(f.before) && BodyOk(f.name) && Dull(f.middle) && Ok(f.value) && Dull(f.after)
  }

  lemma {:induction false} SkipsElements(elements: seq<Element>, depth: int)
    requires depth >= 2 && forall e :: e in elements ==> ElementOk(e)
    ensures Skips(PrintElements(elements), depth)
    decreases elements, 1
  {
    if elements == [] {
      SkipsWord("", depth);
    } else {
      var e := elements[0];
      assert ElementOk(e);
      SkipsWord(e.before, depth);
      SkipsValue(e.value, depth);
      SkipsWord(e.after, depth);
      SkipsWord(Comma(elements), depth);
      SkipsElements(elements[1..], depth);
      SkipsAll(ElementParts(elements), depth);
    }
  }

  lemma {:induction false} SkipsFields(fields: seq<Field>, depth: int)
    requires depth >= 2 && forall f :: f in fields ==> FieldOk(f)
    ensures Skips(PrintFields(fields), depth)
    decreases fields, 1
  {
    if fields == [] {
      SkipsWord("", depth);
    } else {
      var f := fields[0];
      assert FieldOk(f);
      SkipsWord(f.before, depth);
      SkipsString(f.name, depth);
      SkipsWord(f.middle, depth);
      SkipsValue(f.value, depth);
      SkipsWord(f.after, depth);
      SkipsWord(Comma(fields), depth);
      SkipsFields(fields[1..], depth);
      SkipsAll(FieldParts(fields), depth);
    }
  }

  // ------------------------------------------------- what there is to find

  /** The value of an element, found if it is a string. */
  lemma FindsValue(v: Value, rest: string, at: nat)
    requires Ok(v)
    ensures Found(Print(v) + rest, at, 1) == (if v.Text? then {at} else {}) + Found(rest, at + |Print(v)|, 1)
  {
    if v.Text? {
      FindsString(v.body, rest, at, 1);
    } else {
      SkipsValue(v, 1);
    }
  }

  /** One element, up to where the next begins. */
  lemma FindsElement(e: Element, comma: string, later: string, at: nat)
    requires ElementOk(e) && Dull(comma)
    ensures Found(e.before + (Print(e.value) + (e.after + (comma + later))), at, 1)
         == (if e.value.Text? then {at + |e.before|} else {})
            + Found(later, at + |e.before| + |Print(e.value)| + |e.after| + |comma|, 1)
  {
    SkipsDull(e.before, Print(e.value) + (e.after + (comma + later)), at, 1);
    FindsValue(e.value, e.after + (comma + later), at + |e.before|);
    SkipsDull(e.after, comma + later, at + |e.before| + |Print(e.value)|, 1);
    SkipsDull(comma, later, at + |e.before| + |Print(e.value)| + |e.after|, 1);
  }

  lemma {:induction false} FindsElements(elements: seq<Element>, rest: string, at: nat)
    requires forall e :: e in elements ==> ElementOk(e)
    ensures Found(PrintElements(elements) + rest, at, 1)
         == DirectStarts(elements, at) + Found(rest, at + |PrintElements(elements)|, 1)
    decreases |elements|
  {
    if elements == [] {
      assert PrintElements(elements) + rest == rest;
    } else {
      var e, comma, later := elements[0], Comma(elements), PrintElements(elements[1..]);
      assert ElementOk(e);
      PrintedElements(elements, rest);
      FindsElement(e, comma, later + rest, at);
      FindsElements(elements[1..], rest, at + |e.before| + |Print(e.value)| + |e.after| + |comma|);
    }
  }

  lemma PrintedElements(elements: seq<Element>, rest: string)
    requires elements != []
    ensures var e, comma, later := elements[0], Comma(elements), PrintElements(elements[1..]);
      && PrintElements(elements) + rest == e.before + (Print(e.value) + (e.after + (comma + (later + rest))))
      && |PrintElements(elements)| == |e.before| + |Print(e.value)| + |e.after| + |comma| + |later|
  {
    var e, comma, later := elements[0], Comma(elements), PrintElements(elements[1..]);
    FiveParts(e.before, Print(e.value), e.after, comma, later);
    Regroup(e.before, Print(e.value), e.after, comma, later, rest);
  }

  lemma FiveParts(a: string, b: string, c: string, d: string, e: string)
    ensures Joined([a, b, c, d, e]) == a + (b + (c + (d + e)))
  {
    assert Joined([e]) == e + Joined([]) == e;
    assert [d, e][1..] == [e] && [c, d, e][1..] == [d, e] && [b, c, d, e][1..] == [c, d, e];
    assert [a, b, c, d, e][1..] == [b, c, d, e];
    assert Joined([d, e]) == d + e;
    assert Joined([c, d, e]) == c + (d + e);
    assert Joined([b, c, d, e]) == b + (c + (d + e));
  }

  lemma Regroup(a: string, b: string, c: string, d: string, e: string, rest: string)
    ensures a + (b + (c + (d + e))) + rest == a + (b + (c + (d + (e + rest))))
  {
    assert a + (b + (c + (d + e))) + rest == a + ((b + (c + (d + e))) + rest);
    assert (b + (c + (d + e))) + rest == b + ((c + (d + e)) + rest);
    assert (c + (d + e)) + rest == c + ((d + e) + rest);
    assert (d + e) + rest == d + (e + rest);
  }

  /** On the printed form of any array the scan finds exactly its direct strings. */
  lemma FindsDirectStrings(elements: seq<Element>, blank: string, at: nat)
    requires Ok(Array(elements, blank))
    ensures Found(Print(Array(elements, blank)), at, 0) == DirectStarts(elements, at + 1)
  {
    var tail := blank + [']'];
    assert PrintElements(elements) + blank + [']'] == PrintElements(elements) + tail;
    BracketCounts('[', PrintElements(elements) + tail, at, 0);
    FindsElements(elements, tail, at + 1);
    SkipsDull(blank, [']'], at + 1 + |PrintElements(elements)|, 1);
    assert [']'] + "" == [']'];
    BracketCounts(']', "", at + 1 + |PrintElements(elements)| + |blank|, 1);
  }

  /** The inner loop: past the closing quote of the string that opens at i. */
  method AfterString(input: string, i: nat, end: nat) returns (next: nat)
    requires i < end <= |input|
    ensures next == i + SkipString(input[i..end], 1) + 1
  {
    ghost var text := input[i..end];
    next := i + 1;
    while next < end && input[next] != '"'
      invariant i < next
      invariant SkipString(text, next - i) == SkipString(text, 1)
      decreases end - next
    {
      assert text[next - i] == input[next];
      if input[next] == '\\' {
        next := next + 1;
      }
      next := next + 1;
    }
    assert next < end ==> text[next - i] == input[next];
    next := next + 1;
  }

  /** The loop of directArrayStringStarts. */
  method ScanArray(input: string, start: nat, end: nat) returns (starts: set<nat>)
    requires start <= end <= |input|
    ensures starts == Found(input[start..end], start, 0)
  {
    starts := {};
    var depth, i := 0, start;
    while i < end
      invariant start <= i
      invariant starts + (if i <= end then Found(input[i..end], i, depth) else {}) == Found(input[start..end], start, 0)
      decreases end - i
    {
      ghost var text := input[i..end];
      assert text[1..] == input[i + 1..end];
      if input[i] == '[' || input[i] == '{' {
        depth := depth + 1;
        i := i + 1;
      } else if input[i] == ']' || input[i] == '}' {
        depth := depth - 1;
        i := i + 1;
      } else if input[i] == '"' {
        if depth == 1 {
          starts := starts + {i};
        }
        var next := AfterString(input, i, end);
        assert next <= end ==> text[next - i..] == input[next..end];
        i := next;
      } else {
        i := i + 1;
      }
    }
  }

  /** directArrayStringStarts */
  method DirectArrayStringStarts(input: string, start: nat, end: nat) returns (starts: set<nat>)
    requires start <= end <= |input|
    ensures starts == Found(input[start..end], start, 0)
    ensures forall elements, blank ::
      Ok(Array(elements, blank)) && input[start..end] == Print(Array(elements, blank)) ==>
        starts == DirectStarts(elements, start + 1)
  {
    starts := ScanArray(input, start, end);
    forall elements, blank | Ok(Array(elements, blank)) && input[start..end] == Print(Array(elements, blank))
      ensures starts == DirectStarts(elements, start + 1)
    {
      FindsDirectStrings(elements, blank, start);
    }
  }
}
