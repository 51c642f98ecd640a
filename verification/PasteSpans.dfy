// Replacing the spans found to be credentials (applyPasteSpans of
// internal/redact/paste_credentials.go): greedy, leftmost and longest first.
module PasteSpans {

  /** absorb: the span may replace markers already inside it. */
  datatype Span = Span(start: int, end: int, absorb: bool)

  /** What a span covers. */
  datatype Range = Range(start: int, end: int)

  const MARKER := "<REDACTED:SECRET>"
  const MARKER_START := "<REDACTED"

  predicate OccursAt(text: string, part: string, i: nat) {
    i + |part| <= |text| && text[i..i + |part|] == part
  }

  predicate Contains(text: string, part: string) {
    exists i: nat :: i <= |text| && OccursAt(text, part, i)
  }

  /** A span the scan may replace: in range, not empty, and free of markers. */
  predicate Usable(text: string, s: Span) {
    0 <= s.start < s.end <= |text| && (s.absorb || !Contains(text[s.start..s.end], MARKER_START))
  }

  lemma SliceOfSlice(text: string, start: nat, end: nat, i: nat, j: nat)
    requires start <= end <= |text| && i <= j <= end - start
    ensures text[start..end][i..j] == text[start + i..start + j]
  {
    var inner, outer := text[start..end][i..j], text[start + i..start + j];
    forall k | 0 <= k < j - i ensures inner[k] == outer[k] {
      assert inner[k] == text[start..end][i + k] == text[start + i + k];
    }
  }

  /** Which spans these are, by what they cover of the text. */
  lemma UsableExactly(text: string, s: Span)
    ensures Usable(text, s) <==>
      && 0 <= s.start < s.end <= |text|
      && (s.absorb || forall i, j :: s.start <= i <= j <= s.end ==> text[i..j] != "<REDACTED")
  {
    if 0 <= s.start < s.end <= |text| {
      var covered := text[s.start..s.end];
      if i: nat :| i <= |covered| && OccursAt(covered, MARKER_START, i) {
        SliceOfSlice(text, s.start, s.end, i, i + |MARKER_START|);
      }
      forall i, j | s.start <= i <= j <= s.end && text[i..j] == "<REDACTED" ensures Contains(covered, MARKER_START) {
        SliceOfSlice(text, s.start, s.end, i - s.start, j - s.start);
        assert OccursAt(covered, MARKER_START, i - s.start);
      }
    }
  }

  predicate Before(a: Span, b: Span) {
    a.start < b.start || (a.start == b.start && a.end >= b.end)
  }

  predicate Ordered(spans: seq<Span>) {
    forall i, j :: 0 <= i < j < |spans| ==> Before(spans[i], spans[j])
  }

  // ----------------------------------------------------- the chosen ranges

  /** The leftmost usable range from a position on, and of those the longest. */
  ghost predicate Best(text: string, spans: set<Span>, from: int, r: Range) {
    && (exists s :: s in spans && Usable(text, s) && from <= s.start && s.start == r.start && s.end == r.end)
    && (forall s :: s in spans && Usable(text, s) && from <= s.start ==>
          r.start < s.start || (r.start == s.start && s.end <= r.end))
  }

  lemma BestIsUnique(text: string, spans: set<Span>, from: int, r: Range, r': Range)
    requires Best(text, spans, from, r) && Best(text, spans, from, r')
    ensures r == r'
  {
  }

  /** The ranges to replace, as the set of spans alone decides them: again and again
      the best one that starts where the last has ended, or later. */
  ghost function Chosen(text: string, spans: set<Span>, from: nat): seq<Range>
    decreases if from <= |text| then |text| - from else 0
  {
    if r :| Best(text, spans, from, r) then [r] + Chosen(text, spans, r.end) else []
  }

  /** Ranges from a position on, apart from each other and in order. */
  predicate Apart(text: string, ranges: seq<Range>, from: int)
    decreases |ranges|
  {
    ranges != [] ==>
      from <= ranges[0].start < ranges[0].end <= |text| && Apart(text, ranges[1..], ranges[0].end)
  }

  predicate Inside(ranges: seq<Range>, i: int) {
    exists r :: r in ranges && r.start <= i < r.end
  }

  predicate StartsAt(ranges: seq<Range>, i: int) {
    exists r :: r in ranges && r.start == i
  }

  /** What one byte becomes: a marker where a range starts, nothing in the rest of
      the range, and itself anywhere else. */
  function Piece(text: string, ranges: seq<Range>, marker: string, i: nat): string
    requires i < |text|
  {
    if StartsAt(ranges, i) then marker else if Inside(ranges, i) then "" else [text[i]]
  }

  function Render(text: string, ranges: seq<Range>, marker: string, i: nat): string
    decreases |text| - i
  {
    if i >= |text| then "" else Piece(text, ranges, marker, i) + Render(text, ranges, marker, i + 1)
  }

  // -------------------------------------------- what the choice guarantees

  lemma {:induction false} ChosenApart(text: string, spans: set<Span>, from: nat)
    ensures Apart(text, Chosen(text, spans, from), from)
    decreases if from <= |text| then |text| - from else 0
  {
    var chosen := Chosen(text, spans, from);
    if chosen != [] {
      ChosenApart(text, spans, chosen[0].end);
      assert chosen[1..] == Chosen(text, spans, chosen[0].end);
    }
  }

  predicate IsFrom(text: string, spans: set<Span>, r: Range) {
    exists s :: s in spans && Usable(text, s) && s.start == r.start && s.end == r.end
  }

  /** Only usable spans are replaced. */
  lemma {:induction false} ChosenAreUsable(text: string, spans: set<Span>, from: nat)
    ensures forall r :: r in Chosen(text, spans, from) ==> IsFrom(text, spans, r)
    decreases if from <= |text| then |text| - from else 0
  {
    var chosen := Chosen(text, spans, from);
    if chosen != [] {
      ChosenAreUsable(text, spans, chosen[0].end);
      assert chosen == [chosen[0]] + Chosen(text, spans, chosen[0].end);
    }
  }

  predicate UsableFrom(text: string, spans: set<Span>, from: int, s: Span) {
    s in spans && Usable(text, s) && from <= s.start
  }

  lemma {:induction false} BestExists(text: string, spans: set<Span>, from: int, some: Span, rest: set<Span>) returns (best: Span)
    requires UsableFrom(text, spans, from, some) && rest <= spans
    requires forall s :: UsableFrom(text, spans, from, s) && s !in rest ==> Before(some, s)
    ensures Best(text, spans, from, Range(best.start, best.end))
    decreases rest
  {
    if s :| s in rest {
      var better := if UsableFrom(text, spans, from, s) && !Before(some, s) then s else some;
      best := BestExists(text, spans, from, better, rest - {s});
    } else {
      best := some;
      forall s | s in spans && Usable(text, s) && from <= s.start
        ensures some.start < s.start || (some.start == s.start && s.end <= some.end)
      {
        assert UsableFrom(text, spans, from, s);
      }
    }
  }

  lemma ChosenHead(text: string, spans: set<Span>, from: nat, s: Span)
    requires UsableFrom(text, spans, from, s)
    ensures Chosen(text, spans, from) != []
    ensures Best(text, spans, from, Chosen(text, spans, from)[0])
  {
    var best := BestExists(text, spans, from, s, spans);
    assert Best(text, spans, from, Range(best.start, best.end));
  }

  /** The first byte of every usable span is replaced, overlapping spans included. */
  lemma {:induction false} ChosenCovers(text: string, spans: set<Span>, from: nat, s: Span)
    requires UsableFrom(text, spans, from, s)
    ensures Inside(Chosen(text, spans, from), s.start)
    decreases |text| - from
  {
    ChosenHead(text, spans, from, s);
    var chosen := Chosen(text, spans, from);
    var r := chosen[0];
    if s.start < r.end {
      assert r in chosen && r.start <= s.start;
    } else {
      ChosenCovers(text, spans, r.end, s);
      var later :| later in Chosen(text, spans, r.end) && later.start <= s.start < later.end;
      assert chosen == [r] + Chosen(text, spans, r.end);
      assert later in chosen;
    }
  }

  // --------------------------------------------------------- rendering

  lemma {:induction false} ApartBounds(text: string, ranges: seq<Range>, from: int)
    requires Apart(text, ranges, from)
    ensures forall r :: r in ranges ==> from <= r.start < r.end <= |text|
    decreases |ranges|
  {
    if ranges != [] {
      ApartBounds(text, ranges[1..], ranges[0].end);
      assert ranges == [ranges[0]] + ranges[1..];
    }
  }

  lemma JoinFirst(text: string, i: nat, j: nat, tail: string)
    requires i < j <= |text|
    ensures [text[i]] + (text[i + 1..j] + tail) == text[i..j] + tail
  {
    assert text[i..j] == [text[i]] + text[i + 1..j];
  }

  lemma {:induction false} RenderPlain(text: string, ranges: seq<Range>, marker: string, i: nat, j: nat)
    requires i <= j <= |text| && forall k :: i <= k < j ==> Piece(text, ranges, marker, k) == [text[k]]
    ensures Render(text, ranges, marker, i) == text[i..j] + Render(text, ranges, marker, j)
    decreases j - i
  {
    var tail := Render(text, ranges, marker, j);
    if i < j {
      RenderPlain(text, ranges, marker, i + 1, j);
      assert Piece(text, ranges, marker, i) == [text[i]];
      JoinFirst(text, i, j, tail);
    } else {
      assert text[i..j] + tail == tail;
    }
  }

  lemma {:induction false} RenderHidden(text: string, ranges: seq<Range>, marker: string, i: nat, j: nat)
    requires i <= j <= |text| && forall k :: i <= k < j ==> |Piece(text, ranges, marker, k)| == 0
    ensures Render(text, ranges, marker, i) == Render(text, ranges, marker, j)
    decreases j - i
  {
    if i < j {
      RenderHidden(text, ranges, marker, i + 1, j);
      assert |Piece(text, ranges, marker, i)| == 0;
    }
  }

  lemma PieceLater(text: string, first: Range, rest: seq<Range>, marker: string, i: nat)
    requires first.start < first.end <= i < |text|
    ensures Piece(text, [first] + rest, marker, i) == Piece(text, rest, marker, i)
  {
    assert forall r :: r in [first] + rest <==> r == first || r in rest;
    assert StartsAt([first] + rest, i) == StartsAt(rest, i);
    assert Inside([first] + rest, i) == Inside(rest, i);
  }

  lemma {:induction false} RenderLater(text: string, first: Range, rest: seq<Range>, marker: string, i: nat)
    requires first.start < first.end <= i
    ensures Render(text, [first] + rest, marker, i) == Render(text, rest, marker, i)
    decreases |text| - i
  {
    if i < |text| {
      RenderLater(text, first, rest, marker, i + 1);
      PieceLater(text, first, rest, marker, i);
    }
  }

  /** The bytes up to the end of the first range. */
  lemma PieceEarly(text: string, first: Range, rest: seq<Range>, marker: string, from: nat, i: nat)
    requires Apart(text, [first] + rest, from) && from <= i < first.end
    ensures Piece(text, [first] + rest, marker, i)
         == if i < first.start then [text[i]] else if i == first.start then marker else ""
  {
    var ranges := [first] + rest;
    assert ranges[1..] == rest;
    ApartBounds(text, rest, first.end);
    assert forall r :: r in ranges <==> r == first || r in rest;
    assert StartsAt(ranges, i) <==> i == first.start;
    assert Inside(ranges, i) <==> first.start <= i;
  }

  /** One step of the builder: the bytes up to the next range, and its marker. */
  lemma RenderNext(text: string, first: Range, rest: seq<Range>, marker: string, i: nat)
    requires Apart(text, [first] + rest, i)
    ensures Render(text, [first] + rest, marker, i)
         == text[i..first.start] + (marker + Render(text, rest, marker, first.end))
  {
    var ranges := [first] + rest;
    assert i <= first.start < first.end <= |text|;
    forall k | i <= k < first.start ensures Piece(text, ranges, marker, k) == [text[k]] {
      PieceEarly(text, first, rest, marker, i, k);
    }
    RenderPlain(text, ranges, marker, i, first.start);
    RenderMarker(text, first, rest, marker, i);
  }

  lemma RenderMarker(text: string, first: Range, rest: seq<Range>, marker: string, i: nat)
    requires Apart(text, [first] + rest, i)
    ensures Render(text, [first] + rest, marker, first.start) == marker + Render(text, rest, marker, first.end)
  {
    assert i <= first.start < first.end <= |text|;
    PieceEarly(text, first, rest, marker, i, first.start);
    RenderInside(text, first, rest, marker, i);
  }

  lemma RenderInside(text: string, first: Range, rest: seq<Range>, marker: string, i: nat)
    requires Apart(text, [first] + rest, i)
    ensures Render(text, [first] + rest, marker, first.start + 1) == Render(text, rest, marker, first.end)
  {
    assert i <= first.start < first.end <= |text|;
    forall k | first.start + 1 <= k < first.end ensures |Piece(text, [first] + rest, marker, k)| == 0 {
      PieceEarly(text, first, rest, marker, i, k);
    }
    RenderHidden(text, [first] + rest, marker, first.start + 1, first.end);
    RenderLater(text, first, rest, marker, first.end);
  }

  lemma RenderRest(text: string, marker: string, i: nat)
    requires i <= |text|
    ensures Render(text, [], marker, i) == text[i..]
  {
    forall k | i <= k < |text| ensures Piece(text, [], marker, k) == [text[k]] {
    }
    RenderPlain(text, [], marker, i, |text|);
    assert text[i..|text|] == text[i..];
  }

  // ------------------------------------------------------- the method

  lemma InsertKeepsOrder(s: Span, sorted: seq<Span>, i: nat)
    requires Ordered(sorted) && i <= |sorted|
    requires forall k :: 0 <= k < i ==> Before(sorted[k], s)
    requires i < |sorted| ==> Before(s, sorted[i])
    ensures Ordered(sorted[..i] + [s] + sorted[i..])
  {
    var all := sorted[..i] + [s] + sorted[i..];
    forall k, l | 0 <= k < l < |all| ensures Before(all[k], all[l]) {
      if i < k {
        assert all[k] == sorted[k - 1] && all[l] == sorted[l - 1];
      } else if i < l {
        assert all[l] == sorted[l - 1];
      }
    }
  }

  lemma InsertKeepsSpans(s: Span, sorted: seq<Span>, i: nat)
    requires i <= |sorted|
    ensures multiset(sorted[..i] + [s] + sorted[i..]) == multiset(sorted) + multiset{s}
  {
    assert sorted == sorted[..i] + sorted[i..];
  }

  /** Any sort by start, then by end from the greatest: ties are left open. */
  method SortSpans(spans: seq<Span>) returns (sorted: seq<Span>)
    ensures Ordered(sorted) && multiset(sorted) == multiset(spans)
  {
    sorted := [];
    for k := 0 to |spans|
      invariant Ordered(sorted) && multiset(sorted) == multiset(spans[..k])
    {
      var s := spans[k];
      var i := 0;
      while i < |sorted| && Before(sorted[i], s)
        invariant i <= |sorted| && forall j :: 0 <= j < i ==> Before(sorted[j], s)
      {
        i := i + 1;
      }
      InsertKeepsOrder(s, sorted, i);
      InsertKeepsSpans(s, sorted, i);
      sorted := sorted[..i] + [s] + sorted[i..];
      assert spans[..k + 1] == spans[..k] + [s];
    }
    assert spans[..|spans|] == spans;
  }

  lemma SameMembers(a: seq<Span>, b: seq<Span>)
    requires multiset(a) == multiset(b)
    ensures forall s :: s in a <==> s in b
  {
    forall s ensures s in a <==> s in b {
      assert s in a <==> s in multiset(a);
      assert s in b <==> s in multiset(b);
    }
  }

  ghost function SpanSet(spans: seq<Span>): set<Span> {
    set s | s in spans
  }

  /** Every usable span from last on is among the spans not yet looked at. */
  ghost predicate Pending(text: string, all: set<Span>, sorted: seq<Span>, k: nat, last: int)
    requires k <= |sorted|
  {
    forall s :: UsableFrom(text, all, last, s) ==> s in sorted[k..]
  }

  lemma NextIsBest(text: string, all: set<Span>, sorted: seq<Span>, k: nat, last: nat)
    requires k < |sorted| && Ordered(sorted) && Pending(text, all, sorted, k, last)
    requires UsableFrom(text, all, last, sorted[k])
    ensures Chosen(text, all, last)
         == [Range(sorted[k].start, sorted[k].end)] + Chosen(text, all, sorted[k].end)
  {
    var s := sorted[k];
    forall x | x in all && Usable(text, x) && last <= x.start
      ensures s.start < x.start || (s.start == x.start && x.end <= s.end)
    {
      assert UsableFrom(text, all, last, x) && x in sorted[k..];
      var j :| 0 <= j < |sorted[k..]| && sorted[k..][j] == x;
      assert x == sorted[k + j];
      assert j == 0 || Before(s, x);
    }
    assert Best(text, all, last, Range(s.start, s.end));
    ChosenHead(text, all, last, s);
    BestIsUnique(text, all, last, Range(s.start, s.end), Chosen(text, all, last)[0]);
  }

  lemma PendingStep(text: string, all: set<Span>, sorted: seq<Span>, k: nat, last: int, last': int)
    requires k < |sorted| && Pending(text, all, sorted, k, last) && last <= last'
    requires !UsableFrom(text, all, last', sorted[k])
    ensures Pending(text, all, sorted, k + 1, last')
  {
    forall s | UsableFrom(text, all, last', s) ensures s in sorted[k + 1..] {
      assert UsableFrom(text, all, last, s) && s in sorted[k..];
      assert sorted[k..] == [sorted[k]] + sorted[k + 1..];
    }
  }

  /** applyPasteSpans. How the sort breaks ties makes no difference. */
  method ApplyPasteSpans(text: string, spans: seq<Span>) returns (result: string, count: nat)
    ensures result == Render(text, Chosen(text, SpanSet(spans), 0), "<REDACTED:SECRET>", 0)
    ensures count == |Chosen(text, SpanSet(spans), 0)|
  {
    ghost var all, chosen := SpanSet(spans), Chosen(text, SpanSet(spans), 0);
    ChosenApart(text, all, 0);
    if spans == [] {
      RenderRest(text, MARKER, 0);
      return text, 0;
    }
    var sorted := SortSpans(spans);
    SameMembers(sorted, spans);
    var built, last := "", 0;
    count := 0;
    for k := 0 to |sorted|
      invariant 0 <= last <= |text| && count <= |chosen|
      invariant Pending(text, all, sorted, k, last)
      invariant chosen[count..] == Chosen(text, all, last)
      invariant built + Render(text, Chosen(text, all, last), MARKER, last) == Render(text, chosen, MARKER, 0)
      invariant count == 0 ==> last == 0 && built == ""
    {
      var span := sorted[k];
      if span.start < last || span.end <= span.start || span.end > |text|
         || (!span.absorb && Contains(text[span.start..span.end], MARKER_START)) {
        PendingStep(text, all, sorted, k, last, last);
      } else {
        NextIsBest(text, all, sorted, k, last);
        ChosenApart(text, all, last);
        RenderNext(text, Range(span.start, span.end), Chosen(text, all, span.end), MARKER, last);
        PendingStep(text, all, sorted, k, last, span.end);
        assert chosen[count + 1..] == chosen[count..][1..];
        Regroup(built, text[last..span.start], MARKER, Render(text, Chosen(text, all, span.end), MARKER, span.end));
        built := built + text[last..span.start] + MARKER;
        last := span.end;
        count := count + 1;
      }
    }
    assert sorted[|sorted|..] == [];
    NothingLeft(text, all, last);
    RenderRest(text, MARKER, last);
    if count == 0 {
      return text, 0;
    }
    result := built + text[last..];
  }

  lemma Regroup(a: string, b: string, c: string, d: string)
    ensures a + (b + (c + d)) == a + b + c + d
  {
  }

  lemma NothingLeft(text: string, spans: set<Span>, from: nat)
    requires forall s :: !UsableFrom(text, spans, from, s)
    ensures Chosen(text, spans, from) == []
  {
    if r :| Best(text, spans, from, r) {
      var s :| s in spans && Usable(text, s) && from <= s.start && s.start == r.start && s.end == r.end;
      assert UsableFrom(text, spans, from, s);
    }
  }
}
