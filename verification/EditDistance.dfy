// Levenshtein distance of internal/cli/suggest.go: a recursive definition, the
// proof that it is the least number of one-character edits and a metric, and
// the two-row in-place dynamic program that computes it.
module EditDistance {

  function Min3(x: int, y: int, z: int): int {
    if x <= y && x <= z then x else if y <= z then y else z
  }

  function Cost<T(==)>(x: T, y: T): nat {
    if x == y then 0 else 1
  }

  function Front<T>(s: seq<T>): seq<T>
    requires s != []
  {
    s[..|s| - 1]
  }

  function Last<T>(s: seq<T>): T
    requires s != []
  {
    s[|s| - 1]
  }

  /** The Levenshtein recurrence, read from the ends of the two strings. */
  function Distance<T(==)>(a: seq<T>, b: seq<T>): nat
    decreases |a| + |b|
  {
    if a == [] then |b|
    else if b == [] then |a|
    else
      Min3(Distance(Front(a), b) + 1,
           Distance(a, Front(b)) + 1,
           Distance(Front(a), Front(b)) + Cost(Last(a), Last(b)))
  }

  // ---------------------------------------------------------------- metric

  lemma {:induction false} AtLeastLengthDifference<T>(a: seq<T>, b: seq<T>)
    ensures |a| - |b| <= Distance(a, b)
    ensures |b| - |a| <= Distance(a, b)
    decreases |a| + |b|
  {
    if a != [] && b != [] {
      AtLeastLengthDifference(Front(a), b);
      AtLeastLengthDifference(a, Front(b));
      AtLeastLengthDifference(Front(a), Front(b));
    }
  }

  lemma {:induction false} Symmetric<T>(a: seq<T>, b: seq<T>)
    ensures Distance(a, b) == Distance(b, a)
    decreases |a| + |b|
  {
    if a != [] && b != [] {
      Symmetric(Front(a), b);
      Symmetric(a, Front(b));
      Symmetric(Front(a), Front(b));
    }
  }

  lemma {:induction false} ZeroIffEqual<T>(a: seq<T>, b: seq<T>)
    ensures Distance(a, b) == 0 <==> a == b
    decreases |a| + |b|
  {
    if a != [] && b != [] {
      ZeroIffEqual(Front(a), Front(b));
      assert a == Front(a) + [Last(a)] && b == Front(b) + [Last(b)];
    }
  }

  lemma {:induction false} AtMostBothLengths<T>(a: seq<T>, b: seq<T>)
    ensures Distance(a, b) <= |a| + |b|
    decreases |a| + |b|
  {
    if a != [] && b != [] {
      AtMostBothLengths(Front(a), b);
    }
  }

  /** Distance takes one of its three branches; the caller names which. */
  predicate Deletes<T(==)>(a: seq<T>, b: seq<T>)
    requires a != [] && b != []
  {
    Distance(a, b) == Distance(Front(a), b) + 1
  }

  predicate Inserts<T(==)>(a: seq<T>, b: seq<T>)
    requires a != [] && b != []
  {
    Distance(a, b) == Distance(a, Front(b)) + 1
  }

  lemma {:induction false} Triangle<T>(a: seq<T>, b: seq<T>, c: seq<T>)
    ensures Distance(a, c) <= Distance(a, b) + Distance(b, c)
    decreases |a| + |b| + |c|
  {
    if a == [] {
      AtLeastLengthDifference(b, c);
    } else if c == [] {
      AtLeastLengthDifference(a, b);
    } else if b == [] {
      AtMostBothLengths(a, c);
    } else if Deletes(a, b) {
      Triangle(Front(a), b, c);
    } else if Inserts(b, c) {
      Triangle(a, b, Front(c));
    } else if Deletes(b, c) {
      if Inserts(a, b) {
        Triangle(a, Front(b), c);
      } else {
        Triangle(Front(a), Front(b), c);
      }
    } else if Inserts(a, b) {
      Triangle(a, Front(b), Front(c));
    } else {
      Triangle(Front(a), Front(b), Front(c));
    }
  }

  // ---------------------------------------- least number of single edits

  /** t is s with one character deleted, inserted or replaced, anywhere. */
  ghost predicate OneEdit<T(!new)>(s: seq<T>, t: seq<T>)
  {
    || (exists i: nat :: i < |s| && t == s[..i] + s[i + 1..])
    || (exists i: nat :: i < |t| && s == t[..i] + t[i + 1..])
    || (exists i: nat :: i < |s| == |t| && t == s[i := t[i]])
  }

  /** chain leads from a to b, each string one edit away from the previous. */
  ghost predicate EditChain<T(!new)>(chain: seq<seq<T>>, a: seq<T>, b: seq<T>)
  {
    && chain != []
    && chain[0] == a
    && chain[|chain| - 1] == b
    && forall i :: 0 < i < |chain| ==> OneEdit(chain[i - 1], chain[i])
  }

  lemma {:induction false} CommonSuffix<T>(a: seq<T>, b: seq<T>, suffix: seq<T>)
    ensures Distance(a + suffix, b + suffix) <= Distance(a, b)
    decreases |suffix|
  {
    if suffix == [] {
      assert a + suffix == a && b + suffix == b;
    } else {
      CommonSuffix(a, b, Front(suffix));
      assert Front(a + suffix) == a + Front(suffix);
      assert Front(b + suffix) == b + Front(suffix);
    }
  }

  lemma OneDeletionCostsOne<T>(s: seq<T>, i: nat)
    requires i < |s|
    ensures Distance(s, s[..i] + s[i + 1..]) <= 1
  {
    var front, back := s[..i], s[i + 1..];
    LastDroppedCostsOne(front, s[i]);
    CommonSuffix(front + [s[i]], front, back);
    ReplacedIsSpliced(s, i, s[i]);
    assert s[i := s[i]] == s;
  }

  lemma LastDroppedCostsOne<T>(front: seq<T>, x: T)
    ensures Distance(front + [x], front) <= 1
  {
    ZeroIffEqual(front, front);
    assert Front(front + [x]) == front;
  }

  lemma LastReplacedCostsOne<T>(front: seq<T>, x: T, y: T)
    ensures Distance(front + [x], front + [y]) <= 1
  {
    ZeroIffEqual(front, front);
    assert Front(front + [x]) == front == Front(front + [y]);
  }

  lemma ReplacedIsSpliced<T>(s: seq<T>, i: nat, x: T)
    requires i < |s|
    ensures s[i := x] == s[..i] + [x] + s[i + 1..]
  {
  }

  lemma OneReplacementCostsOne<T>(s: seq<T>, i: nat, x: T)
    requires i < |s|
    ensures Distance(s, s[i := x]) <= 1
  {
    var front, back := s[..i], s[i + 1..];
    LastReplacedCostsOne(front, s[i], x);
    CommonSuffix(front + [s[i]], front + [x], back);
    ReplacedIsSpliced(s, i, s[i]);
    ReplacedIsSpliced(s, i, x);
    assert s[i := s[i]] == s;
  }

  lemma OneEditCostsOne<T(!new)>(s: seq<T>, t: seq<T>)
    requires OneEdit(s, t)
    ensures Distance(s, t) <= 1
  {
    if i: nat :| i < |s| && t == s[..i] + s[i + 1..] {
      OneDeletionCostsOne(s, i);
    } else if i: nat :| i < |t| && s == t[..i] + t[i + 1..] {
      OneDeletionCostsOne(t, i);
      Symmetric(s, t);
    } else {
      var i: nat :| i < |s| == |t| && t == s[i := t[i]];
      OneReplacementCostsOne(s, i, t[i]);
    }
  }

  /** No sequence of single edits from a to b is shorter than the distance. */
  lemma {:induction false} NoShorterChain<T(!new)>(chain: seq<seq<T>>, a: seq<T>, b: seq<T>)
    requires EditChain(chain, a, b)
    ensures Distance(a, b) <= |chain| - 1
    decreases |chain|
  {
    if |chain| == 1 {
      ZeroIffEqual(a, b);
    } else {
      var c := chain[|chain| - 2];
      NoShorterChain(Front(chain), a, c);
      OneEditCostsOne(c, b);
      Triangle(a, c, b);
    }
  }

  lemma DeletedUnderAppend<T>(s: seq<T>, i: nat, x: T)
    requires i < |s|
    ensures s[..i] + s[i + 1..] + [x] == (s + [x])[..i] + (s + [x])[i + 1..]
  {
    assert (s + [x])[..i] == s[..i];
    assert (s + [x])[i + 1..] == s[i + 1..] + [x];
  }

  lemma OneEditUnderAppend<T(!new)>(s: seq<T>, t: seq<T>, x: T)
    requires OneEdit(s, t)
    ensures OneEdit(s + [x], t + [x])
  {
    if i: nat :| i < |s| && t == s[..i] + s[i + 1..] {
      DeletedUnderAppend(s, i, x);
    } else if i: nat :| i < |t| && s == t[..i] + t[i + 1..] {
      DeletedUnderAppend(t, i, x);
    } else {
      var i: nat :| i < |s| == |t| && t == s[i := t[i]];
      assert t + [x] == (s + [x])[i := (t + [x])[i]];
    }
  }

  lemma ChainUnderAppend<T(!new)>(chain: seq<seq<T>>, a: seq<T>, b: seq<T>, x: T) returns (longer: seq<seq<T>>)
    requires EditChain(chain, a, b)
    ensures EditChain(longer, a + [x], b + [x]) && |longer| == |chain|
  {
    longer := seq(|chain|, i requires 0 <= i < |chain| => chain[i] + [x]);
    forall i | 0 < i < |chain| ensures OneEdit(longer[i - 1], longer[i]) {
      OneEditUnderAppend(chain[i - 1], chain[i], x);
    }
  }

  lemma OneEditAtEnd<T(!new)>(s: seq<T>, x: T, y: T)
    ensures OneEdit(s + [x], s)
    ensures OneEdit(s, s + [x])
    ensures OneEdit(s + [x], s + [y])
  {
    var i := |s|;
    assert s == (s + [x])[..i] + (s + [x])[i + 1..];
    assert s + [y] == (s + [x])[i := (s + [y])[i]];
  }

  lemma ChainFrom<T(!new)>(s: seq<T>, chain: seq<seq<T>>, a: seq<T>, b: seq<T>)
    requires EditChain(chain, a, b) && OneEdit(s, a)
    ensures EditChain([s] + chain, s, b)
  {
  }

  lemma ChainTo<T(!new)>(chain: seq<seq<T>>, a: seq<T>, b: seq<T>, t: seq<T>)
    requires EditChain(chain, a, b) && OneEdit(b, t)
    ensures EditChain(chain + [t], a, t)
  {
  }

  /** The distance is attained: some sequence of that many edits exists. */
  lemma {:induction false} ShortestChain<T(!new)>(a: seq<T>, b: seq<T>) returns (chain: seq<seq<T>>)
    ensures EditChain(chain, a, b)
    ensures |chain| == Distance(a, b) + 1
    decreases |a| + |b|
  {
    if a == [] && b == [] {
      chain := [[]];
    } else if b == [] || (a != [] && Deletes(a, b)) {
      chain := ShortestChain(Front(a), b);
      chain := ChainByDeletion(chain, a, b);
    } else if a == [] || Inserts(a, b) {
      chain := ShortestChain(a, Front(b));
      chain := ChainByInsertion(chain, a, b);
    } else {
      chain := ShortestChainByReplacement(a, b);
    }
  }

  lemma ChainByDeletion<T(!new)>(rest: seq<seq<T>>, a: seq<T>, b: seq<T>) returns (chain: seq<seq<T>>)
    requires a != [] && EditChain(rest, Front(a), b)
    ensures EditChain(chain, a, b) && |chain| == |rest| + 1
  {
    assert a == Front(a) + [Last(a)];
    OneEditAtEnd(Front(a), Last(a), Last(a));
    ChainFrom(a, rest, Front(a), b);
    chain := [a] + rest;
  }

  lemma ChainByInsertion<T(!new)>(rest: seq<seq<T>>, a: seq<T>, b: seq<T>) returns (chain: seq<seq<T>>)
    requires b != [] && EditChain(rest, a, Front(b))
    ensures EditChain(chain, a, b) && |chain| == |rest| + 1
  {
    assert b == Front(b) + [Last(b)];
    OneEditAtEnd(Front(b), Last(b), Last(b));
    ChainTo(rest, a, Front(b), b);
    chain := rest + [b];
  }

  lemma {:induction false} ShortestChainByReplacement<T(!new)>(a: seq<T>, b: seq<T>) returns (chain: seq<seq<T>>)
    requires a != [] && b != []
    ensures EditChain(chain, a, b)
    ensures |chain| == Distance(Front(a), Front(b)) + Cost(Last(a), Last(b)) + 1
    decreases |a| + |b|, 0
  {
    assert a == Front(a) + [Last(a)] && b == Front(b) + [Last(b)];
    chain := ShortestChain(Front(a), Front(b));
    chain := ChainUnderAppend(chain, Front(a), Front(b), Last(a));
    if Last(a) != Last(b) {
      OneEditAtEnd(Front(b), Last(a), Last(b));
      ChainTo(chain, a, Front(b) + [Last(a)], b);
      chain := chain + [b];
    }
  }

  // ------------------------------------------------- two-row computation

  /** Entry j of row i of the table: the distance between two prefixes. */
  function Cell<T(==)>(a: seq<T>, b: seq<T>, i: nat, j: nat): nat
    requires i <= |a| && j <= |b|
  {
    Distance(a[..i], b[..j])
  }

  lemma CellStep<T>(a: seq<T>, b: seq<T>, i: nat, j: nat)
    requires 0 < i <= |a| && 0 < j <= |b|
    ensures Cell(a, b, i, j)
         == Min3(Cell(a, b, i - 1, j) + 1,
                 Cell(a, b, i, j - 1) + 1,
                 Cell(a, b, i - 1, j - 1) + Cost(a[i - 1], b[j - 1]))
  {
    assert Front(a[..i]) == a[..i - 1] && Front(b[..j]) == b[..j - 1];
  }

  method EditDistance<T(==)>(a: seq<T>, b: seq<T>) returns (distance: int)
    ensures distance == Distance(a, b)
  {
    var prev := new int[|b| + 1](j => j);
    var curr := new int[|b| + 1](_ => 0);
    for i := 1 to |a| + 1
      invariant prev != curr && prev.Length == curr.Length == |b| + 1
      invariant fresh(prev) && fresh(curr)
      invariant forall j :: 0 <= j <= |b| ==> prev[j] == Cell(a, b, i - 1, j)
    {
      curr[0] := i;
      for j := 1 to |b| + 1
        invariant prev != curr && prev.Length == curr.Length == |b| + 1
        invariant forall k :: 0 <= k <= |b| ==> prev[k] == Cell(a, b, i - 1, k)
        invariant forall k :: 0 <= k < j ==> curr[k] == Cell(a, b, i, k)
      {
        var cost := 1;
        if a[i - 1] == b[j - 1] {
          cost := 0;
        }
        CellStep(a, b, i, j);
        curr[j] := Min3(prev[j] + 1, curr[j - 1] + 1, prev[j - 1] + cost);
      }
      prev, curr := curr, prev;
    }
    assert a[..|a|] == a && b[..|b|] == b;
    return prev[|b|];
  }
}
