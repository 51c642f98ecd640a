// Byte-wise string order and the sorted key lists the diff iterates over.
module SortedKeys {

  /** a < b in Go's string order. */
  predicate Less(a: string, b: string) {
    b != [] && (a == [] || a[0] < b[0] || (a[0] == b[0] && Less(a[1..], b[1..])))
  }

  lemma {:induction false} LessIsStrictOrder(a: string, b: string, c: string)
    ensures !Less(a, a)
    ensures Less(a, b) && Less(b, c) ==> Less(a, c)
  {
    if a != [] {
      if b != [] && c != [] {
        LessIsStrictOrder(a[1..], b[1..], c[1..]);
      } else {
        LessIsStrictOrder(a[1..], [], []);
      }
    }
  }

  lemma {:induction false} LessIsTotal(a: string, b: string)
    ensures a == b || Less(a, b) || Less(b, a)
  {
    if a != [] && b != [] {
      LessIsTotal(a[1..], b[1..]);
      assert a == a[..1] + a[1..] && b == b[..1] + b[1..];
    }
  }

  /** A string is less than those it is a proper prefix of, and otherwise the first
      character that differs decides. */
  lemma {:induction false} LessByFirstDifference(a: string, b: string)
    ensures Less(a, b) <==> a < b || exists i :: 0 <= i < |a| && i < |b| && a[..i] == b[..i] && a[i] < b[i]
  {
    if a != [] && b != [] {
      LessByFirstDifference(a[1..], b[1..]);
      if a[0] == b[0] {
        SameHead(a, b);
      }
    }
  }

  lemma SameHead(a: string, b: string)
    requires a != [] && b != [] && a[0] == b[0]
    ensures a < b <==> a[1..] < b[1..]
    ensures (exists i :: 0 <= i < |a| && i < |b| && a[..i] == b[..i] && a[i] < b[i])
       <==> (exists i :: 0 <= i < |a[1..]| && i < |b[1..]| && a[1..][..i] == b[1..][..i] && a[1..][i] < b[1..][i])
  {
    assert a == a[..1] + a[1..] && b == b[..1] + b[1..];
    if i :| 0 <= i < |a| && i < |b| && a[..i] == b[..i] && a[i] < b[i] {
      assert a[1..][..i - 1] == a[..i][1..] && b[1..][..i - 1] == b[..i][1..];
      assert a[1..][i - 1] < b[1..][i - 1];
    }
    if i :| 0 <= i < |a[1..]| && i < |b[1..]| && a[1..][..i] == b[1..][..i] && a[1..][i] < b[1..][i] {
      assert a[..i + 1] == a[..1] + a[1..][..i] && b[..i + 1] == b[..1] + b[1..][..i];
      assert a[i + 1] < b[i + 1];
    }
  }

  predicate Increasing(s: seq<string>) {
    forall i, j :: 0 <= i < j < |s| ==> Less(s[i], s[j])
  }

  function Elements(s: seq<string>): set<string> {
    set x | x in s
  }

  /** s lists exactly the keys, in increasing order. */
  predicate Lists(s: seq<string>, keys: set<string>) {
    Increasing(s) && Elements(s) == keys
  }

  lemma LastIsNew(keys: seq<string>)
    requires keys != [] && Increasing(keys)
    ensures keys[|keys| - 1] !in Elements(keys[..|keys| - 1])
    ensures Elements(keys) == Elements(keys[..|keys| - 1]) + {keys[|keys| - 1]}
  {
    var front, last := keys[..|keys| - 1], keys[|keys| - 1];
    LessIsStrictOrder(last, [], []);
    assert keys == front + [last];
  }

  function Insert(k: string, s: seq<string>): seq<string> {
    if s == [] || Less(k, s[0]) then [k] + s else [s[0]] + Insert(k, s[1..])
  }

  lemma {:induction false} InsertElements(k: string, s: seq<string>)
    ensures Elements(Insert(k, s)) == Elements(s) + {k}
  {
    if s != [] && !Less(k, s[0]) {
      InsertElements(k, s[1..]);
      assert s == [s[0]] + s[1..];
      assert forall x :: x in Insert(k, s[1..]) <==> x in Elements(Insert(k, s[1..]));
    }
  }

  lemma {:induction false} InsertIncreasing(k: string, s: seq<string>)
    requires Increasing(s) && k !in s
    ensures Increasing(Insert(k, s))
  {
    if s == [] {
    } else if Less(k, s[0]) {
      forall j | 0 <= j < |s| ensures Less(k, s[j]) {
        LessIsStrictOrder(k, s[0], s[j]);
      }
    } else {
      InsertIncreasing(k, s[1..]);
      InsertElements(k, s[1..]);
      LessIsTotal(k, s[0]);
      forall x | x in Insert(k, s[1..]) ensures Less(s[0], x) {
        assert x in Elements(Insert(k, s[1..]));
      }
    }
  }

  /** The keys in increasing order. */
  ghost function Sorted(keys: set<string>): (s: seq<string>)
    ensures Lists(s, keys)
    decreases keys
  {
    if keys == {} then []
    else
      var k :| k in keys;
      var rest := Sorted(keys - {k});
      assert k !in rest by {
        assert k !in Elements(rest);
      }
      InsertIncreasing(k, rest);
      InsertElements(k, rest);
      Insert(k, rest)
  }

  /** Only one list holds given keys in increasing order. */
  lemma {:induction false} ListUnique(s: seq<string>, t: seq<string>, keys: set<string>)
    requires Lists(s, keys) && Lists(t, keys)
    ensures s == t
    decreases |s|
  {
    assert s != [] ==> s[0] in keys;
    assert t != [] ==> t[0] in keys;
    if s != [] && t != [] {
      LessIsStrictOrder(s[0], t[0], s[0]);
      assert s[0] == t[0];
      ListTail(s, keys);
      ListTail(t, keys);
      ListUnique(s[1..], t[1..], keys - {s[0]});
    }
  }

  lemma ListTail(s: seq<string>, keys: set<string>)
    requires Lists(s, keys) && s != []
    ensures Lists(s[1..], keys - {s[0]})
  {
    LessIsStrictOrder(s[0], [], []);
    assert s == [s[0]] + s[1..];
    assert forall x :: x in s[1..] ==> Less(s[0], x);
    assert forall x :: x in keys <==> x in s;
  }

  /** Collects the keys of a map in any order, then sorts them. */
  method Sort(keys: set<string>) returns (s: seq<string>)
    ensures Lists(s, keys)
  {
    s := [];
    var rest := keys;
    while rest != {}
      invariant rest <= keys
      invariant Lists(s, keys - rest)
      decreases rest
    {
      var k :| k in rest;
      assert k !in s by {
        assert k !in Elements(s);
      }
      InsertIncreasing(k, s);
      InsertElements(k, s);
      s := Insert(k, s);
      rest := rest - {k};
      assert keys - rest == (keys - (rest + {k})) + {k};
    }
  }
}
