/** Byte order: the order an engine keeps its keys in, and a map keeps its names in. */
module Order {
  import opened Bytes

  predicate Less(a: bytes, b: bytes)
    decreases |a|
  {
    b != [] && (a == [] || a[0] < b[0] || (a[0] == b[0] && Less(a[1..], b[1..])))
  }

  lemma {:induction false} LessIsTotal(a: bytes, b: bytes)
    ensures Less(a, b) || Less(b, a) || a == b
    ensures !(Less(a, b) && Less(b, a)) && !Less(a, a)
    decreases |a| + |b|
  {
    if a != [] && b != [] && a[0] == b[0] {
      LessIsTotal(a[1..], b[1..]);
      assert a == [a[0]] + a[1..] && b == [b[0]] + b[1..];
    }
    if a != [] { LessIsIrreflexive(a); }
  }

  lemma {:induction false} LessIsIrreflexive(a: bytes)
    ensures !Less(a, a)
    decreases |a|
  {
    if a != [] { LessIsIrreflexive(a[1..]); }
  }

  lemma {:induction false} LessIsTransitive(a: bytes, b: bytes, c: bytes)
    requires Less(a, b) && Less(b, c)
    ensures Less(a, c)
    decreases |a|
  {
    if a != [] && a[0] == b[0] == c[0] { LessIsTransitive(a[1..], b[1..], c[1..]); }
  }

  /** A prefix comes before what extends it, and equal fronts compare by their rests. */
  lemma {:induction false} LessUnderPrefix(p: bytes, a: bytes, b: bytes)
    ensures Less(p + a, p + b) <==> Less(a, b)
    decreases |p|
  {
    if p == [] {
      assert p + a == a && p + b == b;
    } else {
      assert (p + a)[1..] == p[1..] + a && (p + b)[1..] == p[1..] + b;
      LessUnderPrefix(p[1..], a, b);
    }
  }

  predicate IsLeast(m: bytes, s: set<bytes>) { m in s && forall x :: x in s && x != m ==> Less(m, x) }

  lemma {:induction false} LeastExists(s: set<bytes>)
    requires s != {}
    ensures exists m :: IsLeast(m, s)
  {
    hide Less;
    var x :| x in s;
    var rest := s - {x};
    if rest == {} {
      assert s == rest + {x};
      assert IsLeast(x, s);
    } else {
      LeastExists(rest);
      var m :| IsLeast(m, rest);
      LessIsTotal(x, m);
      if Less(x, m) {
        forall y | y in s && y != x ensures Less(x, y) { if y != m { LessIsTransitive(x, m, y); } }
        assert IsLeast(x, s);
      } else {
        assert IsLeast(m, s);
      }
    }
  }

  lemma LeastIsUnique(m: bytes, n: bytes, s: set<bytes>)
    requires IsLeast(m, s) && IsLeast(n, s)
    ensures m == n
  {
    hide Less;
    LessIsTotal(m, n);
  }

  function Least(s: set<bytes>): (m: bytes)
    requires s != {}
    ensures IsLeast(m, s)
  {
    LeastExists(s);
    assert forall m, n :: IsLeast(m, s) && IsLeast(n, s) ==> m == n by {
      forall m, n | IsLeast(m, s) && IsLeast(n, s) ensures m == n { LeastIsUnique(m, n, s); }
    }
    var m :| m in s && IsLeast(m, s);
    m
  }

  /** The elements of `s` in byte order: what an engine's range scan hands back. */
  function Sorted(s: set<bytes>): seq<bytes>
    decreases |s|
  {
    if s == {} then [] else [Least(s)] + Sorted(s - {Least(s)})
  }

  predicate Ascending(xs: seq<bytes>) { forall i :: 0 < i < |xs| ==> Less(xs[i - 1], xs[i]) }

  function Elements(xs: seq<bytes>): set<bytes> { set x | x in xs }

  lemma {:induction false} SortedIsComplete(s: set<bytes>)
    ensures Elements(Sorted(s)) == s && Ascending(Sorted(s)) && |Sorted(s)| == |s|
    decreases |s|
  {
    hide Less, IsLeast;
    if s != {} {
      var m := Least(s);
      var rest := s - {m};
      SortedIsComplete(rest);
      var tail := Sorted(rest);
      assert Elements([m] + tail) == {m} + Elements(tail);
      if tail != [] {
        assert tail[0] in Elements(tail);
        LeastBelow(m, s, tail[0]);
      }
      forall i | 0 < i < |[m] + tail| ensures Less(([m] + tail)[i - 1], ([m] + tail)[i]) {
        if i > 1 { assert Less(tail[i - 2], tail[i - 1]); }
      }
    }
  }

  lemma LeastBelow(m: bytes, s: set<bytes>, x: bytes)
    requires IsLeast(m, s) && x in s && x != m
    ensures Less(m, x)
  {}

  lemma {:induction false} AscendingHead(xs: seq<bytes>, i: nat)
    requires Ascending(xs) && 0 < i < |xs|
    ensures Less(xs[0], xs[i])
    decreases i
  {
    hide Less;
    if i > 1 {
      AscendingHead(xs, i - 1);
      LessIsTransitive(xs[0], xs[i - 1], xs[i]);
    }
  }

  /** A list in byte order is the sorted list of its elements. */
  lemma {:induction false} AscendingIsSorted(xs: seq<bytes>)
    requires Ascending(xs)
    ensures xs == Sorted(Elements(xs))
    decreases |xs|
  {
    hide Less;
    if xs == [] {
      assert Elements(xs) == {};
    } else {
      var s := Elements(xs);
      forall x | x in s && x != xs[0] ensures Less(xs[0], x) {
        var i :| 0 <= i < |xs| && xs[i] == x;
        AscendingHead(xs, i);
      }
      assert xs[0] in s;
      LeastIsUnique(xs[0], Least(s), s);
      var rest := xs[1..];
      forall i | 0 < i < |rest| ensures Less(rest[i - 1], rest[i]) { assert Less(xs[i], xs[i + 1]); }
      assert Elements(rest) == s - {xs[0]} by { HeadIsNotAgain(xs); }
      AscendingIsSorted(rest);
      assert xs == [xs[0]] + rest;
    }
  }

  lemma HeadIsNotAgain(xs: seq<bytes>)
    requires Ascending(xs) && xs != []
    ensures Elements(xs[1..]) == Elements(xs) - {xs[0]}
  {
    hide Less;
    forall i | 0 < i < |xs| ensures xs[i] != xs[0] {
      AscendingHead(xs, i);
      LessIsIrreflexive(xs[0]);
    }
    assert forall x :: x in Elements(xs) && x != xs[0] ==> x in xs[1..] by {
      forall x | x in Elements(xs) && x != xs[0] ensures x in xs[1..] {
        var i :| 0 <= i < |xs| && xs[i] == x;
        assert xs[1..][i - 1] == x;
      }
    }
  }
}
