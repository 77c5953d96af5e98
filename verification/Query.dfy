/** Operators over ordered streams: the merge join, the group fold and the bounded walk. */
module Query {
  import opened Bytes

  // --- Merge join ---

  /** A strict total order of the keys. */
  ghost predicate StrictOrder<K(!new)>(less: (K, K) -> bool) {
    && (forall a, b :: less(a, b) || less(b, a) || a == b)
    && (forall a, b :: less(a, b) ==> !less(b, a))
    && (forall a, b, c :: less(a, b) && less(b, c) ==> less(a, c))
  }

  ghost predicate SortedBy<K(!new), V>(less: (K, K) -> bool, xs: seq<(K, V)>) {
    forall i, j :: 0 <= i < j < |xs| ==> !less(xs[j].0, xs[i].0)
  }

  /** The pairs of one right element with every left element of its key, in left order. */
  function Matches<K(==), L, R>(left: seq<(K, L)>, r: (K, R)): seq<(L, R)> {
    if left == [] then []
    else (if left[0].0 == r.0 then [(left[0].1, r.1)] else []) + Matches(left[1..], r)
  }

  /** The nested-loop join: right by right, left by left. */
  function NestedLoop<K(==), L, R>(left: seq<(K, L)>, right: seq<(K, R)>): seq<(L, R)> {
    if right == [] then [] else Matches(left, right[0]) + NestedLoop(left, right[1..])
  }

  lemma {:induction false} NoMatches<K(!new), L, R>(left: seq<(K, L)>, r: (K, R))
    requires forall i :: 0 <= i < |left| ==> left[i].0 != r.0
    ensures Matches(left, r) == []
    decreases |left|
  {
    if left != [] { NoMatches(left[1..], r); }
  }

  lemma {:induction false} MatchesJoin<K(!new), L, R>(a: seq<(K, L)>, b: seq<(K, L)>, r: (K, R))
    ensures Matches(a + b, r) == Matches(a, r) + Matches(b, r)
    decreases |a|
  {
    if a == [] {
      assert a + b == b;
    } else {
      assert (a + b)[0] == a[0] && (a + b)[1..] == a[1..] + b;
      MatchesJoin(a[1..], b, r);
    }
  }

  /** Left elements no right element matches may be left out. */
  lemma {:induction false} DropLeft<K(!new), L, R>(a: seq<(K, L)>, b: seq<(K, L)>, right: seq<(K, R)>)
    requires forall i, j :: 0 <= i < |a| && 0 <= j < |right| ==> a[i].0 != right[j].0
    ensures NestedLoop(a + b, right) == NestedLoop(b, right)
    decreases |right|
  {
    if right != [] {
      NoMatches(a, right[0]);
      MatchesJoin(a, b, right[0]);
      assert forall j :: 0 <= j < |right[1..]| ==> right[1..][j] == right[j + 1];
      DropLeft(a, b, right[1..]);
      assert [] + Matches(b, right[0]) == Matches(b, right[0]);
    }
  }

  /** For key-sorted streams, repeated keys included, the merge gives exactly the nested-loop join: all pairs of equal
      key, by ascending key, then in right order, then in left order. */
  method MergeJoin<K(!new, ==), L, R>(less: (K, K) -> bool, left: seq<(K, L)>, right: seq<(K, R)>)
      returns (out: seq<(L, R)>)
    requires StrictOrder(less) && SortedBy(less, left) && SortedBy(less, right)
    ensures out == NestedLoop(left, right)
  {
    hide NestedLoop, StrictOrder, SortedBy;
    out := [];
    var i, j := 0, 0;
    assert left[0..] == left && right[0..] == right;
    ghost var all := NestedLoop(left, right);
    assert [] + all == all;
    while i < |left| && j < |right|
      invariant i <= |left| && j <= |right|
      invariant out + NestedLoop(left[i..], right[j..]) == all
      decreases |left| - i + |right| - j
    {
      if less(left[i].0, right[j].0) {
        SkipLeft(less, left, right, i, i + 1, j);
        i := i + 1;
      } else if less(right[j].0, left[i].0) {
        SkipRight(less, left, right, i, j);
        j := j + 1;
      } else {
        KeysAreEqual(less, left[i].0, right[j].0);
        out, i, j := JoinRun(less, left, right, i, j, out);
      }
    }
    if i == |left| { NothingOnTheLeft(left[i..], right[j..]); } else { NothingOnTheRight(left[i..], right[j..]); }
    assert out + [] == out;
  }

  lemma KeysAreEqual<K(!new)>(less: (K, K) -> bool, a: K, b: K)
    requires StrictOrder(less) && !less(a, b) && !less(b, a)
    ensures a == b
  {}

  lemma NothingOnTheRight<K(!new), L, R>(left: seq<(K, L)>, right: seq<(K, R)>)
    requires right == []
    ensures NestedLoop(left, right) == []
  {}

  /** The run of equal keys on both sides: every right element of the run with every left one. */
  method JoinRun<K(!new, ==), L, R>(less: (K, K) -> bool, left: seq<(K, L)>, right: seq<(K, R)>, i: nat, j: nat,
      out: seq<(L, R)>)
    returns (out': seq<(L, R)>, i': nat, j': nat)
    requires StrictOrder(less) && SortedBy(less, left) && SortedBy(less, right)
    requires i < |left| && j < |right| && left[i].0 == right[j].0
    ensures i < i' <= |left| && j < j' <= |right|
    ensures out' + NestedLoop(left[i'..], right[j'..]) == out + NestedLoop(left[i..], right[j..])
  {
    hide NestedLoop, StrictOrder, SortedBy, Matches;
    var key := left[i].0;
    i' := i;
    while i' < |left| && left[i'].0 == key
      invariant i <= i' <= |left| && forall k :: i <= k < i' ==> left[k].0 == key
    {
      i' := i' + 1;
    }
    RunEnds(less, left, i, i');
    out', j' := out, j;
    ghost var all := out + NestedLoop(left[i..], right[j..]);
    while j' < |right| && right[j'].0 == key
      invariant j <= j' <= |right| && out' + NestedLoop(left[i..], right[j'..]) == all
      invariant j' == j ==> right[j'].0 == key
      decreases |right| - j'
    {
      RunMatches(less, left, right, i, i', j');
      ghost var (before, rest) := (out', NestedLoop(left[i..], right[j' + 1..]));
      var pairs := Pairs(left[i..i'], right[j']);
      out' := out' + pairs;
      assert before + (pairs + rest) == out' + rest;
      j' := j' + 1;
    }
    if j' < |right| { PastTheRun(less, right, j, j'); }
    SkipLeft(less, left, right, i, i', j');
  }

  lemma PastTheRun<K(!new), R>(less: (K, K) -> bool, right: seq<(K, R)>, j: nat, j': nat)
    requires StrictOrder(less) && SortedBy(less, right) && j < j' < |right| && right[j'].0 != right[j].0
    ensures less(right[j].0, right[j'].0)
  {}

  /** One right element with each of a run of left elements. */
  method Pairs<K(!new, ==), L, R>(run: seq<(K, L)>, r: (K, R)) returns (out: seq<(L, R)>)
    requires forall k :: 0 <= k < |run| ==> run[k].0 == r.0
    ensures out == Matches(run, r)
  {
    out := [];
    assert run[0..] == run;
    for k := 0 to |run|
      invariant out + Matches(run[k..], r) == Matches(run, r)
    {
      assert run[k..][0] == run[k] && run[k..][1..] == run[k + 1..];
      ghost var (before, rest) := (out, Matches(run[k + 1..], r));
      out := out + [(run[k].1, r.1)];
      assert before + ([(run[k].1, r.1)] + rest) == out + rest;
    }
  }

  lemma {:induction false} SkipLeft<K(!new), L, R>(
    less: (K, K) -> bool, left: seq<(K, L)>, right: seq<(K, R)>, i: nat, i': nat, j: nat)
    requires StrictOrder(less) && SortedBy(less, right) && i <= i' <= |left| && j <= |right|
    requires forall k :: i <= k < i' ==> j < |right| ==> less(left[k].0, right[j].0)
    ensures NestedLoop(left[i..], right[j..]) == NestedLoop(left[i'..], right[j..])
  {
    var (a, b) := (left[i..i'], left[i'..]);
    assert left[i..] == a + b;
    forall k, l | 0 <= k < |a| && 0 <= l < |right[j..]| ensures a[k].0 != right[j..][l].0 {
      assert less(left[i + k].0, right[j].0);
      assert l > 0 ==> !less(right[j + l].0, right[j].0);
    }
    DropLeft(a, b, right[j..]);
  }

  lemma {:induction false} SkipRight<K(!new), L, R>(less: (K, K) -> bool, left: seq<(K, L)>, right: seq<(K, R)>,
      i: nat, j: nat)
    requires StrictOrder(less) && SortedBy(less, left) && i < |left| && j < |right| && less(right[j].0, left[i].0)
    ensures NestedLoop(left[i..], right[j..]) == NestedLoop(left[i..], right[j + 1..])
  {
    forall k | 0 <= k < |left[i..]| ensures left[i..][k].0 != right[j].0 {
      assert k > 0 ==> !less(left[i + k].0, left[i].0);
    }
    NoMatches(left[i..], right[j]);
    assert right[j..][0] == right[j] && right[j..][1..] == right[j + 1..];
  }

  lemma {:induction false} RunEnds<K(!new), L>(less: (K, K) -> bool, left: seq<(K, L)>, i: nat, i': nat)
    requires StrictOrder(less) && SortedBy(less, left) && i < i' <= |left|
    requires (forall k :: i <= k < i' ==> left[k].0 == left[i].0) && (i' < |left| ==> left[i'].0 != left[i].0)
    ensures forall k :: i' <= k < |left| ==> less(left[i].0, left[k].0)
  {
    forall k | i' <= k < |left| ensures less(left[i].0, left[k].0) {
      assert !less(left[i'].0, left[i].0) && less(left[i].0, left[i'].0);
      assert k > i' ==> !less(left[k].0, left[i'].0);
    }
  }

  lemma {:induction false} RunMatches<K(!new), L, R>(
    less: (K, K) -> bool, left: seq<(K, L)>, right: seq<(K, R)>, i: nat, i': nat, j: nat)
    requires StrictOrder(less) && i < i' <= |left| && j < |right| && right[j].0 == left[i].0
    requires forall k :: i' <= k < |left| ==> less(left[i].0, left[k].0)
    ensures NestedLoop(left[i..], right[j..]) == Matches(left[i..i'], right[j]) + NestedLoop(left[i..], right[j + 1..])
  {
    assert left[i..] == left[i..i'] + left[i'..];
    MatchesJoin(left[i..i'], left[i'..], right[j]);
    NoMatches(left[i'..], right[j]);
    assert Matches(left[i..i'], right[j]) + [] == Matches(left[i..i'], right[j]);
    assert right[j..][0] == right[j] && right[j..][1..] == right[j + 1..];
  }

  lemma {:induction false} NothingOnTheLeft<K(!new), L, R>(left: seq<(K, L)>, right: seq<(K, R)>)
    requires left == []
    ensures NestedLoop(left, right) == []
    decreases |right|
  {
    if right != [] { NothingOnTheLeft(left, right[1..]); }
  }

  // --- The bounded walk ---

  type node = bytes

  /** The nodes at most `hops` hops from the start. */
  function Within(peers: node -> seq<node>, start: node, hops: nat): set<node> {
    if hops == 0 then {start}
    else
      var near := Within(peers, start, hops - 1);
      near + set n, p | n in near && p in peers(n) :: p
  }

  function Nodes(xs: seq<node>): set<node> { set x | x in xs }

  predicate Distinct(xs: seq<node>) { forall i, j :: 0 <= i < j < |xs| ==> xs[i] != xs[j] }

  /** No node comes before one that is nearer. */
  ghost predicate NearestFirst(peers: node -> seq<node>, start: node, xs: seq<node>) {
    forall i, j, hops: nat :: 0 <= i < j < |xs| && xs[j] in Within(peers, start, hops) ==> xs[i] in Within(peers, start, hops)
  }

  lemma {:induction false} WithinGrows(peers: node -> seq<node>, start: node, a: nat, b: nat)
    requires a <= b
    ensures Within(peers, start, a) <= Within(peers, start, b)
    decreases b
  {
    if a < b { WithinGrows(peers, start, a, b - 1); }
  }

  lemma {:induction false} NothingNewEver(peers: node -> seq<node>, start: node, a: nat, b: nat)
    requires a <= b && Within(peers, start, a + 1) == Within(peers, start, a)
    ensures Within(peers, start, b) == Within(peers, start, a)
    decreases b
  {
    if a < b { NothingNewEver(peers, start, a, b - 1); }
  }

  /** The next ring: the peers of the outer ring that were not within reach before. */
  lemma {:induction false} NextRing(peers: node -> seq<node>, start: node, hops: nat, ring: set<node>, next: set<node>)
    requires ring == Within(peers, start, hops) - if hops == 0 then {} else Within(peers, start, hops - 1)
    requires next == (set n, p | n in ring && p in peers(n) :: p) - Within(peers, start, hops)
    ensures Within(peers, start, hops) + next == Within(peers, start, hops + 1)
  {
    var near := Within(peers, start, hops);
    forall p | p in Within(peers, start, hops + 1) && p !in near ensures p in next {
      var n :| n in near && p in peers(n);
    }
  }

  /** Breadth-first from `start`: every node within `maxHops` hops exactly once, nearer nodes first, nothing else. */
  method Walk(peers: node -> seq<node>, start: node, maxHops: nat) returns (visited: seq<node>)
    ensures Nodes(visited) == Within(peers, start, maxHops) && Distinct(visited) && NearestFirst(peers, start, visited)
  {
    hide Within;
    visited := [start];
    var frontier := visited;
    JustTheStart(peers, start);
    for hops := 0 to maxHops
      invariant Nodes(visited) == Within(peers, start, hops) && Distinct(visited) && NearestFirst(peers, start, visited)
      invariant Nodes(frontier) == Within(peers, start, hops) - if hops == 0 then {} else Within(peers, start, hops - 1)
    {
      var next := Ring(peers, visited, frontier);
      NextRing(peers, start, hops, Nodes(frontier), Nodes(next));
      if next == [] {
        assert Nodes(next) == {};
        NothingNewEver(peers, start, hops, maxHops);
        return;
      }
      RingComesAfter(peers, start, hops, visited, next);
      visited := visited + next;
      frontier := next;
    }
  }

  lemma JustTheStart(peers: node -> seq<node>, start: node)
    ensures Nodes([start]) == Within(peers, start, 0) && Distinct([start]) && NearestFirst(peers, start, [start])
  {
    hide Within;
    assert Nodes([start]) == {start};
    StartIs(peers, start);
  }

  lemma StartIs(peers: node -> seq<node>, start: node)
    ensures Within(peers, start, 0) == {start}
  {}

  lemma {:induction false} RingComesAfter(peers: node -> seq<node>, start: node, hops: nat, visited: seq<node>,
      next: seq<node>)
    requires Nodes(visited) == Within(peers, start, hops) && Distinct(visited) && NearestFirst(peers, start, visited)
    requires Distinct(next) && Nodes(next) !! Nodes(visited)
    requires Within(peers, start, hops) + Nodes(next) == Within(peers, start, hops + 1)
    ensures Distinct(visited + next) && NearestFirst(peers, start, visited + next)
    ensures Nodes(visited + next) == Within(peers, start, hops + 1)
    ensures Nodes(next) == Within(peers, start, hops + 1) - Within(peers, start, hops)
  {
    hide Within;
    var all := visited + next;
    forall i, j | 0 <= i < j < |all| ensures all[i] != all[j] {
      if i < |visited| <= j {
        assert all[i] in Nodes(visited) && all[j] in Nodes(next);
      }
    }
    forall i, j, k: nat | 0 <= i < j < |all| && all[j] in Within(peers, start, k) ensures all[i] in Within(peers, start, k) {
      if j >= |visited| {
        assert all[j] in Nodes(next);
        if k <= hops {
          WithinGrows(peers, start, k, hops);
        } else {
          WithinGrows(peers, start, hops + 1, k);
          assert all[i] in Nodes(visited) + Nodes(next);
        }
      }
    }
    assert Nodes(all) == Nodes(visited) + Nodes(next);
  }

  /** The peers of the frontier not seen before, each once. */
  method Ring(peers: node -> seq<node>, visited: seq<node>, frontier: seq<node>) returns (next: seq<node>)
    ensures Nodes(next) == (set n, p | n in Nodes(frontier) && p in peers(n) :: p) - Nodes(visited)
    ensures Distinct(next) && Nodes(next) !! Nodes(visited)
  {
    next := [];
    for i := 0 to |frontier|
      invariant Nodes(next) == (set n, p | n in Nodes(frontier[..i]) && p in peers(n) :: p) - Nodes(visited)
      invariant Distinct(next)
    {
      var ps := peers(frontier[i]);
      ghost var before := Nodes(next);
      for k := 0 to |ps|
        invariant Nodes(next) == before + (Nodes(ps[..k]) - Nodes(visited))
        invariant Distinct(next)
      {
        assert Nodes(ps[..k + 1]) == Nodes(ps[..k]) + {ps[k]};
        if ps[k] !in visited && ps[k] !in next {
          ghost var was := next;
          next := next + [ps[k]];
          assert Nodes(next) == Nodes(was) + {ps[k]};
        }
      }
      assert ps[..|ps|] == ps;
      assert Nodes(frontier[..i + 1]) == Nodes(frontier[..i]) + {frontier[i]};
    }
    assert frontier[..|frontier|] == frontier;
  }

  // --- Group fold ---

  /** The items of one group, in order. */
  function OfGroup<G(==), T>(key: T -> G, items: seq<T>, g: G): seq<T> {
    if items == [] then []
    else OfGroup(key, items[..|items| - 1], g) + if key(items[|items| - 1]) == g then [items[|items| - 1]] else []
  }

  function FoldAll<T, A>(init: A, fold: (A, T) -> A, items: seq<T>): A {
    if items == [] then init else fold(FoldAll(init, fold, items[..|items| - 1]), items[|items| - 1])
  }

  /** Items of one group stand together, as they do in a stream ordered by the group. */
  ghost predicate Together<G, T>(key: T -> G, items: seq<T>) {
    forall i, j, k :: 0 <= i < j < k < |items| && key(items[i]) == key(items[k]) ==> key(items[j]) == key(items[i])
  }

  lemma {:induction false} GroupSnoc<G, T>(key: T -> G, items: seq<T>, x: T, g: G)
    ensures OfGroup(key, items + [x], g) == OfGroup(key, items, g) + if key(x) == g then [x] else []
  {
    assert (items + [x])[..|items|] == items;
  }

  lemma {:induction false} NoneOfGroup<G, T>(key: T -> G, items: seq<T>, g: G)
    requires forall i :: 0 <= i < |items| ==> key(items[i]) != g
    ensures OfGroup(key, items, g) == []
    decreases |items|
  {
    if items != [] { NoneOfGroup(key, items[..|items| - 1], g); }
  }

  lemma FoldSnoc<T, A>(init: A, fold: (A, T) -> A, items: seq<T>, x: T)
    ensures FoldAll(init, fold, items + [x]) == fold(FoldAll(init, fold, items), x)
  {
    assert (items + [x])[..|items|] == items;
  }

  ghost predicate Folds<G, T, A>(key: T -> G, init: A, fold: (A, T) -> A, items: seq<T>, out: seq<(G, A)>) {
    forall i :: 0 <= i < |out| ==> out[i].1 == FoldAll(init, fold, OfGroup(key, items, out[i].0))
  }

  ghost predicate HasItem<G, T>(key: T -> G, items: seq<T>, g: G) { exists k :: 0 <= k < |items| && key(items[k]) == g }

  ghost predicate HasEntry<G, A>(out: seq<(G, A)>, g: G) { exists i :: 0 <= i < |out| && out[i].0 == g }

  /** The groups of the items, each once; the last one is the last item's. */
  ghost predicate Keys<G(!new), T, A>(key: T -> G, items: seq<T>, out: seq<(G, A)>) {
    && (forall i, j :: 0 <= i < j < |out| ==> out[i].0 != out[j].0)
    && (forall g :: HasItem(key, items, g) <==> HasEntry(out, g))
    && (items != [] ==> out != [] && out[|out| - 1].0 == key(items[|items| - 1]))
  }

  lemma {:induction false} ItemSnoc<G(!new), T>(key: T -> G, items: seq<T>, x: T, g: G)
    ensures HasItem(key, items + [x], g) <==> HasItem(key, items, g) || key(x) == g
  {
    var items' := items + [x];
    if HasItem(key, items, g) {
      var k :| 0 <= k < |items| && key(items[k]) == g;
      assert items'[k] == items[k];
    }
    if key(x) == g { assert items'[|items|] == x; }
  }

  lemma {:induction false} EntrySnoc<G(!new), A>(out: seq<(G, A)>, e: (G, A), g: G)
    ensures HasEntry(out + [e], g) <==> HasEntry(out, g) || e.0 == g
  {
    var out' := out + [e];
    if HasEntry(out, g) {
      var k :| 0 <= k < |out| && out[k].0 == g;
      assert out'[k] == out[k];
    }
    if e.0 == g { assert out'[|out|] == e; }
  }

  lemma {:induction false} SameGroupKeys<G(!new), T, A>(key: T -> G, items: seq<T>, out: seq<(G, A)>, x: T, acc: A)
    requires Keys(key, items, out) && out != [] && out[|out| - 1].0 == key(x)
    ensures Keys(key, items + [x], out[|out| - 1 := (key(x), acc)])
  {
    var out' := out[|out| - 1 := (key(x), acc)];
    assert forall i :: 0 <= i < |out| ==> out'[i].0 == out[i].0;
    hide HasItem;
    forall g ensures HasItem(key, items + [x], g) <==> HasEntry(out', g) {
      ItemSnoc(key, items, x, g);
      SameEntries(out, out', g);
      if key(x) == g { assert out[|out| - 1].0 == g; }
    }
  }

  lemma {:induction false} SameEntries<G(!new), A>(a: seq<(G, A)>, b: seq<(G, A)>, g: G)
    requires |a| == |b| && forall i :: 0 <= i < |a| ==> a[i].0 == b[i].0
    ensures HasEntry(a, g) <==> HasEntry(b, g)
  {
    if HasEntry(a, g) {
      var i :| 0 <= i < |a| && a[i].0 == g;
      assert b[i].0 == g;
    }
    if HasEntry(b, g) {
      var i :| 0 <= i < |b| && b[i].0 == g;
      assert a[i].0 == g;
    }
  }

  lemma {:induction false} SameGroupFolds<G(!new), T, A>(key: T -> G, init: A, fold: (A, T) -> A, items: seq<T>,
      out: seq<(G, A)>, x: T)
    requires Folds(key, init, fold, items, out) && Keys(key, items, out) && out != [] && out[|out| - 1].0 == key(x)
    ensures Folds(key, init, fold, items + [x], out[|out| - 1 := (key(x), fold(out[|out| - 1].1, x))])
  {
    assert forall i :: 0 <= i < |out| - 1 ==> out[i].0 != out[|out| - 1].0;
    hide FoldAll, OfGroup, Keys;
    var (last, g) := (|out| - 1, key(x));
    var out' := out[last := (g, fold(out[last].1, x))];
    forall i | 0 <= i < |out'| ensures out'[i].1 == FoldAll(init, fold, OfGroup(key, items + [x], out'[i].0)) {
      GroupSnoc(key, items, x, out[i].0);
      assert out[i].1 == FoldAll(init, fold, OfGroup(key, items, out[i].0));
      if i == last {
        FoldSnoc(init, fold, OfGroup(key, items, g), x);
      } else {
        assert OfGroup(key, items, out[i].0) + [] == OfGroup(key, items, out[i].0);
      }
    }
  }

  lemma {:induction false} NewGroupKeys<G(!new), T, A>(key: T -> G, items: seq<T>, out: seq<(G, A)>, x: T, acc: A)
    requires Keys(key, items, out) && !HasItem(key, items, key(x))
    ensures Keys(key, items + [x], out + [(key(x), acc)])
  {
    hide HasItem;
    var e := (key(x), acc);
    forall g ensures HasItem(key, items + [x], g) <==> HasEntry(out + [e], g) {
      ItemSnoc(key, items, x, g);
      EntrySnoc(out, e, g);
    }
    assert !HasEntry(out, key(x));
  }

  lemma {:induction false} NewGroupFolds<G(!new), T, A>(key: T -> G, init: A, fold: (A, T) -> A, items: seq<T>,
      out: seq<(G, A)>, x: T)
    requires Folds(key, init, fold, items, out) && !HasItem(key, items, key(x)) && !HasEntry(out, key(x))
    ensures Folds(key, init, fold, items + [x], out + [(key(x), fold(init, x))])
  {
    hide FoldAll, OfGroup;
    var out' := out + [(key(x), fold(init, x))];
    NoneOfGroup(key, items, key(x));
    FoldSnoc(init, fold, [], x);
    NothingFolded(init, fold);
    forall i | 0 <= i < |out'| ensures out'[i].1 == FoldAll(init, fold, OfGroup(key, items + [x], out'[i].0)) {
      GroupSnoc(key, items, x, out'[i].0);
      if i < |out| {
        assert out[i].1 == FoldAll(init, fold, OfGroup(key, items, out[i].0));
        assert OfGroup(key, items, out[i].0) + [] == OfGroup(key, items, out[i].0);
      }
    }
  }

  lemma NothingFolded<T, A>(init: A, fold: (A, T) -> A)
    ensures FoldAll(init, fold, []) == init
  {}

  function Concat<T>(runs: seq<seq<T>>): seq<T> { if runs == [] then [] else Concat(runs[..|runs| - 1]) + runs[|runs| - 1] }

  /** `runs` cuts the items into the longest stretches of one group, and each entry is the fold of its stretch. */
  ghost predicate Cuts<G, T, A>(key: T -> G, init: A, fold: (A, T) -> A, items: seq<T>, out: seq<(G, A)>,
      runs: seq<seq<T>>) {
    && |runs| == |out| && Concat(runs) == items
    && (forall i :: 0 <= i < |runs| ==> runs[i] != [] && out[i].1 == FoldAll(init, fold, runs[i]) && AllOf(key, runs[i], out[i].0))
    && (forall i :: 0 < i < |out| ==> out[i - 1].0 != out[i].0)
  }

  ghost predicate AllOf<G, T>(key: T -> G, run: seq<T>, g: G) { forall k :: 0 <= k < |run| ==> key(run[k]) == g }

  lemma {:induction false} LongerRun<G, T, A>(
    key: T -> G, init: A, fold: (A, T) -> A, items: seq<T>, out: seq<(G, A)>, runs: seq<seq<T>>, x: T)
    requires Cuts(key, init, fold, items, out, runs) && out != [] && out[|out| - 1].0 == key(x)
    ensures var n := |out| - 1;
      Cuts(key, init, fold, items + [x], out[n := (key(x), fold(out[n].1, x))], runs[n := runs[n] + [x]])
  {
    hide FoldAll;
    var n := |out| - 1;
    var runs' := runs[n := runs[n] + [x]];
    FoldSnoc(init, fold, runs[n], x);
    assert runs'[..n] == runs[..n];
    assert Concat(runs[..n]) + (runs[n] + [x]) == items + [x];
  }

  lemma {:induction false} NewRun<G, T, A>(
    key: T -> G, init: A, fold: (A, T) -> A, items: seq<T>, out: seq<(G, A)>, runs: seq<seq<T>>, x: T)
    requires Cuts(key, init, fold, items, out, runs) && (out != [] ==> out[|out| - 1].0 != key(x))
    ensures Cuts(key, init, fold, items + [x], out + [(key(x), fold(init, x))], runs + [[x]])
  {
    hide FoldAll;
    FoldSnoc(init, fold, [], x);
    NothingFolded(init, fold);
    assert [] + [x] == [x] && (runs + [[x]])[..|runs|] == runs;
  }

  /** Consecutive items of one group fold into one entry. Over a stream ordered by the group there is exactly one entry
      for each group, the fold of all its items in order. */
  method GroupBy<G(==, !new), T, A>(items: seq<T>, key: T -> G, init: A, fold: (A, T) -> A)
      returns (out: seq<(G, A)>, ghost runs: seq<seq<T>>)
    ensures Cuts(key, init, fold, items, out, runs)
    ensures Together(key, items) ==>
              && (forall i :: 0 <= i < |out| ==> out[i].1 == FoldAll(init, fold, OfGroup(key, items, out[i].0)))
              && (forall i, j :: 0 <= i < j < |out| ==> out[i].0 != out[j].0)
              && (forall g :: HasItem(key, items, g) <==> HasEntry(out, g))
  {
    hide FoldAll, OfGroup, Cuts, Concat;
    out, runs := [], [];
    NothingCut(key, init, fold);
    for n := 0 to |items|
      invariant Cuts(key, init, fold, items[..n], out, runs)
      invariant n > 0 ==> out != [] && out[|out| - 1].0 == key(items[n - 1])
      invariant Together(key, items) ==> Folds(key, init, fold, items[..n], out) && Keys(key, items[..n], out)
    {
      var (x, g) := (items[n], key(items[n]));
      assert items[..n + 1] == items[..n] + [x];
      if out != [] && out[|out| - 1].0 == g {
        if Together(key, items) {
          SameGroupFolds(key, init, fold, items[..n], out, x);
          SameGroupKeys(key, items[..n], out, x, fold(out[|out| - 1].1, x));
        }
        LongerRun(key, init, fold, items[..n], out, runs, x);
        assert |runs| == |out| by { CutsAlike(key, init, fold, items[..n], out, runs); }
        runs := runs[|out| - 1 := runs[|out| - 1] + [x]];
        out := out[|out| - 1 := (g, fold(out[|out| - 1].1, x))];
      } else {
        if Together(key, items) {
          GroupIsNew(key, items, n);
          NewGroupFolds(key, init, fold, items[..n], out, x);
          NewGroupKeys(key, items[..n], out, x, fold(init, x));
        }
        NewRun(key, init, fold, items[..n], out, runs, x);
        runs := runs + [[x]];
        out := out + [(g, fold(init, x))];
      }
    }
    assert items[..|items|] == items;
  }

  lemma NothingCut<G, T, A>(key: T -> G, init: A, fold: (A, T) -> A)
    ensures Cuts(key, init, fold, [], [], [])
  {}

  lemma CutsAlike<G, T, A>(key: T -> G, init: A, fold: (A, T) -> A, items: seq<T>, out: seq<(G, A)>, runs: seq<seq<T>>)
    requires Cuts(key, init, fold, items, out, runs)
    ensures |runs| == |out|
  {
    hide FoldAll, Concat;
  }

  /** In a stream ordered by the group, a group other than the last item's has not been seen yet. */
  lemma GroupIsNew<G(!new), T>(key: T -> G, items: seq<T>, n: nat)
    requires Together(key, items) && n < |items| && (n > 0 ==> key(items[n - 1]) != key(items[n]))
    ensures !HasItem(key, items[..n], key(items[n]))
  {}
}
