/**
 * Bounded breadth-first search over a tree snapshot (`_bfs_find_all`,
 * `bfs_find_all`, `bfs_find` and the hand-written copies of the same loop).
 *
 * The specification is in three pieces: `Dequeued` is the order in which a
 * FIFO queue started at the root pops elements, cut after a visit budget;
 * `Hits` keeps the popped elements that satisfy the predicate; `Take` applies
 * the hit budget. A child enumeration that fails is swallowed, so that
 * element contributes no children. The predicate is a named function of the
 * snapshot, an argument record and the element id.
 */
module Bfs {
  import opened Text
  import opened UiTree

  /** The first `n` element ids popped from a FIFO queue holding `q`, children appended after each pop. */
  function Dequeued(t: Tree, q: seq<nat>, n: nat): (r: seq<nat>)
    ensures |r| <= n
    ensures q == [] ==> r == []
    decreases n
  {
    if n == 0 || q == [] then [] else [q[0]] + Dequeued(t, q[1..] + ChildrenOrEmpty(t, q[0]), n - 1)
  }

  /** The elements of `s` that satisfy `pred`, in order. */
  function Hits<A>(t: Tree, pred: (Tree, A, nat) -> bool, arg: A, s: seq<nat>): (r: seq<nat>)
    ensures |r| <= |s|
    ensures forall k :: 0 <= k < |r| ==> pred(t, arg, r[k])
  {
    if s == [] then [] else (if pred(t, arg, s[0]) then [s[0]] else []) + Hits(t, pred, arg, s[1..])
  }

  /** Every hit is one of the visited elements. */
  lemma {:induction false} HitsAreVisited<A>(t: Tree, pred: (Tree, A, nat) -> bool, arg: A, s: seq<nat>)
    ensures forall k :: 0 <= k < |Hits(t, pred, arg, s)| ==> Hits(t, pred, arg, s)[k] in s
  {
    if s != [] {
      HitsAreVisited(t, pred, arg, s[1..]);
    }
  }

  function Take<T>(s: seq<T>, n: nat): (r: seq<T>)
    ensures |r| <= n && |r| <= |s|
  {
    if |s| <= n then s else s[..n]
  }

  /** What remains to be found from queue `q` with `n` visits and `h` hits left. */
  function SearchFrom<A>(t: Tree, pred: (Tree, A, nat) -> bool, arg: A, q: seq<nat>, n: nat, h: nat): seq<nat> {
    Take(Hits(t, pred, arg, Dequeued(t, q, n)), h)
  }

  /** The result of a bounded search: the first `maxHits` hits among the first `maxNodes` elements visited. */
  function SearchAll<A>(t: Tree, pred: (Tree, A, nat) -> bool, arg: A, root: nat, maxNodes: nat, maxHits: nat): seq<nat> {
    SearchFrom(t, pred, arg, [root], maxNodes, maxHits)
  }

  /** The result of a first-hit search: the first hit among the first `maxNodes` elements visited. */
  function SearchFirst<A>(t: Tree, pred: (Tree, A, nat) -> bool, arg: A, root: nat, maxNodes: nat): Option<nat> {
    var hs := Hits(t, pred, arg, Dequeued(t, [root], maxNodes));
    if hs == [] then None else Some(hs[0])
  }

  lemma DequeuedStep(t: Tree, q: seq<nat>, n: nat)
    requires q != [] && n > 0
    ensures Dequeued(t, q, n) == [q[0]] + Dequeued(t, q[1..] + ChildrenOrEmpty(t, q[0]), n - 1)
  {
  }

  /** One iteration of the search loop: pop the head, record it if it is a hit, enqueue its children. */
  lemma SearchFromStep<A>(t: Tree, pred: (Tree, A, nat) -> bool, arg: A, q: seq<nat>, rest: seq<nat>, n: nat, h: nat)
    requires q != [] && n > 0 && h > 0
    requires rest == q[1..] + ChildrenOrEmpty(t, q[0])
    ensures pred(t, arg, q[0]) ==> SearchFrom(t, pred, arg, q, n, h) == [q[0]] + SearchFrom(t, pred, arg, rest, n - 1, h - 1)
    ensures !pred(t, arg, q[0]) ==> SearchFrom(t, pred, arg, q, n, h) == SearchFrom(t, pred, arg, rest, n - 1, h)
  {
    var d := Dequeued(t, rest, n - 1);
    assert Dequeued(t, q, n) == [q[0]] + d;
    HitsCons(t, pred, arg, q[0], d);
    if pred(t, arg, q[0]) {
      TakeCons(q[0], Hits(t, pred, arg, d), h);
    }
  }

  /** The loop invariant of `FindAll` survives one iteration. */
  lemma SearchLoopStep<A>(t: Tree, pred: (Tree, A, nat) -> bool, arg: A, hits: seq<nat>, q: seq<nat>, rest: seq<nat>, n: nat, h: nat)
    requires q != [] && n > 0 && h > 0
    requires rest == q[1..] + ChildrenOrEmpty(t, q[0])
    ensures pred(t, arg, q[0]) ==> (hits + [q[0]]) + SearchFrom(t, pred, arg, rest, n - 1, h - 1) == hits + SearchFrom(t, pred, arg, q, n, h)
    ensures !pred(t, arg, q[0]) ==> hits + SearchFrom(t, pred, arg, rest, n - 1, h) == hits + SearchFrom(t, pred, arg, q, n, h)
  {
    SearchFromStep(t, pred, arg, q, rest, n, h);
    if pred(t, arg, q[0]) {
      var tail := SearchFrom(t, pred, arg, rest, n - 1, h - 1);
      assert hits + ([q[0]] + tail) == (hits + [q[0]]) + tail;
    }
  }

  lemma HitsCons<A>(t: Tree, pred: (Tree, A, nat) -> bool, arg: A, x: nat, d: seq<nat>)
    ensures Hits(t, pred, arg, [x] + d) == (if pred(t, arg, x) then [x] else []) + Hits(t, pred, arg, d)
  {
    assert ([x] + d)[1..] == d;
  }

  lemma TakeCons<T>(x: T, s: seq<T>, h: nat)
    requires h > 0
    ensures Take([x] + s, h) == [x] + Take(s, h - 1)
  {
    if |s| + 1 > h {
      assert ([x] + s)[..h] == [x] + s[..h - 1];
    }
  }

  /**
   * `_bfs_find_all(root, pred, max_nodes, max_hits)`: returns the first
   * `maxHits` elements satisfying `pred` among the first `maxNodes` that a
   * FIFO queue from `root` pops, in the order they were popped.
   */
  method FindAll<A>(t: Tree, pred: (Tree, A, nat) -> bool, arg: A, root: nat, maxNodes: nat, maxHits: nat)
    returns (hits: seq<nat>)
    ensures hits == SearchAll(t, pred, arg, root, maxNodes, maxHits)
  {
    var q := [root];
    var seen: nat := 0;
    hits := [];
    ghost var goal := SearchAll(t, pred, arg, root, maxNodes, maxHits);
    ghost var n: nat, h: nat := maxNodes, maxHits;
    while q != [] && seen < maxNodes && |hits| < maxHits
      invariant seen <= maxNodes && |hits| <= maxHits
      invariant n == maxNodes - seen && h == maxHits - |hits|
      invariant hits + SearchFrom(t, pred, arg, q, n, h) == goal
      decreases maxNodes - seen
    {
      var cur := q[0];
      var rest := q[1..] + ChildrenOrEmpty(t, cur);
      SearchLoopStep(t, pred, arg, hits, q, rest, n, h);
      if pred(t, arg, cur) {
        hits := hits + [cur];
        h := h - 1;
      }
      seen := seen + 1;
      q := rest;
      n := n - 1;
    }
    SearchFromDone(t, pred, arg, q, n, h);
  }

  lemma SearchFromDone<A>(t: Tree, pred: (Tree, A, nat) -> bool, arg: A, q: seq<nat>, n: nat, h: nat)
    requires q == [] || n == 0 || h == 0
    ensures SearchFrom(t, pred, arg, q, n, h) == []
  {
  }

  /** Everything a bounded search returns satisfies the predicate, and there are at most `maxHits` of them, all visited. */
  lemma SearchAllBounds<A>(t: Tree, pred: (Tree, A, nat) -> bool, arg: A, root: nat, maxNodes: nat, maxHits: nat)
    ensures var r := SearchAll(t, pred, arg, root, maxNodes, maxHits);
            |r| <= maxHits && |r| <= maxNodes
            && forall k :: 0 <= k < |r| ==> pred(t, arg, r[k]) && r[k] in Dequeued(t, [root], maxNodes)
  {
    var hs := Hits(t, pred, arg, Dequeued(t, [root], maxNodes));
    HitsAreVisited(t, pred, arg, Dequeued(t, [root], maxNodes));
    var r := SearchAll(t, pred, arg, root, maxNodes, maxHits);
    assert r == hs[..|r|] by { if |hs| <= maxHits { assert hs[..|hs|] == hs; } }
    forall k | 0 <= k < |r| ensures pred(t, arg, r[k]) && r[k] in Dequeued(t, [root], maxNodes) {
      assert r[k] == hs[k];
    }
  }

  /** `bfs_find(root, pred, max_nodes)`: the first element satisfying `pred` among the first `maxNodes` popped, if any. */
  method FindFirst<A>(t: Tree, pred: (Tree, A, nat) -> bool, arg: A, root: nat, maxNodes: nat)
    returns (found: Option<nat>)
    ensures found == SearchFirst(t, pred, arg, root, maxNodes)
    ensures found.Some? ==> pred(t, arg, found.value)
  {
    var q := [root];
    var seen: nat := 0;
    while q != [] && seen < maxNodes
      invariant seen <= maxNodes
      invariant Hits(t, pred, arg, Dequeued(t, q, maxNodes - seen)) == Hits(t, pred, arg, Dequeued(t, [root], maxNodes))
      decreases maxNodes - seen
    {
      var cur := q[0];
      DequeuedStep(t, q, maxNodes - seen);
      assert ([cur] + Dequeued(t, q[1..] + ChildrenOrEmpty(t, cur), maxNodes - seen - 1))[1..]
          == Dequeued(t, q[1..] + ChildrenOrEmpty(t, cur), maxNodes - seen - 1);
      q := q[1..];
      seen := seen + 1;
      if pred(t, arg, cur) {
        return Some(cur);
      }
      q := q + ChildrenOrEmpty(t, cur);
    }
    return None;
  }

  /** A first-hit search answers the same as a bounded search capped at one hit. */
  lemma {:induction false} FirstIsAllCappedAtOne<A>(t: Tree, pred: (Tree, A, nat) -> bool, arg: A, root: nat, maxNodes: nat)
    ensures var all := SearchAll(t, pred, arg, root, maxNodes, 1);
            SearchFirst(t, pred, arg, root, maxNodes) == if all == [] then None else Some(all[0])
  {
  }

  /** A first-hit search finds something exactly when some visited element satisfies the predicate. */
  lemma {:induction false} SearchFirstIff<A>(t: Tree, pred: (Tree, A, nat) -> bool, arg: A, s: seq<nat>)
    ensures Hits(t, pred, arg, s) != [] <==> exists k :: 0 <= k < |s| && pred(t, arg, s[k])
    ensures Hits(t, pred, arg, s) != [] ==> exists k :: 0 <= k < |s| && Hits(t, pred, arg, s)[0] == s[k]
                                              && pred(t, arg, s[k]) && forall j :: 0 <= j < k ==> !pred(t, arg, s[j])
  {
    if s != [] {
      SearchFirstIff(t, pred, arg, s[1..]);
      if !pred(t, arg, s[0]) && Hits(t, pred, arg, s[1..]) != [] {
        var k :| 0 <= k < |s[1..]| && Hits(t, pred, arg, s[1..])[0] == s[1..][k]
                 && pred(t, arg, s[1..][k]) && forall j :: 0 <= j < k ==> !pred(t, arg, s[1..][j]);
        assert Hits(t, pred, arg, s)[0] == s[k + 1];
        assert forall j :: 0 <= j < k + 1 ==> !pred(t, arg, s[j]) by {
          forall j | 0 <= j < k + 1 ensures !pred(t, arg, s[j]) {
            if j > 0 { assert s[j] == s[1..][j - 1]; }
          }
        }
      }
      if exists k :: 0 <= k < |s| && pred(t, arg, s[k]) {
        var k :| 0 <= k < |s| && pred(t, arg, s[k]);
        if k > 0 && !pred(t, arg, s[0]) { assert pred(t, arg, s[1..][k - 1]); }
      }
    }
  }

  /** An element whose children cannot be enumerated is visited and then contributes nothing. */
  lemma FailedReadPrunes(t: Tree, root: nat, n: nat)
    requires ChildrenOf(t, root).None? && n > 0
    ensures Dequeued(t, [root], n) == [root]
  {
    assert Dequeued(t, [root], n) == [root] + Dequeued(t, [], n - 1);
  }

  function Repeat(x: nat, n: nat): (r: seq<nat>)
    ensures |r| == n && forall k :: 0 <= k < n ==> r[k] == x
  {
    if n == 0 then [] else [x] + Repeat(x, n - 1)
  }

  /**
   * On a cyclic snapshot (an element listed as its own child) the search
   * still stops after exactly `n` visits: the budget, not the shape of the
   * graph, bounds the work.
   */
  lemma {:induction false} SelfLoopVisitsBudget(t: Tree, id: nat, k: nat, n: nat)
    requires ChildrenOf(t, id) == Some([id]) && k >= 1
    ensures Dequeued(t, Repeat(id, k), n) == Repeat(id, n)
    decreases n
  {
    if n > 0 {
      var q := Repeat(id, k);
      assert q[1..] + ChildrenOrEmpty(t, id) == Repeat(id, k);
      SelfLoopVisitsBudget(t, id, k, n - 1);
    }
  }
}
