/** Dominators by in-place iteration (tools/asmcensus/cfg.py, `dominators`), proved equal to the
    path definition. A graph is given by its predecessor sets, one per block. */
module Dominance {

  type Preds = seq<set<nat>>

  /** What `cfg` hands over: at least one block, and every predecessor is a block. */
  ghost predicate Closed(pred: Preds) {
    |pred| > 0 && forall v, u | 0 <= v < |pred| && u in pred[v] :: u < |pred|
  }

  ghost predicate Edge(pred: Preds, u: nat, v: nat) {
    u < |pred| && v < |pred| && u in pred[v]
  }

  /** A nonempty block sequence that follows edges. */
  ghost predicate Path(pred: Preds, p: seq<nat>) {
    && |p| > 0
    && (forall i | 0 <= i < |p| :: p[i] < |pred|)
    && forall i, j | 0 <= i && j == i + 1 && j < |p| :: Edge(pred, p[i], p[j])
  }

  ghost predicate PathTo(pred: Preds, a: nat, p: seq<nat>, b: nat) {
    Path(pred, p) && p[0] == a && p[|p| - 1] == b
  }

  /** Block 0, and also every block that nothing enters. */
  ghost predicate Root(pred: Preds, v: nat) {
    v < |pred| && (v == 0 || pred[v] == {})
  }

  ghost predicate RootPath(pred: Preds, p: seq<nat>, v: nat) {
    Path(pred, p) && Root(pred, p[0]) && p[|p| - 1] == v
  }

  ghost predicate Reachable(pred: Preds, v: nat) {
    exists p :: RootPath(pred, p, v)
  }

  /** `x` dominates `v`: every path from a root to `v` passes `x`. */
  ghost predicate Dom(pred: Preds, x: nat, v: nat) {
    forall p | RootPath(pred, p, v) :: x in p
  }

  /** The whole contract of the analysis: dom[v] holds exactly the dominators of `v`; for a block
      that no root reaches that is every block. */
  ghost predicate Exact(pred: Preds, dom: seq<set<nat>>) {
    |dom| == |pred| && forall v, x: nat | 0 <= v < |pred| :: x in dom[v] <==> x < |pred| && Dom(pred, x, v)
  }

  /** Block 0 and the blocks nothing enters are dominated by themselves alone. */
  lemma RootsDominators(pred: Preds, v: nat)
    requires v < |pred| && (v == 0 || pred[v] == {})
    ensures forall x: nat :: Dom(pred, x, v) <==> x == v
  {
    assert RootPath(pred, [v], v);
  }

  // ----- the data-flow equation -----

  /** `set(range(n))` */
  function Below(n: nat): (s: set<nat>)
    ensures forall x: nat :: x in s <==> x < n
    ensures |s| == n
  {
    if n == 0 then {} else Below(n - 1) + {n - 1}
  }

  function Transfer(pred: Preds, dom: seq<set<nat>>, v: nat): set<nat>
    requires |dom| == |pred| && v < |pred|
  {
    {v} + if pred[v] == {} then {} else
      set x | x in Below(|pred|) && forall p | p in pred[v] && p < |dom| :: x in dom[p]
  }

  ghost predicate InRange(pred: Preds, dom: seq<set<nat>>) {
    && |dom| == |pred| > 0
    && dom[0] == {0}
    && forall v, x | 0 <= v < |pred| && x in dom[v] :: x < |pred|
  }

  /** Every set can only lose elements by its equation. */
  ghost predicate PostFixed(pred: Preds, dom: seq<set<nat>>)
    requires |dom| == |pred|
  {
    forall v | 1 <= v < |pred| :: Transfer(pred, dom, v) <= dom[v]
  }

  ghost predicate Sound(pred: Preds, dom: seq<set<nat>>) {
    InRange(pred, dom) && AboveDominators(pred, dom) && PostFixed(pred, dom)
  }

  /** No set of `b` has an element that its set in `a` lacks. */
  ghost predicate Shrinks(a: seq<set<nat>>, b: seq<set<nat>>) {
    |a| == |b| && forall v | 0 <= v < |a| :: b[v] <= a[v]
  }

  ghost predicate PreFixed(pred: Preds, dom: seq<set<nat>>)
    requires |dom| == |pred|
  {
    PreFixedBelow(pred, dom, |pred|)
  }

  ghost predicate PreFixedBelow(pred: Preds, dom: seq<set<nat>>, n: nat)
    requires n <= |dom| == |pred|
  {
    forall v | 1 <= v < n :: dom[v] <= Transfer(pred, dom, v)
  }

  /** No set has lost a true dominator. */
  ghost predicate AboveDominators(pred: Preds, dom: seq<set<nat>>) {
    |dom| == |pred| && forall v, x: nat | 0 <= v < |pred| && x < |pred| && Dom(pred, x, v) :: x in dom[v]
  }

  function Size(dom: seq<set<nat>>): nat {
    if dom == [] then 0 else |dom[0]| + Size(dom[1..])
  }

  lemma {:induction false} SizeUpdate(dom: seq<set<nat>>, v: nat, s: set<nat>)
    requires v < |dom|
    ensures Size(dom[v := s]) == Size(dom) - |dom[v]| + |s|
  {
    if v == 0 {
      assert dom[v := s][1..] == dom[1..];
    } else {
      assert dom[v := s][1..] == dom[1..][v - 1 := s];
      SizeUpdate(dom[1..], v - 1, s);
    }
  }

  lemma {:induction false} SizeBetween(dom: seq<set<nat>>, lo: nat, hi: nat)
    requires forall v | 0 <= v < |dom| :: lo <= |dom[v]| <= hi
    ensures |dom| * lo <= Size(dom) <= |dom| * hi
  {
    if dom != [] {
      SizeBetween(dom[1..], lo, hi);
      var n := |dom| - 1;
      assert (n + 1) * lo == n * lo + lo && (n + 1) * hi == n * hi + hi;
      assert lo <= |dom[0]| <= hi;
    }
  }

  // ----- paths -----

  lemma PathExtend(pred: Preds, p: seq<nat>, v: nat)
    requires Path(pred, p) && Edge(pred, p[|p| - 1], v)
    ensures Path(pred, p + [v])
  {}

  lemma PathJoin(pred: Preds, p: seq<nat>, q: seq<nat>)
    requires Path(pred, p) && Path(pred, q) && p[|p| - 1] == q[0]
    ensures Path(pred, p + q[1..])
    ensures (p + q[1..])[0] == p[0] && (p + q[1..])[|p + q[1..]| - 1] == q[|q| - 1]
  {}

  lemma PathSlice(pred: Preds, p: seq<nat>, i: nat, j: nat)
    requires Path(pred, p) && i < j <= |p|
    ensures Path(pred, p[i..j]) && p[i..j][0] == p[i] && p[i..j][j - i - 1] == p[j - 1]
  {}

  lemma LastIndex(p: seq<nat>, x: nat) returns (i: nat)
    requires x in p
    ensures i < |p| && p[i] == x && x !in p[i + 1..]
  {
    i := |p| - 1;
    while p[i] != x
      decreases i
      invariant i < |p| && x !in p[i + 1..]
      invariant x in p[..i + 1]
    {
      i := i - 1;
    }
  }

  // ----- correctness of the fixpoint -----

  /** Anything that satisfies the equations only lists blocks lying on every path. */
  lemma {:induction false} PreFixedIsSound(pred: Preds, dom: seq<set<nat>>, p: seq<nat>, v: nat, x: nat)
    requires Closed(pred) && |dom| == |pred| && dom[0] <= {0} && PreFixed(pred, dom)
    requires RootPath(pred, p, v) && x in dom[v]
    ensures x in p
    decreases |p|
  {
    assert p[|p| - 1] == v;
    if x != v && v != 0 {
      assert dom[v] <= Transfer(pred, dom, v);
      if |p| > 1 {
        var q := p[..|p| - 1];
        PathSlice(pred, p, 0, |p| - 1);
        assert p[0..|p| - 1] == q;
        assert Edge(pred, p[|p| - 2], p[|p| - 1]);
        PreFixedIsSound(pred, dom, q, p[|p| - 2], x);
      }
    }
  }

  lemma TransferKeepsDominators(pred: Preds, dom: seq<set<nat>>, v: nat)
    requires Closed(pred) && AboveDominators(pred, dom) && 1 <= v < |pred|
    ensures forall x: nat | x < |pred| && Dom(pred, x, v) :: x in Transfer(pred, dom, v)
  {
    forall x: nat | x < |pred| && Dom(pred, x, v) ensures x in Transfer(pred, dom, v) {
      if x != v {
        if pred[v] == {} {
          assert RootPath(pred, [v], v);
        }
        forall p | p in pred[v] ensures x in dom[p] {
          forall q | RootPath(pred, q, p) ensures x in q {
            PathExtend(pred, q, v);
            assert RootPath(pred, q + [v], v);
          }
        }
      }
    }
  }

  lemma TransferMonotone(pred: Preds, a: seq<set<nat>>, b: seq<set<nat>>, v: nat)
    requires |a| == |b| == |pred| && v < |pred|
    requires forall w | 0 <= w < |pred| :: a[w] <= b[w]
    ensures Transfer(pred, a, v) <= Transfer(pred, b, v)
  {}

  /** A fixpoint above the dominators is exact. How it was reached, and so the visiting order,
      plays no part. */
  lemma FixpointIsExact(pred: Preds, dom: seq<set<nat>>)
    requires Closed(pred) && InRange(pred, dom) && AboveDominators(pred, dom) && PreFixed(pred, dom)
    ensures Exact(pred, dom)
  {
    forall v, x | 0 <= v < |pred| && x in dom[v] ensures Dom(pred, x, v) {
      forall p | RootPath(pred, p, v) ensures x in p {
        PreFixedIsSound(pred, dom, p, v, x);
      }
    }
  }

  /** The result is the greatest solution of the equations. */
  lemma GreatestFixpoint(pred: Preds, dom: seq<set<nat>>, other: seq<set<nat>>)
    requires Closed(pred) && Exact(pred, dom)
    requires InRange(pred, other) && PreFixed(pred, other)
    ensures forall v | 0 <= v < |pred| :: other[v] <= dom[v]
  {
    forall v, x | 0 <= v < |pred| && x in other[v] ensures x in dom[v] {
      forall p | RootPath(pred, p, v) ensures x in p {
        PreFixedIsSound(pred, other, p, v, x);
      }
    }
  }

  /** The exact sets do solve the equations, so `GreatestFixpoint` names a solution. */
  lemma ExactIsFixpoint(pred: Preds, dom: seq<set<nat>>)
    requires Closed(pred) && Exact(pred, dom)
    ensures dom[0] == {0}
    ensures forall v | 1 <= v < |pred| :: dom[v] == Transfer(pred, dom, v)
  {
    assert RootPath(pred, [0], 0);
    assert dom[0] == {0} by {
      forall p | RootPath(pred, p, 0) ensures 0 in p { assert p[|p| - 1] == 0; }
    }
    forall v | 1 <= v < |pred| ensures dom[v] == Transfer(pred, dom, v) {
      TransferKeepsDominators(pred, dom, v);
      forall x | x in Transfer(pred, dom, v) ensures x in dom[v] {
        forall p | RootPath(pred, p, v) ensures x in p {
          assert p[|p| - 1] == v;
          if x != v {
            if |p| > 1 {
              PathSlice(pred, p, 0, |p| - 1);
              assert Edge(pred, p[|p| - 2], p[|p| - 1]);
              assert RootPath(pred, p[0..|p| - 1], p[|p| - 2]);
            }
          }
        }
      }
    }
  }

  /** One in-place update keeps everything the outer loop relies on. */
  lemma UpdateKeeps(pred: Preds, dom: seq<set<nat>>, v: nat)
    requires Closed(pred) && Sound(pred, dom) && 1 <= v < |pred|
    ensures Sound(pred, dom[v := Transfer(pred, dom, v)])
    ensures forall start | Shrinks(start, dom) :: Shrinks(start, dom[v := Transfer(pred, dom, v)])
    ensures Transfer(pred, dom, v) != dom[v] ==> Size(dom[v := Transfer(pred, dom, v)]) < Size(dom)
  {
    var s := Transfer(pred, dom, v);
    var d' := dom[v := s];
    TransferKeepsDominators(pred, dom, v);
    forall w | 1 <= w < |pred| ensures Transfer(pred, d', w) <= d'[w] {
      TransferMonotone(pred, d', dom, w);
    }
    if s != dom[v] {
      ProperSubsetSize(s, dom[v]);
      SizeUpdate(dom, v, s);
    }
  }

  lemma ProperSubsetSize(a: set<nat>, b: set<nat>)
    requires a < b
    ensures |a| < |b|
  {
    assert |b| == |a| + |b - a| by { assert b == a + (b - a); }
    assert b - a != {};
  }

  lemma StartKeeps(pred: Preds, dom: seq<set<nat>>)
    requires Closed(pred)
    requires |dom| == |pred| && dom[0] == {0}
    requires forall v | 1 <= v < |pred| :: dom[v] == Below(|pred|)
    ensures InRange(pred, dom) && AboveDominators(pred, dom) && PostFixed(pred, dom)
    ensures Size(dom) == (|pred| - 1) * |pred| + 1
  {
    assert RootPath(pred, [0], 0);
    var n := |pred|;
    forall v | 0 <= v < |dom[1..]| ensures |dom[1..][v]| == n {
      assert dom[1..][v] == dom[v + 1];
    }
    SizeBetween(dom[1..], n, n);
  }

  lemma SizeAtLeast(pred: Preds, dom: seq<set<nat>>)
    requires Closed(pred) && |dom| == |pred| && AboveDominators(pred, dom)
    ensures Size(dom) >= |pred|
  {
    forall v | 0 <= v < |dom| ensures 1 <= |dom[v]| {
      assert Dom(pred, v, v) by {
        forall p | RootPath(pred, p, v) ensures v in p { assert p[|p| - 1] == v; }
      }
      assert v in dom[v];
      assert {v} <= dom[v];
      if dom[v] == {v} {} else { ProperSubsetSize({v}, dom[v]); }
    }
    var hi := MaxSize(dom);
    SizeBetween(dom, 1, hi);
  }

  lemma MaxSize(dom: seq<set<nat>>) returns (m: nat)
    ensures forall v | 0 <= v < |dom| :: |dom[v]| <= m
  {
    m := 0;
    for i := 0 to |dom|
      invariant forall v | 0 <= v < i :: |dom[v]| <= m
    {
      if |dom[i]| > m { m := |dom[i]|; }
    }
  }

  lemma NothingBelowOne(pred: Preds, dom: seq<set<nat>>)
    requires Closed(pred) && 1 <= |dom| == |pred|
    ensures PreFixedBelow(pred, dom, 1) && Shrinks(dom, dom)
  {}

  lemma OneMoreBelow(pred: Preds, dom: seq<set<nat>>, v: nat)
    requires 1 <= v < |dom| == |pred|
    requires PreFixedBelow(pred, dom, v) && dom[v] == Transfer(pred, dom, v)
    ensures PreFixedBelow(pred, dom, v + 1)
  {}

  /** The body of the outer loop: every block but 0 re-evaluated once, each seeing the updates
      before it. */
  method Pass(pred: Preds, before: seq<set<nat>>) returns (dom: seq<set<nat>>, changed: bool)
    requires Closed(pred) && |before| == |pred| > 0 && Sound(pred, before)
    ensures |dom| == |pred| && Sound(pred, dom)
    ensures Shrinks(before, dom)
    ensures changed ==> Size(dom) < Size(before)
    ensures !changed ==> dom == before && PreFixedBelow(pred, dom, |pred|)
  {
    hide *;
    NothingBelowOne(pred, before);
    dom, changed := before, false;
    for v := 1 to |pred|
      invariant |dom| == |pred| && Sound(pred, dom) && Shrinks(before, dom)
      invariant if changed then Size(dom) < Size(before) else dom == before
      invariant !changed ==> PreFixedBelow(pred, before, v)
    {
      var meet := Transfer(pred, dom, v);
      UpdateKeeps(pred, dom, v);
      if meet != dom[v] {
        dom, changed := dom[v := meet], true;
      } else if !changed {
        OneMoreBelow(pred, before, v);
      }
    }
  }

  /** `dominators`: start from full sets and repeat passes until one changes nothing. `passes`
      counts them. */
  method Dominators(pred: Preds) returns (dom: seq<set<nat>>, ghost passes: nat)
    requires Closed(pred)
    ensures Exact(pred, dom)
    ensures passes <= (|pred| - 1) * (|pred| - 1) + 1
  {
    var full := Below(|pred|);
    dom := seq(|pred|, _ => full);
    dom := dom[0 := {0}];
    StartKeeps(pred, dom);
    ghost var start := Size(dom);
    var changed := true;
    passes := 0;
    while changed
      invariant Sound(pred, dom)
      invariant !changed ==> PreFixed(pred, dom)
      invariant passes + Size(dom) <= start + if changed then 0 else 1
      decreases Size(dom), changed
    {
      dom, changed := Pass(pred, dom);
      passes := passes + 1;
    }
    SizeAtLeast(pred, dom);
    FixpointIsExact(pred, dom);
  }

  // ----- what dominance means -----

  /** The dominators of a reachable block form a chain. */
  lemma DominatorsFormChain(pred: Preds, x: nat, y: nat, v: nat)
    requires Reachable(pred, v) && Dom(pred, x, v) && Dom(pred, y, v)
    ensures Dom(pred, x, y) || Dom(pred, y, x)
  {
    var p :| RootPath(pred, p, v);
    var i := LastIndex(p, x);
    var j := LastIndex(p, y);
    if i <= j {
      EarlierDominates(pred, p, v, x, y, i, j);
    } else {
      EarlierDominates(pred, p, v, y, x, j, i);
    }
  }

  lemma EarlierDominates(pred: Preds, p: seq<nat>, v: nat, x: nat, y: nat, i: nat, j: nat)
    requires RootPath(pred, p, v) && Dom(pred, x, v)
    requires i <= j < |p| && p[i] == x && p[j] == y && x !in p[i + 1..]
    ensures Dom(pred, x, y)
  {
    forall q | RootPath(pred, q, y) ensures x in q {
      PathSlice(pred, p, j, |p|);
      var t := p[j..|p|];
      PathJoin(pred, q, t);
      assert RootPath(pred, q + t[1..], v);
      assert x in q + t[1..];
      forall k | 0 <= k < |t[1..]| ensures t[1..][k] != x {
        assert t[1..][k] == p[i + 1..][j + k - i];
      }
    }
  }

  lemma DomAntisymmetric(pred: Preds, x: nat, y: nat)
    requires Reachable(pred, x) && Dom(pred, x, y) && Dom(pred, y, x)
    ensures x == y
  {
    var p :| RootPath(pred, p, x);
    var i := 0;
    while p[i] != x && p[i] != y
      decreases |p| - i
      invariant i < |p| && forall k | 0 <= k < i :: p[k] != x && p[k] != y
    {
      assert i < |p| - 1;
      i := i + 1;
    }
    PathSlice(pred, p, 0, i + 1);
    assert RootPath(pred, p[0..i + 1], p[i]);
  }

  lemma DominatorOfReachable(pred: Preds, x: nat, v: nat)
    requires Reachable(pred, v) && Dom(pred, x, v)
    ensures x < |pred| && Reachable(pred, x)
  {
    var p :| RootPath(pred, p, v);
    var i :| 0 <= i < |p| && p[i] == x;
    PathSlice(pred, p, 0, i + 1);
    assert RootPath(pred, p[0..i + 1], x);
  }
}
