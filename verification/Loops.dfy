/** Natural loops (tools/asmcensus/cfg.py, `natural_loops`): back edges into a dominating header,
    each flooded backwards, and the classical facts that make the loops a forest. */
module Loops {
  import opened Dominance

  ghost predicate BackEdge(pred: Preds, u: nat, h: nat) {
    Edge(pred, u, h) && Dom(pred, h, u)
  }

  ghost predicate ReachesAvoiding(pred: Preds, x: nat, u: nat, h: nat) {
    exists p :: PathTo(pred, x, p, u) && h !in p
  }

  ghost predicate Header(pred: Preds, h: nat) {
    exists u :: BackEdge(pred, u, h)
  }

  /** The natural loop of `h`: `h` itself and every block that reaches the source of a back edge
      without passing `h`. */
  ghost predicate Member(pred: Preds, h: nat, x: nat) {
    x == h || exists u :: BackEdge(pred, u, h) && ReachesAvoiding(pred, x, u, h)
  }

  ghost predicate ExactLoops(pred: Preds, loops: map<nat, set<nat>>) {
    && (forall h: nat :: h in loops <==> Header(pred, h))
    && forall h: nat, x: nat | h in loops :: x in loops[h] <==> Member(pred, h, x)
  }

  /** `cfg` returns the same edges twice, by source and by target. */
  ghost predicate Mirror(succ: seq<set<nat>>, pred: Preds) {
    && |succ| == |pred|
    && (forall u: nat, v: nat {:trigger v in succ[u]} | u < |succ| && v in succ[u] :: v < |pred| && u in pred[v])
    && (forall v: nat, u: nat {:trigger u in pred[v]} | v < |pred| && u in pred[v] :: u < |succ| && v in succ[u])
  }

  // ----- the flood -----

  lemma SingleBlockPath(pred: Preds, x: nat)
    requires x < |pred|
    ensures PathTo(pred, x, [x], x)
  {}

  lemma ReachesStep(pred: Preds, q: nat, x: nat, u: nat, h: nat)
    requires Edge(pred, q, x) && q != h && ReachesAvoiding(pred, x, u, h)
    ensures ReachesAvoiding(pred, q, u, h)
  {
    var p :| PathTo(pred, x, p, u) && h !in p;
    var r := [q] + p;
    forall i, j | 0 <= i && j == i + 1 && j < |r| ensures Edge(pred, r[i], r[j]) {
      if i > 0 { assert r[i] == p[i - 1] && r[j] == p[j - 1]; }
    }
    assert PathTo(pred, q, r, u) && h !in r;
  }

  lemma {:induction false} FloodReachesAll(pred: Preds, bs: set<nat>, p: seq<nat>, h: nat)
    requires Path(pred, p) && h !in p && p[|p| - 1] in bs
    requires forall x, q | x in bs && x != h && x < |pred| && q in pred[x] :: q in bs
    ensures p[0] in bs
    decreases |p|
  {
    if |p| > 1 {
      var i := |p| - 2;
      assert Edge(pred, p[i], p[i + 1]);
      PathSlice(pred, p, 0, |p| - 1);
      FloodReachesAll(pred, bs, p[0..|p| - 1], h);
    }
  }

  /** What the flood from a back edge `u -> h` has found so far, with `st` still to be expanded. */
  ghost predicate FloodSound(pred: Preds, u: nat, h: nat, bs: set<nat>, st: seq<nat>) {
    && h in bs && u in bs
    && (forall x | x in bs :: x < |pred| && (x == h || ReachesAvoiding(pred, x, u, h)))
    && (forall i | 0 <= i < |st| :: st[i] in bs && st[i] != h)
  }

  ghost predicate Expanded(pred: Preds, h: nat, bs: set<nat>, st: seq<nat>) {
    forall x, q | x in bs && x != h && x < |pred| && x !in st && q in pred[x] :: q in bs
  }

  /** Every predecessor of one block of the loop. */
  method Expand(pred: Preds, ghost u: nat, h: nat, x: nat, bs0: set<nat>, st0: seq<nat>)
    returns (bs: set<nat>, st: seq<nat>)
    requires Closed(pred) && x < |pred| && x != h && x in bs0
    requires FloodSound(pred, u, h, bs0, st0) && Expanded(pred, h, bs0, st0 + [x])
    ensures bs0 <= bs && FloodSound(pred, u, h, bs, st) && Expanded(pred, h, bs, st)
    ensures bs == bs0 ==> st == st0
  {
    bs, st := bs0, st0;
    var todo := pred[x];
    while todo != {}
      invariant todo <= pred[x] && pred[x] - todo <= bs && bs0 <= bs
      invariant FloodSound(pred, u, h, bs, st) && Expanded(pred, h, bs, st + [x])
      invariant bs == bs0 ==> st == st0
    {
      var q :| q in todo;
      todo := todo - {q};
      if q !in bs {
        assert Edge(pred, q, x);
        ReachesStep(pred, q, x, u, h);
        bs := bs + {q};
        if q != h {
          ghost var was := st;
          st := st + [q];
          assert forall y | y in was + [x] :: y in st + [x];
        }
      }
    }
  }

  method Flood(pred: Preds, u: nat, h: nat) returns (bs: set<nat>)
    requires Closed(pred) && u < |pred| && h < |pred|
    ensures forall x: nat :: x in bs <==> x == h || ReachesAvoiding(pred, x, u, h)
  {
    bs := {h, u};
    var st := if u == h then [] else [u];
    SingleBlockPath(pred, u);
    while st != []
      invariant FloodSound(pred, u, h, bs, st) && Expanded(pred, h, bs, st)
      decreases Below(|pred|) - bs, |st|
    {
      var x := st[|st| - 1];
      var rest := st[..|st| - 1];
      assert st == rest + [x];
      ghost var was := bs;
      bs, st := Expand(pred, u, h, x, bs, rest);
      assert forall y | y in bs :: y in Below(|pred|);
      if bs != was {
        var y :| y in bs && y !in was;
        assert y in Below(|pred|) - was;
      }
    }
    forall x: nat, p | PathTo(pred, x, p, u) && h !in p ensures x in bs {
      FloodReachesAll(pred, bs, p, h);
    }
  }

  // ----- all back edges -----

  /** The loops built from the edges in `done`. */
  ghost predicate LoopsFrom(pred: Preds, loops: map<nat, set<nat>>, done: set<(nat, nat)>) {
    && (forall h: nat :: h in loops <==> exists u :: (u, h) in done && BackEdge(pred, u, h))
    && forall h: nat, x: nat | h in loops ::
         x in loops[h] <==>
         x == h || exists u :: (u, h) in done && BackEdge(pred, u, h) && ReachesAvoiding(pred, x, u, h)
  }

  lemma AddEdge(pred: Preds, loops: map<nat, set<nat>>, done: set<(nat, nat)>, u: nat, h: nat, bs: set<nat>)
    requires LoopsFrom(pred, loops, done) && BackEdge(pred, u, h)
    requires forall x: nat :: x in bs <==> x == h || ReachesAvoiding(pred, x, u, h)
    ensures LoopsFrom(pred, loops[h := (if h in loops then loops[h] else {}) + bs], done + {(u, h)})
  {
    var done' := done + {(u, h)};
    var loops' := loops[h := (if h in loops then loops[h] else {}) + bs];
    forall g: nat | g in loops' ensures exists w :: (w, g) in done' && BackEdge(pred, w, g) {
      if g == h { assert (u, h) in done'; }
    }
    forall x: nat | x in loops'[h]
      ensures x == h || exists w :: (w, h) in done' && BackEdge(pred, w, h) && ReachesAvoiding(pred, x, w, h)
    {
      if x in bs { assert (u, h) in done'; }
    }
  }

  lemma SkipEdge(pred: Preds, loops: map<nat, set<nat>>, done: set<(nat, nat)>, u: nat, h: nat)
    requires LoopsFrom(pred, loops, done) && !BackEdge(pred, u, h)
    ensures LoopsFrom(pred, loops, done + {(u, h)})
  {}

  /** `natural_loops` after `cfg`: one flood per back edge, unioned by header. */
  method NaturalLoops(succ: seq<set<nat>>, pred: Preds) returns (loops: map<nat, set<nat>>)
    requires Closed(pred) && Mirror(succ, pred)
    ensures ExactLoops(pred, loops)
  {
    var dom, _ := Dominators(pred);
    loops := map[];
    ghost var done: set<(nat, nat)> := {};
    for u := 0 to |succ|
      invariant LoopsFrom(pred, loops, done)
      invariant forall w, h: nat | 0 <= w < u && h in succ[w] :: (w, h) in done
    {
      var todo := succ[u];
      while todo != {}
        invariant todo <= succ[u]
        invariant LoopsFrom(pred, loops, done)
        invariant forall w, h: nat | 0 <= w < u && h in succ[w] :: (w, h) in done
        invariant forall h | h in succ[u] - todo :: (u, h) in done
      {
        var h :| h in todo;
        todo := todo - {h};
        if h in dom[u] {
          var bs := Flood(pred, u, h);
          AddEdge(pred, loops, done, u, h, bs);
          loops := loops[h := (if h in loops then loops[h] else {}) + bs];
        } else {
          SkipEdge(pred, loops, done, u, h);
        }
        done := done + {(u, h)};
      }
    }
    EveryEdgeDone(succ, pred, loops, done);
  }

  lemma EveryEdgeDone(succ: seq<set<nat>>, pred: Preds, loops: map<nat, set<nat>>, done: set<(nat, nat)>)
    requires Mirror(succ, pred) && LoopsFrom(pred, loops, done)
    requires forall w, h: nat | 0 <= w < |succ| && h in succ[w] :: (w, h) in done
    ensures ExactLoops(pred, loops)
  {
    forall u: nat, h: nat | BackEdge(pred, u, h) ensures (u, h) in done {}
  }

  // ----- what the loops mean -----

  /** The header dominates every member, even a member that no root reaches. */
  lemma HeaderDominatesMembers(pred: Preds, h: nat, x: nat)
    requires Header(pred, h) && Member(pred, h, x)
    ensures Dom(pred, h, x)
  {
    if x == h {
      forall p | RootPath(pred, p, x) ensures h in p { assert p[|p| - 1] == h; }
    } else {
      var u :| BackEdge(pred, u, h) && ReachesAvoiding(pred, x, u, h);
      var q :| PathTo(pred, x, q, u) && h !in q;
      forall p | RootPath(pred, p, x) ensures h in p {
        PathJoin(pred, p, q);
        assert RootPath(pred, p + q[1..], u);
        assert h in p + q[1..];
      }
    }
  }

  /** A loop is entered only through its header. */
  lemma EnteredThroughHeader(pred: Preds, h: nat, q: nat, x: nat)
    requires Header(pred, h) && Member(pred, h, x) && x != h && Edge(pred, q, x)
    ensures Member(pred, h, q)
  {
    if q != h {
      var u :| BackEdge(pred, u, h) && ReachesAvoiding(pred, x, u, h);
      ReachesStep(pred, q, x, u, h);
    }
  }

  /** A path that starts at `h`, never returns to it and ends at a member stays in the loop. */
  lemma {:induction false} StaysInside(pred: Preds, h: nat, p: seq<nat>)
    requires Header(pred, h) && Path(pred, p) && p[0] == h && h !in p[1..]
    requires Member(pred, h, p[|p| - 1])
    ensures forall i | 0 <= i < |p| :: Member(pred, h, p[i])
    decreases |p|
  {
    if |p| > 1 {
      var i := |p| - 2;
      assert Edge(pred, p[i], p[i + 1]);
      assert p[i + 1] in p[1..];
      EnteredThroughHeader(pred, h, p[i], p[i + 1]);
      PathSlice(pred, p, 0, |p| - 1);
      assert p[0..|p| - 1][1..] <= p[1..];
      StaysInside(pred, h, p[0..|p| - 1]);
      forall k | 0 <= k < |p| ensures Member(pred, h, p[k]) {
        if k < |p| - 1 { assert p[k] == p[0..|p| - 1][k]; }
      }
    }
  }

  /** The header reaches every root-reachable member without leaving the loop or returning to the
      header. */
  lemma HeaderReachesMember(pred: Preds, h: nat, x: nat) returns (p: seq<nat>)
    requires Header(pred, h) && Member(pred, h, x) && Reachable(pred, x)
    ensures PathTo(pred, h, p, x) && h !in p[1..]
    ensures forall i | 0 <= i < |p| :: Member(pred, h, p[i])
  {
    HeaderDominatesMembers(pred, h, x);
    var r :| RootPath(pred, r, x);
    var i := LastIndex(r, h);
    PathSlice(pred, r, i, |r|);
    p := r[i..|r|];
    assert p[1..] == r[i + 1..];
    StaysInside(pred, h, p);
  }

  /** Blocks on the way from a member to a back edge are members. */
  lemma TailInside(pred: Preds, h: nat, u: nat, q: seq<nat>)
    requires BackEdge(pred, u, h) && Path(pred, q) && q[|q| - 1] == u && h !in q
    ensures forall i | 0 <= i < |q| :: Member(pred, h, q[i])
  {
    forall i | 0 <= i < |q| ensures Member(pred, h, q[i]) {
      PathSlice(pred, q, i, |q|);
      assert PathTo(pred, q[i], q[i..|q|], u);
    }
  }

  /** Every other member leads back to the header along members. */
  lemma MemberReachesHeader(pred: Preds, h: nat, x: nat) returns (p: seq<nat>)
    requires Header(pred, h) && Member(pred, h, x) && x != h
    ensures PathTo(pred, x, p, h) && |p| > 1
    ensures forall i | 0 <= i < |p| :: Member(pred, h, p[i])
  {
    var u :| BackEdge(pred, u, h) && ReachesAvoiding(pred, x, u, h);
    var q :| PathTo(pred, x, q, u) && h !in q;
    TailInside(pred, h, u, q);
    p := q + [h];
    PathExtend(pred, q, h);
  }

  /** `x` lies on a cycle through the header that uses only blocks of the loop. */
  ghost predicate OnCycle(pred: Preds, h: nat, x: nat) {
    exists p :: PathTo(pred, h, p, h) && |p| > 1 && x in p && forall i | 0 <= i < |p| :: Member(pred, h, p[i])
  }

  lemma ReachableMemberOnCycle(pred: Preds, h: nat, x: nat)
    requires Header(pred, h) && Member(pred, h, x) && x != h && Reachable(pred, x)
    ensures OnCycle(pred, h, x)
  {
    var there := HeaderReachesMember(pred, h, x);
    var back := MemberReachesHeader(pred, h, x);
    PathJoin(pred, there, back);
    var p := there + back[1..];
    assert p[|there| - 1] == x;
    assert PathTo(pred, h, p, h);
  }

  /** The natural loop of a reachable header is strongly connected within itself exactly when it
      holds no dead block. */
  lemma StronglyConnectedIff(pred: Preds, h: nat)
    requires Header(pred, h) && Reachable(pred, h)
    ensures (forall x | Member(pred, h, x) :: OnCycle(pred, h, x))
       <==> (forall x | Member(pred, h, x) :: Reachable(pred, x))
  {
    if forall x | Member(pred, h, x) :: Reachable(pred, x) {
      forall x | Member(pred, h, x) ensures OnCycle(pred, h, x) {
        if x != h {
          ReachableMemberOnCycle(pred, h, x);
        } else {
          HeaderOnCycle(pred, h);
        }
      }
    }
    forall x | Member(pred, h, x) && OnCycle(pred, h, x) ensures Reachable(pred, x) {
      OnCycleReachable(pred, h, x);
    }
  }

  lemma HeaderOnCycle(pred: Preds, h: nat)
    requires Header(pred, h)
    requires forall x | Member(pred, h, x) :: Reachable(pred, x)
    ensures OnCycle(pred, h, h)
  {
    var u :| BackEdge(pred, u, h);
    if u == h {
      assert PathTo(pred, h, [h, h], h);
    } else {
      SingleBlockPath(pred, u);
      assert ReachesAvoiding(pred, u, u, h);
      ReachableMemberOnCycle(pred, h, u);
      var p :| PathTo(pred, h, p, h) && |p| > 1 && u in p && forall i | 0 <= i < |p| :: Member(pred, h, p[i]);
      assert p[0] == h;
    }
  }

  lemma OnCycleReachable(pred: Preds, h: nat, x: nat)
    requires Reachable(pred, h) && OnCycle(pred, h, x)
    ensures Reachable(pred, x)
  {
    var p :| PathTo(pred, h, p, h) && |p| > 1 && x in p && forall i | 0 <= i < |p| :: Member(pred, h, p[i]);
    var r :| RootPath(pred, r, h);
    var i :| 0 <= i < |p| && p[i] == x;
    PathSlice(pred, p, 0, i + 1);
    var q := p[0..i + 1];
    PathJoin(pred, r, q);
    assert RootPath(pred, r + q[1..], x);
  }

  ghost predicate StrictlyInside(pred: Preds, inner: nat, outer: nat) {
    (forall y | Member(pred, inner, y) :: Member(pred, outer, y)) && !Member(pred, inner, outer)
  }

  lemma DominatedLoopIsInside(pred: Preds, g: nat, h: nat, x: nat)
    requires Header(pred, g) && Header(pred, h) && g != h
    requires Reachable(pred, x) && Member(pred, g, x) && Member(pred, h, x) && Dom(pred, g, h)
    ensures StrictlyInside(pred, h, g)
  {
    HeaderDominatesMembers(pred, h, x);
    DominatorOfReachable(pred, h, x);
    DominatorOfReachable(pred, g, h);
    if Member(pred, h, g) {
      HeaderDominatesMembers(pred, h, g);
      DomAntisymmetric(pred, g, h);
      assert false;
    }
    var u :| BackEdge(pred, u, g) && ReachesAvoiding(pred, x, u, g);
    var tail :| PathTo(pred, x, tail, u) && g !in tail;
    var there := HeaderReachesMember(pred, h, x);
    PathJoin(pred, there, tail);
    var out := there + tail[1..];   // h ... x ... u, never through g
    assert PathTo(pred, h, out, u) && g !in out;
    forall y | Member(pred, h, y) ensures Member(pred, g, y) {
      if y == h {
        assert ReachesAvoiding(pred, h, u, g);
      } else {
        var back := MemberReachesHeader(pred, h, y);
        PathJoin(pred, back, out);
        assert PathTo(pred, y, back + out[1..], u) && g !in back + out[1..];
      }
    }
  }

  /** Two loops that share a reachable block are nested: one lies inside the other and leaves out
      the other's header. With every block reachable, any two loops are nested or disjoint. */
  lemma NestedOrDisjoint(pred: Preds, g: nat, h: nat, x: nat)
    requires Header(pred, g) && Header(pred, h) && g != h
    requires Reachable(pred, x) && Member(pred, g, x) && Member(pred, h, x)
    ensures StrictlyInside(pred, h, g) || StrictlyInside(pred, g, h)
  {
    HeaderDominatesMembers(pred, g, x);
    HeaderDominatesMembers(pred, h, x);
    DominatorsFormChain(pred, g, h, x);
    if Dom(pred, g, h) {
      DominatedLoopIsInside(pred, g, h, x);
    } else {
      DominatedLoopIsInside(pred, h, g, x);
    }
  }

  /** Exactly when two loops nest; `OverlapThroughDeadBlock` meets neither side. */
  lemma NestedIff(pred: Preds, g: nat, h: nat)
    requires Header(pred, g) && Header(pred, h) && Reachable(pred, g) && Reachable(pred, h) && g != h
    ensures StrictlyInside(pred, h, g) || StrictlyInside(pred, g, h)
       <==> exists x: nat :: Reachable(pred, x) && Member(pred, g, x) && Member(pred, h, x)
  {
    if x: nat :| Reachable(pred, x) && Member(pred, g, x) && Member(pred, h, x) {
      NestedOrDisjoint(pred, g, h, x);
    }
    assert Member(pred, g, g) && Member(pred, h, h);
  }

  // ----- headers no root reaches -----

  ghost predicate Reaches(pred: Preds, x: nat, y: nat) {
    exists p :: PathTo(pred, x, p, y)
  }

  lemma ReachesTwice(pred: Preds, x: nat, y: nat, z: nat)
    requires Reaches(pred, x, y) && Reaches(pred, y, z)
    ensures Reaches(pred, x, z)
  {
    var p :| PathTo(pred, x, p, y);
    var q :| PathTo(pred, y, q, z);
    PathJoin(pred, p, q);
    assert PathTo(pred, x, p + q[1..], z);
  }

  /** Only dead blocks lead to a dead block. */
  lemma LeadsToDead(pred: Preds, x: nat, y: nat)
    requires Reaches(pred, x, y) && !Reachable(pred, y)
    ensures !Reachable(pred, x)
  {
    var p :| PathTo(pred, x, p, y);
    if r :| RootPath(pred, r, x) {
      PathJoin(pred, r, p);
      assert RootPath(pred, r + p[1..], y);
    }
  }

  /** A path to `h` first meets it over an edge from a block that gets there without `h`. */
  lemma {:induction false} FirstArrival(pred: Preds, x: nat, p: seq<nat>, h: nat) returns (u: nat)
    requires PathTo(pred, x, p, h) && x != h
    ensures Edge(pred, u, h) && ReachesAvoiding(pred, x, u, h)
    decreases |p|
  {
    var n := |p| - 1;
    PathSlice(pred, p, 0, n);
    var q := p[0..n];
    if i :| 0 <= i < n && q[i] == h {
      PathSlice(pred, p, 0, i + 1);
      u := FirstArrival(pred, x, p[0..i + 1], h);
    } else {
      u := p[n - 1];
      assert PathTo(pred, x, q, u) && h !in q;
      assert Edge(pred, p[n - 1], p[n]);
    }
  }

  /** The loop of a dead header is every block that leads to it. */
  lemma DeadLoop(pred: Preds, h: nat, x: nat)
    requires Header(pred, h) && !Reachable(pred, h)
    ensures Member(pred, h, x) <==> Reaches(pred, x, h)
  {
    if x == h {
      var u :| BackEdge(pred, u, h);
      SingleBlockPath(pred, h);
    } else if Member(pred, h, x) {
      var p := MemberReachesHeader(pred, h, x);
      assert PathTo(pred, x, p, h);
    } else if Reaches(pred, x, h) {
      IntoDeadLoop(pred, h, x);
    }
  }

  lemma IntoDeadLoop(pred: Preds, h: nat, x: nat)
    requires !Reachable(pred, h) && Reaches(pred, x, h) && x != h
    ensures Member(pred, h, x)
  {
    var p :| PathTo(pred, x, p, h);
    var u := FirstArrival(pred, x, p, h);
    assert PathTo(pred, u, [u, h], h);
    LeadsToDead(pred, u, h);
    assert BackEdge(pred, u, h);
  }

  /** Such a loop is strongly connected exactly when its header leads to whatever leads to it. */
  lemma DeadStronglyConnectedIff(pred: Preds, h: nat)
    requires Header(pred, h) && !Reachable(pred, h)
    ensures (forall x | Member(pred, h, x) :: OnCycle(pred, h, x))
       <==> (forall x | Reaches(pred, x, h) :: Reaches(pred, h, x))
  {
    forall x | Reaches(pred, x, h) && OnCycle(pred, h, x) ensures Reaches(pred, h, x) {
      var p :| PathTo(pred, h, p, h) && |p| > 1 && x in p && forall i | 0 <= i < |p| :: Member(pred, h, p[i]);
      var i :| 0 <= i < |p| && p[i] == x;
      PathSlice(pred, p, 0, i + 1);
      assert PathTo(pred, h, p[0..i + 1], x);
    }
    forall x ensures Member(pred, h, x) <==> Reaches(pred, x, h) { DeadLoop(pred, h, x); }
    if forall x | Reaches(pred, x, h) :: Reaches(pred, h, x) {
      forall x | Member(pred, h, x) ensures OnCycle(pred, h, x) { DeadOnCycle(pred, h, x); }
    }
  }

  lemma DeadOnCycle(pred: Preds, h: nat, x: nat)
    requires Header(pred, h) && !Reachable(pred, h) && Member(pred, h, x)
    requires forall y | Reaches(pred, y, h) :: Reaches(pred, h, y)
    ensures OnCycle(pred, h, x)
  {
    if x == h {
      var u :| BackEdge(pred, u, h);
      assert PathTo(pred, u, [u, h], h);
      assert Reaches(pred, u, h);
      var p :| PathTo(pred, h, p, u);
      PathExtend(pred, p, h);
      AllLeadTo(pred, h, p + [h]);
      assert PathTo(pred, h, p + [h], h) && (p + [h])[0] == h;
    } else {
      DeadLoop(pred, h, x);
      var there :| PathTo(pred, h, there, x);
      var back := MemberReachesHeader(pred, h, x);
      PathJoin(pred, there, back);
      var p := there + back[1..];
      assert p[|there| - 1] == x;
      AllLeadTo(pred, h, p);
      assert PathTo(pred, h, p, h);
    }
  }

  lemma AllLeadTo(pred: Preds, h: nat, p: seq<nat>)
    requires Header(pred, h) && !Reachable(pred, h) && Path(pred, p) && p[|p| - 1] == h
    ensures forall i | 0 <= i < |p| :: Member(pred, h, p[i])
  {
    forall i | 0 <= i < |p| ensures Member(pred, h, p[i]) {
      PathSlice(pred, p, i, |p|);
      assert PathTo(pred, p[i], p[i..|p|], h);
      DeadLoop(pred, h, p[i]);
    }
  }

  /** Two loops of dead headers nest exactly when one header leads to the other and not back. */
  lemma DeadNestedIff(pred: Preds, g: nat, h: nat)
    requires Header(pred, g) && Header(pred, h) && !Reachable(pred, g) && !Reachable(pred, h) && g != h
    ensures StrictlyInside(pred, g, h) <==> Reaches(pred, g, h) && !Reaches(pred, h, g)
  {
    DeadLoop(pred, h, g);
    DeadLoop(pred, g, h);
    forall y | Member(pred, g, y) && Reaches(pred, g, h) ensures Member(pred, h, y) {
      DeadLoop(pred, g, y);
      ReachesTwice(pred, y, g, h);
      DeadLoop(pred, h, y);
    }
    assert Member(pred, g, g);
  }

  /** A loop of a dead header lies inside that of a reachable one exactly when its header does; never the
      other way round. */
  lemma MixedNestedIff(pred: Preds, g: nat, h: nat)
    requires Header(pred, g) && Header(pred, h) && Reachable(pred, g) && !Reachable(pred, h)
    ensures StrictlyInside(pred, h, g) <==> Member(pred, g, h)
    ensures !StrictlyInside(pred, g, h)
  {
    DeadLoop(pred, h, g);
    if Reaches(pred, g, h) { LeadsToDead(pred, g, h); }
    assert Member(pred, g, g) && Member(pred, h, h);
    forall y | Member(pred, h, y) && Member(pred, g, h) ensures Member(pred, g, y) {
      DeadLoop(pred, h, y);
      InsideThroughDead(pred, g, h, y);
    }
  }

  lemma InsideThroughDead(pred: Preds, g: nat, h: nat, y: nat)
    requires Reachable(pred, g) && !Reachable(pred, h) && Member(pred, g, h) && Reaches(pred, y, h)
    ensures Member(pred, g, y)
  {
    var u :| BackEdge(pred, u, g) && ReachesAvoiding(pred, h, u, g);
    var tail :| PathTo(pred, h, tail, u) && g !in tail;
    var p :| PathTo(pred, y, p, h);
    if i :| 0 <= i < |p| && p[i] == g {
      PathSlice(pred, p, i, |p|);
      assert PathTo(pred, g, p[i..|p|], h);
      LeadsToDead(pred, g, h);
    }
    PathJoin(pred, p, tail);
    assert PathTo(pred, y, p + tail[1..], u) && g !in p + tail[1..];
  }

  // ----- dead code breaks the nesting -----

  lemma {:induction false} DeadSelfLoop(pred: Preds, p: seq<nat>, d: nat)
    requires d < |pred| && pred[d] == {d} && Path(pred, p) && p[|p| - 1] == d
    ensures p[0] == d
    decreases |p|
  {
    if |p| > 1 {
      assert Edge(pred, p[|p| - 2], p[|p| - 1]);
      PathSlice(pred, p, 0, |p| - 1);
      DeadSelfLoop(pred, p[0..|p| - 1], d);
    }
  }

  /** A dead block that jumps to itself and into two live blocks makes two loops that overlap
      without nesting: reachability of the shared block cannot be dropped. */
  lemma OverlapThroughDeadBlock()
    ensures var pred: Preds := [{}, {0, 3}, {0, 3}, {3}];
      && Closed(pred) && Header(pred, 1) && Header(pred, 2) && Member(pred, 1, 3) && Member(pred, 2, 3)
      && !StrictlyInside(pred, 1, 2) && !StrictlyInside(pred, 2, 1) && !Reachable(pred, 3)
  {
    var pred: Preds := [{}, {0, 3}, {0, 3}, {3}];
    forall p | RootPath(pred, p, 3) ensures false {
      DeadSelfLoop(pred, p, 3);
    }
    assert BackEdge(pred, 3, 1) && BackEdge(pred, 3, 2);
    assert PathTo(pred, 3, [3], 3);
    OnlyDeadBackEdge(pred, 1);
    OnlyDeadBackEdge(pred, 2);
    assert Member(pred, 1, 1) && Member(pred, 2, 2);
  }

  lemma OnlyDeadBackEdge(pred: Preds, h: nat)
    requires pred == [{}, {0, 3}, {0, 3}, {3}] && (h == 1 || h == 2)
    ensures !Member(pred, h, 3 - h)
  {
    assert RootPath(pred, [0], 0);
    var other := 3 - h;
    forall u | BackEdge(pred, u, h) ensures !ReachesAvoiding(pred, other, u, h) {
      assert u == 3;
      forall p | PathTo(pred, other, p, u) ensures false {
        DeadSelfLoop(pred, p, 3);
      }
    }
  }

  // ----- the innermost loop around a block -----

  datatype Choice = NoLoop | Innermost(header: nat)

  predicate Candidate(loops: map<nat, set<nat>>, eligible: set<nat>, b: nat, h: nat) {
    h in loops && h in eligible && b in loops[h]
  }

  /** `min` over the tuples (size, header). */
  predicate Before(loops: map<nat, set<nat>>, g: nat, h: nat)
    requires g in loops && h in loops
  {
    |loops[g]| < |loops[h]| || (|loops[g]| == |loops[h]| && g <= h)
  }

  /** The choice in `score_inlined` (tools/asmcensus/score.py): of the eligible loops holding block
      `b`, the one with the fewest blocks, then the lowest header. For a block that can be reached,
      choosing by size is choosing by containment. */
  method SmallestContaining(ghost pred: Preds, loops: map<nat, set<nat>>, eligible: set<nat>, b: nat)
    returns (r: Choice)
    requires ExactLoops(pred, loops)
    ensures r.NoLoop? <==> forall h: nat :: !(h in loops && h in eligible && b in loops[h])
    ensures r.Innermost? ==> r.header in loops && r.header in eligible && b in loops[r.header]
    ensures r.Innermost? ==> forall h: nat | h in loops && h in eligible && b in loops[h] ::
              |loops[r.header]| < |loops[h]| || (|loops[r.header]| == |loops[h]| && r.header <= h)
    ensures r.Innermost? && Reachable(pred, b) ==> forall h: nat | Candidate(loops, eligible, b, h) && h != r.header ::
              loops[r.header] < loops[h] && h !in loops[r.header]
  {
    r := NoLoop;
    var todo := loops.Keys;
    while todo != {}
      invariant todo <= loops.Keys
      invariant r.Innermost? ==> Candidate(loops, eligible, b, r.header)
      invariant forall h: nat | Candidate(loops, eligible, b, h) && h !in todo ::
                  r.Innermost? && Before(loops, r.header, h)
    {
      var h :| h in todo;
      todo := todo - {h};
      if h in eligible && b in loops[h] && (r.NoLoop? || Before(loops, h, r.header)) {
        r := Innermost(h);
      }
    }
    forall h: nat | h in loops && h in eligible && b in loops[h] ensures r.Innermost? && Before(loops, r.header, h) {
      assert Candidate(loops, eligible, b, h);
    }
    if r.Innermost? && Reachable(pred, b) {
      forall h: nat | Candidate(loops, eligible, b, h) && h != r.header
        ensures loops[r.header] < loops[h] && h !in loops[r.header]
      {
        NestedOrDisjoint(pred, r.header, h, b);
        if StrictlyInside(pred, h, r.header) {
          assert loops[h] < loops[r.header];
          ProperSubsetSize(loops[h], loops[r.header]);
        } else {
          assert h in loops[h];
        }
      }
    }
  }
}
