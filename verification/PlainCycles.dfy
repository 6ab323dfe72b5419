/** The module-level search of tools/asmcensus/paths2.py: the shortest cycle over plain blocks, each
    edge priced by its first segment. */
module PlainCycles {
  import opened Asm
  import Dominance
  import opened Segments
  import opened ShortestWalks
  import opened CycleSearch

  datatype Plain = Plain(blocks: seq<Block>, succ: seq<set<nat>>, h: nat, bs: set<nat>, avoid: set<Label>, nocall: bool)

  ghost predicate PlainOk(q: Plain) {
    EdgesInRange(q.blocks, q.succ) && q.h < |q.blocks|
  }

  /** `seg(u, v)` */
  function FirstSeg(blocks: seq<Block>, u: nat, v: nat): seq<Instr>
    requires u < |blocks| && v < |blocks|
  {
    blocks[u].code[..Cut(blocks[u].code, blocks[v].name)]
  }

  /** `ok_seg(u, v)`. Here, unlike in `shortest`, the header is not exempt from the avoided labels
      and every call counts. */
  predicate OkSeg(q: Plain, u: nat, v: nat)
    requires u < |q.blocks| && v < |q.blocks|
  {
    && q.blocks[v].name !in q.avoid
    && (q.nocall ==> forall i | 0 <= i < |FirstSeg(q.blocks, u, v)| :: !FirstSeg(q.blocks, u, v)[i].call)
  }

  ghost predicate PlainHop(q: Plain, e: Hop<nat>) {
    && e.src < |q.blocks| && e.src < |q.succ| && e.dst < |q.blocks| && e.dst in q.succ[e.src]
    && e.seg == FirstSeg(q.blocks, e.src, e.dst) && OkSeg(q, e.src, e.dst)
  }

  ghost predicate PlainInner(q: Plain, e: Hop<nat>) {
    PlainHop(q, e) && e.dst != q.h && e.dst in q.bs
  }

  ghost predicate PlainLast(q: Plain, e: Hop<nat>) {
    PlainHop(q, e) && e.dst == q.h && e.src in q.bs
  }

  ghost function PlainHops(q: Plain): Hops<nat> {
    iset e: Hop<nat> | PlainInner(q, e)
  }

  ghost predicate AnyPlainCycle(q: Plain, w: seq<Hop<nat>>) {
    && |w| > 0
    && Walk(PlainHops(q), q.h, w[..|w| - 1], w[|w| - 1].src)
    && PlainLast(q, w[|w| - 1])
  }

  /** A cycle that reaches its last region below the 1e18 default. */
  ghost predicate PlainCycle(q: Plain, w: seq<Hop<nat>>) {
    AnyPlainCycle(q, w) && Cost(w[..|w| - 1]) < UNREACHED
  }

  // ----- which cycles are meant -----

  /** A round trip from the header over first segments, inside the loop and not through the header on its way. */
  ghost predicate PlainRound(q: Plain, w: seq<Hop<nat>>) {
    && |w| > 0 && Chained(q.h, w, q.h) && w[|w| - 1].src in q.bs
    && (forall i | 0 <= i < |w| :: AlongPlainEdge(q, w[i]))
    && (forall i | 0 <= i < |w| - 1 :: w[i].dst in q.bs && w[i].dst != q.h)
  }

  ghost predicate AlongPlainEdge(q: Plain, e: Hop<nat>) {
    && e.src < |q.blocks| && e.src < |q.succ| && e.dst < |q.blocks| && e.dst in q.succ[e.src]
    && e.seg == FirstSeg(q.blocks, e.src, e.dst)
  }

  /** It executes no call if calls are ruled out, and enters no avoided region, not even the header. */
  ghost predicate Permitted(q: Plain, w: seq<Hop<nat>>) {
    && (q.nocall ==> forall t | t in Executed(w) :: !t.call)
    && forall i | 0 <= i < |w| && w[i].dst < |q.blocks| :: q.blocks[w[i].dst].name !in q.avoid
  }

  /** The cycles over which the search is least are the permitted round trips. */
  lemma PlainCycleIff(q: Plain, w: seq<Hop<nat>>)
    ensures AnyPlainCycle(q, w) <==> PlainRound(q, w) && Permitted(q, w)
  {
    hide Walk, Executed, FirstSeg;
    if |w| > 0 {
      var n := |w| - 1;
      WalkIff(PlainHops(q), q.h, w[..n], w[n].src);
      ChainedSnoc(q.h, w, q.h);
      NoCallsIff(w);
      assert forall i | 0 <= i < n :: w[..n][i] == w[i];
      assert forall i | 0 <= i < |w| :: i < n || w[i] == w[n];
    }
  }

  lemma NoCallsIff(w: seq<Hop<nat>>)
    ensures (forall t | t in Executed(w) :: !t.call) <==>
            forall i, j | 0 <= i < |w| && 0 <= j < |w[i].seg| :: !w[i].seg[j].call
  {
    hide Executed;
    forall t ensures t in Executed(w) <==> exists i :: 0 <= i < |w| && t in w[i].seg { ExecutedIff(w, t); }
    forall i, j | 0 <= i < |w| && 0 <= j < |w[i].seg| ensures w[i].seg[j] in Executed(w) {
      assert w[i].seg[j] in w[i].seg;
    }
  }

  // ----- the search -----

  datatype PlainBest = NoPath | Path(cost: nat, at: nat)

  function EdgeTo(q: Plain, u: nat, v: nat): Hop<nat>
    requires u < |q.blocks| && v < |q.blocks|
  {
    Hop(u, FirstSeg(q.blocks, u, v), v)
  }

  ghost predicate Turned(q: Plain, st: Frontier<nat>, best: PlainBest, u: nat, v: nat)
    requires u < |q.blocks| && v < |q.blocks|
  {
    && (PlainInner(q, EdgeTo(q, u, v)) ==> Settled(st.dist, EdgeTo(q, u, v)))
    && (PlainLast(q, EdgeTo(q, u, v)) ==>
          best.Path? && u in st.dist && best.cost <= st.dist[u] + |FirstSeg(q.blocks, u, v)|)
  }

  ghost predicate PlainBestOk(q: Plain, st: Frontier<nat>, rank: map<nat, nat>, best: PlainBest) {
    best.Path? ==>
      && best.at in rank && best.at in st.dist && best.at < |q.blocks| && q.h < |q.blocks|
      && PlainLast(q, EdgeTo(q, best.at, q.h))
      && best.cost == st.dist[best.at] + |FirstSeg(q.blocks, best.at, q.h)|
  }

  ghost predicate PlainInv(q: Plain, st: Frontier<nat>, best: PlainBest, rank: map<nat, nat>, now: nat) {
    && PlainOk(q)
    && Inv(PlainHops(q), q.h, st, rank, now)
    && PlainBestOk(q, st, rank, best)
    && (forall x | x in st.dist :: x < |q.blocks| && x in q.bs + {q.h})
  }

  ghost predicate PlainAdvance(st: Frontier<nat>, best: PlainBest, st': Frontier<nat>, best': PlainBest,
                               rank: map<nat, nat>)
  {
    Progress(st, st', rank) && (best.Path? ==> best'.Path? && best'.cost <= best.cost)
  }

  lemma PlainRelax(q: Plain, st: Frontier<nat>, best: PlainBest, rank: map<nat, nat>, d: nat, u: nat, v: nat)
    requires PlainInv(q, st, best, rank, d) && u in rank && u in st.dist && d == st.dist[u]
    requires u < |q.blocks| && v < |q.blocks| && v in q.succ[u] && v != q.h && v in q.bs && OkSeg(q, u, v)
    ensures var st' := Relax(st, d, EdgeTo(q, u, v));
            PlainInv(q, st', best, rank, d) && PlainAdvance(st, best, st', best, rank) && Turned(q, st', best, u, v)
  {
    RelaxKeeps(PlainHops(q), q.h, st, rank, d, EdgeTo(q, u, v));
    var st' := Relax(st, d, EdgeTo(q, u, v));
    assert forall x | x in st'.dist :: x in st.dist || x == v;
    if best.Path? { assert best.at in rank && best.at in st.dist; }
  }

  lemma PlainClose(q: Plain, st: Frontier<nat>, best: PlainBest, rank: map<nat, nat>, d: nat, u: nat)
    requires PlainInv(q, st, best, rank, d) && u in rank && u in st.dist && d == st.dist[u]
    requires u < |q.blocks| && q.h in q.succ[u] && u in q.bs && OkSeg(q, u, q.h)
    ensures var c := d + |FirstSeg(q.blocks, u, q.h)|;
            var best' := if best.NoPath? || c < best.cost then Path(c, u) else best;
            PlainInv(q, st, best', rank, d) && PlainAdvance(st, best, st, best', rank) && Turned(q, st, best', u, q.h)
  {}

  lemma TurnedPersists(q: Plain, st: Frontier<nat>, best: PlainBest, st': Frontier<nat>, best': PlainBest,
                       rank: map<nat, nat>, u: nat, v: nat)
    requires PlainAdvance(st, best, st', best', rank) && u in rank && u in st.dist
    requires u < |q.blocks| && v < |q.blocks| && Turned(q, st, best, u, v)
    ensures u in st'.dist && st'.dist[u] == st.dist[u] && Turned(q, st', best', u, v)
  {
    var e := EdgeTo(q, u, v);
    if Settled(st.dist, e) { SettledPersists(st, st', rank, e); }
  }

  /** One edge: it closes a cycle, is relaxed, or is ruled out. */
  method PlainStep(q: Plain, st: Frontier<nat>, best: PlainBest, ghost rank: map<nat, nat>, d: nat, u: nat, v: nat)
    returns (st': Frontier<nat>, best': PlainBest)
    requires PlainInv(q, st, best, rank, d) && u in rank && u in st.dist && d == st.dist[u]
    requires u < |q.blocks| == |q.succ| && v < |q.blocks| && v in q.succ[u]
    ensures PlainInv(q, st', best', rank, d) && PlainAdvance(st, best, st', best', rank)
    ensures u in st'.dist && d == st'.dist[u] && Turned(q, st', best', u, v)
  {
    st', best' := st, best;
    var cut := CutScan(q.blocks[u].code, q.blocks[v].name);
    var seg := q.blocks[u].code[..cut];
    if v == q.h {
      if u in q.bs && OkSeg(q, u, v) {
        PlainClose(q, st, best, rank, d, u);
        if best.NoPath? || d + |seg| < best.cost {
          best' := Path(d + |seg|, u);
        }
      }
    } else if v in q.bs && OkSeg(q, u, v) {
      PlainRelax(q, st, best, rank, d, u, v);
      StillThere(st, Relax(st, d, Hop(u, seg, v)), rank, u);
      st' := Relax(st, d, Hop(u, seg, v));
    }
  }

  lemma StillThere(st: Frontier<nat>, st': Frontier<nat>, rank: map<nat, nat>, u: nat)
    requires Progress(st, st', rank) && u in rank && u in st.dist
    ensures u in st'.dist && st'.dist[u] == st.dist[u]
  {}

  ghost predicate AllTurned(q: Plain, st: Frontier<nat>, best: PlainBest, u: nat) {
    u < |q.blocks| && u < |q.succ| && forall v: nat | v in q.succ[u] && v < |q.blocks| :: Turned(q, st, best, u, v)
  }

  lemma PlainFacts(q: Plain, st: Frontier<nat>, best: PlainBest, rank: map<nat, nat>, now: nat, u: nat)
    requires PlainInv(q, st, best, rank, now) && u in st.dist
    ensures u < |q.blocks| == |q.succ| && (forall v | v in q.succ[u] :: v < |q.blocks|)
    ensures PlainAdvance(st, best, st, best, rank)
  {}

  lemma PlainAdvanceTwice(st: Frontier<nat>, best: PlainBest, st1: Frontier<nat>, best1: PlainBest,
                          st2: Frontier<nat>, best2: PlainBest, rank: map<nat, nat>)
    requires PlainAdvance(st, best, st1, best1, rank) && PlainAdvance(st1, best1, st2, best2, rank)
    ensures PlainAdvance(st, best, st2, best2, rank)
  {}

  /** All edges out of the block just expanded. */
  method PlainExpand(q: Plain, st0: Frontier<nat>, best0: PlainBest, ghost rank: map<nat, nat>, d: nat, u: nat)
    returns (st: Frontier<nat>, best: PlainBest)
    requires PlainInv(q, st0, best0, rank, d) && u in rank && u in st0.dist && d == st0.dist[u]
    ensures PlainInv(q, st, best, rank, d) && PlainAdvance(st0, best0, st, best, rank) && AllTurned(q, st, best, u)
  {
    hide PlainInv, PlainAdvance, Turned;
    PlainFacts(q, st0, best0, rank, d, u);
    st, best := st0, best0;
    var todo := q.succ[u];
    while todo != {}
      invariant todo <= q.succ[u]
      invariant PlainInv(q, st, best, rank, d) && PlainAdvance(st0, best0, st, best, rank)
      invariant u in st.dist && d == st.dist[u]
      invariant forall v: nat | v in q.succ[u] && v !in todo :: Turned(q, st, best, u, v)
    {
      var v :| v in todo;
      var st1, best1 := PlainStep(q, st, best, rank, d, u, v);
      PlainAdvanceTwice(st0, best0, st, best, st1, best1, rank);
      forall w: nat | w in q.succ[u] && w !in todo ensures Turned(q, st1, best1, u, w) {
        TurnedPersists(q, st, best, st1, best1, rank, u, w);
      }
      st, best := st1, best1;
      todo := todo - {v};
    }
  }

  ghost predicate RankTurned(q: Plain, st: Frontier<nat>, best: PlainBest, rank: map<nat, nat>) {
    forall u | u in rank :: AllTurned(q, st, best, u)
  }

  lemma RankTurnedGrows(q: Plain, st: Frontier<nat>, best: PlainBest, st': Frontier<nat>, best': PlainBest,
                        rank: map<nat, nat>, u: nat, k: nat)
    requires RankTurned(q, st, best, rank) && (forall x | x in rank :: x in st.dist)
    requires PlainAdvance(st, best, st', best', rank[u := k]) && AllTurned(q, st', best', u)
    ensures RankTurned(q, st', best', rank[u := k])
  {
    forall x | x in rank ensures AllTurned(q, st', best', x) {
      assert AllTurned(q, st, best, x);
      forall v: nat | v in q.succ[x] && v < |q.blocks| ensures Turned(q, st', best', x, v) {
        TurnedPersists(q, st, best, st', best', rank[u := k], x, v);
      }
    }
  }

  lemma PlainStart(q: Plain)
    requires PlainOk(q)
    ensures PlainInv(q, Start(q.h), NoPath, map[], 0) && RankTurned(q, Start(q.h), NoPath, map[])
  {
    StartInv(PlainHops(q), q.h);
  }

  lemma PlainPopStale(q: Plain, st: Frontier<nat>, best: PlainBest, rank: map<nat, nat>, now: nat, d: nat, x: nat)
    requires PlainInv(q, st, best, rank, now) && RankTurned(q, st, best, rank)
    requires Pending(d, x) in st.pq && d > Get(st.dist, x)
    ensures var st' := st.(pq := st.pq - {Pending(d, x)});
            PlainInv(q, st', best, rank, now) && RankTurned(q, st', best, rank)
  {
    PopStale(PlainHops(q), q.h, st, rank, now, d, x);
    TurnedSame(q, st, st.(pq := st.pq - {Pending(d, x)}), best, rank);
  }

  lemma TurnedSame(q: Plain, st: Frontier<nat>, st': Frontier<nat>, best: PlainBest, rank: map<nat, nat>)
    requires RankTurned(q, st, best, rank) && st'.dist == st.dist
    ensures RankTurned(q, st', best, rank)
  {
    forall u | u in rank ensures AllTurned(q, st', best, u) {
      assert AllTurned(q, st, best, u);
    }
  }

  lemma PlainPopFresh(q: Plain, st: Frontier<nat>, best: PlainBest, rank: map<nat, nat>, now: nat, d: nat, x: nat)
    requires PlainInv(q, st, best, rank, now) && RankTurned(q, st, best, rank)
    requires Pending(d, x) in st.pq && d <= Get(st.dist, x)
    requires forall e | e in st.pq :: d <= e.cost
    ensures var st' := st.(pq := st.pq - {Pending(d, x)});
            PlainInv(q, st', best, rank[x := |rank|], d) && RankTurned(q, st', best, rank)
    ensures x !in rank && x in st.dist && d == st.dist[x] && x in q.bs + {q.h}
    ensures forall y | y in rank :: y in st.dist
  {
    PopFresh(PlainHops(q), q.h, st, rank, now, d, x);
    TurnedSame(q, st, st.(pq := st.pq - {Pending(d, x)}), best, rank);
  }

  method PlainSearch(q: Plain) returns (st: Frontier<nat>, best: PlainBest, ghost rank: map<nat, nat>, ghost now: nat)
    requires PlainOk(q)
    ensures PlainInv(q, st, best, rank, now) && RankTurned(q, st, best, rank) && st.pq == {}
  {
    hide *;
    PlainStart(q);
    st, best, rank, now := Start(q.h), NoPath, map[], 0;
    while st.pq != {}
      invariant PlainInv(q, st, best, rank, now) && RankTurned(q, st, best, rank)
      decreases q.bs + {q.h} - rank.Keys, |st.pq|
    {
      var d, x, rest := Pop(st.pq);
      if d > Get(st.dist, x) {
        PlainPopStale(q, st, best, rank, now, d, x);
        st := st.(pq := rest);
      } else {
        PlainPopFresh(q, st, best, rank, now, d, x);
        ghost var rank' := rank[x := |rank|];
        st := st.(pq := rest);
        var st1, best1 := PlainExpand(q, st, best, rank', d, x);
        RankTurnedGrows(q, st, best, st1, best1, rank, x, |rank|);
        assert x in (q.bs + {q.h}) - rank.Keys && rank'.Keys == rank.Keys + {x};
        st, best, rank, now := st1, best1, rank', d;
      }
    }
  }

  // ----- the answer -----

  ghost predicate PlainNone(q: Plain) {
    forall w: seq<Hop<nat>> :: !PlainCycle(q, w)
  }

  ghost predicate PlainLeast(q: Plain, c: nat) {
    forall w: seq<Hop<nat>> | PlainCycle(q, w) :: c <= Cost(w)
  }

  function Visited(w: seq<Hop<nat>>): (r: seq<nat>)
    ensures |r| == |w|
  {
    seq(|w|, i requires 0 <= i < |w| => w[i].src)
  }

  ghost predicate PlainDescribes(q: Plain, cost: nat, path: seq<nat>, w: seq<Hop<nat>>) {
    PlainCycle(q, w) && Cost(w) == cost && path == Visited(w)
  }

  datatype PlainFound = PlainFound(cost: nat, path: seq<nat>)

  ghost predicate PlainAnswers(q: Plain, r: Option<PlainFound>) {
    match r
    case None => PlainNone(q)
    case Some(f) => (exists w: seq<Hop<nat>> :: PlainDescribes(q, f.cost, f.path, w)) && PlainLeast(q, f.cost)
  }

  lemma PlainSettled(q: Plain, st: Frontier<nat>, best: PlainBest, rank: map<nat, nat>)
    requires RankTurned(q, st, best, rank)
    ensures AllSettled(PlainHops(q), st.dist, rank)
  {
    forall e | e in PlainHops(q) && e.src in rank ensures Settled(st.dist, e) {
      assert AllTurned(q, st, best, e.src);
      assert e == EdgeTo(q, e.src, e.dst);
      assert Turned(q, st, best, e.src, e.dst);
    }
  }

  lemma NoPlainCycleBeats(q: Plain, st: Frontier<nat>, best: PlainBest, rank: map<nat, nat>, now: nat, w: seq<Hop<nat>>)
    requires PlainInv(q, st, best, rank, now) && RankTurned(q, st, best, rank) && st.pq == {} && PlainCycle(q, w)
    ensures best.Path? && best.cost <= Cost(w)
  {
    var n := |w| - 1;
    PlainSettled(q, st, best, rank);
    NoWalkBeats(PlainHops(q), q.h, st, rank, now, w[..n], w[n].src);
    assert AllTurned(q, st, best, w[n].src);
    assert w[n] == EdgeTo(q, w[n].src, q.h);
    assert Turned(q, st, best, w[n].src, q.h);
  }

  lemma PlainUnbeaten(q: Plain, st: Frontier<nat>, best: PlainBest, rank: map<nat, nat>, now: nat)
    requires PlainInv(q, st, best, rank, now) && RankTurned(q, st, best, rank) && st.pq == {}
    ensures best.NoPath? ==> PlainNone(q)
    ensures best.Path? ==> PlainLeast(q, best.cost)
  {
    hide PlainInv, RankTurned, PlainCycle;
    forall w: seq<Hop<nat>> | PlainCycle(q, w) ensures best.Path? && best.cost <= Cost(w) {
      NoPlainCycleBeats(q, st, best, rank, now, w);
    }
  }

  /** Walking `prev` from the last block of the best cycle back to the header. */
  method PlainChase(q: Plain, st: Frontier<nat>, best: PlainBest, ghost rank: map<nat, nat>, ghost now: nat)
    returns (path: seq<nat>)
    requires PlainInv(q, st, best, rank, now) && best.Path?
    ensures exists w: seq<Hop<nat>> :: PlainDescribes(q, best.cost, path, w)
  {
    hide PlainInv, PlainHops, PlainCycle, Visited;
    PlainBestFacts(q, st, best, rank, now);
    path := [best.at];
    ghost var v: seq<Hop<nat>> := [];
    assert Reverse(path) == Visited(v) + [best.at] by { assert Visited(v) == []; }
    var at := best.at;
    while at != q.h
      invariant at in rank && at in st.dist && path != [] && path[|path| - 1] == at
      invariant Walk(PlainHops(q), at, v, best.at) && st.dist[at] + |Executed(v)| == st.dist[best.at]
      invariant Reverse(path) == Visited(v) + [best.at]
      decreases rank[at]
    {
      PlainPrev(q, st, best, rank, now, at);
      ghost var e := st.prev[at];
      WalkPrepend(PlainHops(q), e, v, best.at);
      ReverseVisited(path, e, v, best.at);
      v := [e] + v;
      at := st.prev[at].src;
      path := path + [at];
    }
    path := Reverse(path);
    PlainClosed(q, v, best.at);
    assert PlainDescribes(q, best.cost, path, v + [EdgeTo(q, best.at, q.h)]);
  }

  lemma ReverseVisited(path: seq<nat>, e: Hop<nat>, v: seq<Hop<nat>>, last: nat)
    requires Reverse(path) == Visited(v) + [last]
    ensures Reverse(path + [e.src]) == Visited([e] + v) + [last]
  {
    assert (path + [e.src])[..|path|] == path;
    assert Visited([e] + v) == [e.src] + Visited(v);
  }

  lemma PlainPrev(q: Plain, st: Frontier<nat>, best: PlainBest, rank: map<nat, nat>, now: nat, at: nat)
    requires PlainInv(q, st, best, rank, now) && at in rank && at != q.h
    ensures TreeHop(PlainHops(q), st, rank, at)
  {}

  lemma PlainBestFacts(q: Plain, st: Frontier<nat>, best: PlainBest, rank: map<nat, nat>, now: nat)
    requires PlainInv(q, st, best, rank, now) && best.Path?
    ensures q.h < |q.blocks| && q.h in st.dist && st.dist[q.h] == 0
    ensures best.at in rank && best.at in st.dist && best.at < |q.blocks| && st.dist[best.at] < UNREACHED
    ensures PlainLast(q, EdgeTo(q, best.at, q.h))
    ensures best.cost == st.dist[best.at] + |FirstSeg(q.blocks, best.at, q.h)|
  {}

  lemma PlainClosed(q: Plain, v: seq<Hop<nat>>, b: nat)
    requires q.h < |q.blocks| && b < |q.blocks| && PlainLast(q, EdgeTo(q, b, q.h))
    requires Walk(PlainHops(q), q.h, v, b) && Cost(v) < UNREACHED
    ensures var w := v + [EdgeTo(q, b, q.h)];
            PlainCycle(q, w) && Cost(w) == Cost(v) + |FirstSeg(q.blocks, b, q.h)| && Visited(w) == Visited(v) + [b]
  {
    var w := v + [EdgeTo(q, b, q.h)];
    assert w[..|w| - 1] == v;
  }

  lemma PlainConclude(q: Plain, f: PlainFound, w: seq<Hop<nat>>)
    requires PlainDescribes(q, f.cost, f.path, w) && PlainLeast(q, f.cost)
    ensures PlainAnswers(q, Some(f))
  {}

  /** The answer is a permitted round trip, by its cost and the regions it leaves, and the least below the 1e18
      default; none is returned only if there is none below. */
  ghost predicate LeastRound(q: Plain, r: Option<PlainFound>) {
    && (r.Some? ==> exists w: seq<Hop<nat>> :: PlainRound(q, w) && Permitted(q, w) && Tells(r.value, w))
    && forall w: seq<Hop<nat>> | PlainRound(q, w) && Permitted(q, w) && Cost(w) < UNREACHED ::
         r.Some? && r.value.cost <= Cost(w)
  }

  ghost predicate Tells(f: PlainFound, w: seq<Hop<nat>>) {
    f.cost == Cost(w) && |f.path| == |w| && forall i | 0 <= i < |w| :: f.path[i] == w[i].src
  }

  lemma AnswerIsLeastRound(q: Plain, r: Option<PlainFound>)
    requires PlainAnswers(q, r)
    ensures LeastRound(q, r)
  {
    hide AnyPlainCycle, PlainRound, Permitted;
    if r.Some? {
      var w: seq<Hop<nat>> :| PlainDescribes(q, r.value.cost, r.value.path, w);
      PlainCycleIff(q, w);
      assert Tells(r.value, w);
    }
    forall w: seq<Hop<nat>> | PlainRound(q, w) && Permitted(q, w) && Cost(w) < UNREACHED
      ensures r.Some? && r.value.cost <= Cost(w)
    {
      PlainCycleIff(q, w);
      assert PlainCycle(q, w) by { FrontIsCheaper(q, w); }
    }
  }

  lemma FrontIsCheaper(q: Plain, w: seq<Hop<nat>>)
    requires AnyPlainCycle(q, w)
    ensures Cost(w[..|w| - 1]) <= Cost(w)
  {}

  method PlainShortest(q: Plain) returns (r: Option<PlainFound>)
    requires PlainOk(q)
    ensures PlainAnswers(q, r)
    ensures LeastRound(q, r)
  {
    hide PlainInv, RankTurned, PlainCycle, Executed, Visited;
    var st, best, rank, now := PlainSearch(q);
    PlainUnbeaten(q, st, best, rank, now);
    if best.NoPath? {
      AnswerIsLeastRound(q, None);
      return None;
    }
    var path := PlainChase(q, st, best, rank, now);
    var f := PlainFound(best.cost, path);
    ghost var w: seq<Hop<nat>> :| PlainDescribes(q, best.cost, path, w);
    PlainConclude(q, f, w);
    AnswerIsLeastRound(q, Some(f));
    r := Some(f);
  }

  // ----- the 1e18 default -----

  lemma PlainShorten(q: Plain, m: nat, w: seq<Hop<nat>>) returns (v: seq<Hop<nat>>)
    requires AnyPlainCycle(q, w) && (forall i | 0 <= i < |q.blocks| :: |q.blocks[i].code| <= m)
    requires |q.blocks| * m < UNREACHED
    ensures PlainCycle(q, v) && Cost(v) <= Cost(w)
  {
    var n := |w| - 1;
    var e := w[n];
    assert Bounded(PlainHops(q), Dominance.Below(|q.blocks|), m);
    var front := BelowDefault(PlainHops(q), q.h, w[..n], e.src, Dominance.Below(|q.blocks|), m);
    PlainClosed(q, front, e.src);
    v := front + [EdgeTo(q, e.src, q.h)];
  }

  /** For code of any real size: no answer exactly when there is no permitted round trip at all, and otherwise
      the least cost of all of them. */
  lemma PlainIsExact(q: Plain, m: nat, r: Option<PlainFound>)
    requires PlainAnswers(q, r) && (forall i | 0 <= i < |q.blocks| :: |q.blocks[i].code| <= m)
    requires |q.blocks| * m < UNREACHED
    ensures r.None? <==> forall w: seq<Hop<nat>> :: !(PlainRound(q, w) && Permitted(q, w))
    ensures r.Some? ==> forall w: seq<Hop<nat>> | PlainRound(q, w) && Permitted(q, w) :: r.value.cost <= Cost(w)
  {
    hide AnyPlainCycle, PlainRound, Permitted;
    forall w: seq<Hop<nat>> | PlainRound(q, w) && Permitted(q, w) ensures r.Some? && r.value.cost <= Cost(w) {
      PlainCycleIff(q, w);
      var v := PlainShorten(q, m, w);
    }
    AnswerIsLeastRound(q, r);
  }
}
