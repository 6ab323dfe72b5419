/** The entry-to-header search, written three times with the same text: `prologue_len`
    (tools/asmcensus/score.py), `prologue` (fillloops.py) and inline in `one` (verdict3.py). */
module Prologue {
  import opened Asm
  import Dominance
  import opened Segments
  import opened ShortestWalks
  import opened CycleFacts
  import opened PlainCycles

  datatype Flow = Flow(blocks: seq<Block>, succ: seq<set<nat>>)

  ghost predicate FlowOk(c: Flow) {
    EdgesInRange(c.blocks, c.succ) && |c.blocks| > 0
  }

  predicate HasRet(sg: seq<Instr>) {
    exists i | 0 <= i < |sg| :: sg[i].kind.Ret?
  }

  ghost predicate EntryHop(c: Flow, e: Hop<nat>) {
    && e.src < |c.blocks| && e.src < |c.succ| && e.dst < |c.blocks| && e.dst in c.succ[e.src]
    && e.seg == FirstSeg(c.blocks, e.src, e.dst) && !HasRet(e.seg)
  }

  ghost function EntryHops(c: Flow): Hops<nat> {
    iset e: Hop<nat> | EntryHop(c, e)
  }

  /** Any way of going from one region to the next without executing a `ret`: over each parallel
      segment, or over what the search itself charges for an indirect jump. */
  ghost predicate RetFreeHop(c: Flow, e: Hop<nat>) {
    && e.src < |c.blocks| && e.src < |c.succ| && e.dst < |c.blocks| && e.dst in c.succ[e.src]
    && (e.seg == FirstSeg(c.blocks, e.src, e.dst)
        || IsSeg(c.blocks[e.src].code, c.blocks[e.dst].name, e.dst == e.src + 1, e.seg))
    && !HasRet(e.seg)
  }

  ghost function RetFreeHops(c: Flow): Hops<nat> {
    iset e: Hop<nat> | RetFreeHop(c, e)
  }

  /** The walks from block `a` to block `h` below the 1e18 default that use only hops in `g`. */
  ghost function WalksTo(g: Hops<nat>, a: nat, h: nat): iset<seq<Hop<nat>>> {
    iset w: seq<Hop<nat>> | Walk(g, a, w, h) && Cost(w) < UNREACHED
  }

  // ----- which walks are meant -----

  /** A hop over the first segment of an edge. */
  ghost predicate AlongFirst(c: Flow, e: Hop<nat>) {
    && e.src < |c.blocks| && e.src < |c.succ| && e.dst < |c.blocks| && e.dst in c.succ[e.src]
    && e.seg == FirstSeg(c.blocks, e.src, e.dst)
  }

  /** A hop over any parallel segment of an edge, or over the first. */
  ghost predicate AlongAny(c: Flow, e: Hop<nat>) {
    && e.src < |c.blocks| && e.src < |c.succ| && e.dst < |c.blocks| && e.dst in c.succ[e.src]
    && (e.seg == FirstSeg(c.blocks, e.src, e.dst)
        || IsSeg(c.blocks[e.src].code, c.blocks[e.dst].name, e.dst == e.src + 1, e.seg))
  }

  /** From `a` to `b` over first segments without executing a `ret`. */
  ghost predicate FirstWay(c: Flow, a: nat, w: seq<Hop<nat>>, b: nat) {
    && Chained(a, w, b) && (forall i | 0 <= i < |w| :: AlongFirst(c, w[i]))
    && forall t | t in Executed(w) :: t.kind != Ret
  }

  /** The same over any segments. */
  ghost predicate AnyWay(c: Flow, a: nat, w: seq<Hop<nat>>, b: nat) {
    && Chained(a, w, b) && (forall i | 0 <= i < |w| :: AlongAny(c, w[i]))
    && forall t | t in Executed(w) :: t.kind != Ret
  }

  /** The walks searched, and all walks compared with them. */
  lemma WaysIff(c: Flow, a: nat, w: seq<Hop<nat>>, b: nat)
    ensures Walk(EntryHops(c), a, w, b) <==> FirstWay(c, a, w, b)
    ensures Walk(RetFreeHops(c), a, w, b) <==> AnyWay(c, a, w, b)
  {
    hide Walk, Executed, FirstSeg, Chained, HasRet, IsSeg;
    WalkIff(EntryHops(c), a, w, b);
    WalkIff(RetFreeHops(c), a, w, b);
    NoRetIff(w);
    assert forall i | 0 <= i < |w| :: w[i] in EntryHops(c) <==> AlongFirst(c, w[i]) && !HasRet(w[i].seg);
    assert forall i | 0 <= i < |w| :: w[i] in RetFreeHops(c) <==> AlongAny(c, w[i]) && !HasRet(w[i].seg);
  }

  lemma NoRetIff(w: seq<Hop<nat>>)
    ensures (forall t | t in Executed(w) :: t.kind != Ret) <==> forall i | 0 <= i < |w| :: !HasRet(w[i].seg)
  {
    hide Executed;
    forall t ensures t in Executed(w) <==> exists i :: 0 <= i < |w| && t in w[i].seg { ExecutedIff(w, t); }
    forall i, j | 0 <= i < |w| && 0 <= j < |w[i].seg| ensures w[i].seg[j] in Executed(w) {
      assert w[i].seg[j] in w[i].seg;
    }
  }

  // ----- the search -----

  ghost predicate EntryInv(c: Flow, a: nat, st: Frontier<nat>, rank: map<nat, nat>, now: nat) {
    && FlowOk(c) && Inv(EntryHops(c), a, st, rank, now) && forall x | x in st.dist :: x < |c.blocks|
  }

  lemma EntryRelax(c: Flow, a: nat, st: Frontier<nat>, rank: map<nat, nat>, d: nat, u: nat, v: nat)
    requires EntryInv(c, a, st, rank, d) && u in rank && u in st.dist && d == st.dist[u]
    requires u < |c.blocks| && v < |c.blocks| && v in c.succ[u] && !HasRet(FirstSeg(c.blocks, u, v))
    ensures var e := Hop(u, FirstSeg(c.blocks, u, v), v);
            var st' := Relax(st, d, e);
            EntryInv(c, a, st', rank, d) && Progress(st, st', rank) && Settled(st'.dist, e)
  {
    var e := Hop(u, FirstSeg(c.blocks, u, v), v);
    RelaxKeeps(EntryHops(c), a, st, rank, d, e);
    assert forall x | x in Relax(st, d, e).dist :: x in st.dist || x == v;
  }

  /** What the search owes the edge from `u` to `v`. */
  ghost predicate Tried(c: Flow, st: Frontier<nat>, u: nat, v: nat) {
    u < |c.blocks| && v < |c.blocks| &&
      (EntryHop(c, Hop(u, FirstSeg(c.blocks, u, v), v)) ==> Settled(st.dist, Hop(u, FirstSeg(c.blocks, u, v), v)))
  }

  lemma TriedPersists(c: Flow, st: Frontier<nat>, st': Frontier<nat>, rank: map<nat, nat>, u: nat, v: nat)
    requires Progress(st, st', rank) && u in rank && u in st.dist && Tried(c, st, u, v)
    ensures u in st'.dist && st'.dist[u] == st.dist[u] && Tried(c, st', u, v)
  {
    var e := Hop(u, FirstSeg(c.blocks, u, v), v);
    if Settled(st.dist, e) { SettledPersists(st, st', rank, e); }
  }

  lemma EntryFacts(c: Flow, a: nat, st: Frontier<nat>, rank: map<nat, nat>, now: nat, u: nat)
    requires EntryInv(c, a, st, rank, now) && u in st.dist
    ensures u < |c.blocks| == |c.succ| && (forall v | v in c.succ[u] :: v < |c.blocks|)
    ensures Progress(st, st, rank)
  {}

  method EntryStep(c: Flow, ghost a: nat, st: Frontier<nat>, ghost rank: map<nat, nat>, d: nat, u: nat, v: nat)
    returns (st': Frontier<nat>)
    requires EntryInv(c, a, st, rank, d) && u in rank && u in st.dist && d == st.dist[u]
    requires u < |c.blocks| == |c.succ| && v < |c.blocks| && v in c.succ[u]
    ensures EntryInv(c, a, st', rank, d) && Progress(st, st', rank)
    ensures u in st'.dist && d == st'.dist[u] && Tried(c, st', u, v)
  {
    var cut := CutScan(c.blocks[u].code, c.blocks[v].name);
    var seg := c.blocks[u].code[..cut];
    if HasRet(seg) {
      return st;
    }
    EntryRelax(c, a, st, rank, d, u, v);
    st' := Relax(st, d, Hop(u, seg, v));
    StillThere(st, st', rank, u);
  }

  ghost predicate AllTried(c: Flow, st: Frontier<nat>, u: nat) {
    u < |c.succ| && forall v | v in c.succ[u] :: Tried(c, st, u, v)
  }

  /** All edges out of the block just expanded. */
  method EntryExpand(c: Flow, ghost a: nat, st0: Frontier<nat>, ghost rank: map<nat, nat>, d: nat, u: nat)
    returns (st: Frontier<nat>)
    requires EntryInv(c, a, st0, rank, d) && u in rank && u in st0.dist && d == st0.dist[u]
    ensures EntryInv(c, a, st, rank, d) && Progress(st0, st, rank) && AllTried(c, st, u)
  {
    hide EntryInv, Progress, Tried;
    EntryFacts(c, a, st0, rank, d, u);
    st := st0;
    var todo := c.succ[u];
    while todo != {}
      invariant todo <= c.succ[u]
      invariant EntryInv(c, a, st, rank, d) && Progress(st0, st, rank)
      invariant u in st.dist && d == st.dist[u]
      invariant forall v | v in c.succ[u] && v !in todo :: Tried(c, st, u, v)
    {
      var v :| v in todo;
      var st1 := EntryStep(c, a, st, rank, d, u, v);
      ProgressTwice(st0, st, st1, rank);
      forall w: nat | w in c.succ[u] && w !in todo ensures Tried(c, st1, u, w) {
        TriedPersists(c, st, st1, rank, u, w);
      }
      st := st1;
      todo := todo - {v};
    }
  }

  lemma EntryStart(c: Flow, a: nat)
    requires FlowOk(c) && a < |c.blocks|
    ensures EntryInv(c, a, Start(a), map[], 0) && AllSettled(EntryHops(c), Start(a).dist, map[])
  {
    StartInv(EntryHops(c), a);
  }

  lemma EntryPopStale(c: Flow, a: nat, st: Frontier<nat>, rank: map<nat, nat>, now: nat, d: nat, x: nat)
    requires EntryInv(c, a, st, rank, now) && Pending(d, x) in st.pq && d > Get(st.dist, x)
    ensures EntryInv(c, a, st.(pq := st.pq - {Pending(d, x)}), rank, now)
  {
    PopStale(EntryHops(c), a, st, rank, now, d, x);
  }

  lemma EntryPopFresh(c: Flow, a: nat, st: Frontier<nat>, rank: map<nat, nat>, now: nat, d: nat, x: nat)
    requires EntryInv(c, a, st, rank, now) && Pending(d, x) in st.pq && d <= Get(st.dist, x)
    requires forall e | e in st.pq :: d <= e.cost
    ensures EntryInv(c, a, st.(pq := st.pq - {Pending(d, x)}), rank[x := |rank|], d)
    ensures x !in rank && x in st.dist && d == st.dist[x] && x < |c.blocks|
  {
    PopFresh(EntryHops(c), a, st, rank, now, d, x);
  }

  lemma EntryGrows(c: Flow, a: nat, st: Frontier<nat>, st': Frontier<nat>, rank: map<nat, nat>, now: nat, u: nat)
    requires EntryInv(c, a, st, rank[u := |rank|], now) && AllSettled(EntryHops(c), st.dist, rank)
    requires Progress(st, st', rank[u := |rank|]) && AllTried(c, st', u)
    ensures AllSettled(EntryHops(c), st'.dist, rank[u := |rank|])
  {
    forall e | e in EntryHops(c) && e.src == u ensures Settled(st'.dist, e) {
      assert Tried(c, st', u, e.dst);
      assert e == Hop(u, FirstSeg(c.blocks, u, e.dst), e.dst);
    }
    assert forall x | x in rank :: x in rank[u := |rank|];
    OneMoreSettled(EntryHops(c), st, st', rank, u, |rank|);
  }

  /** The header popped at distance `d`: that is the least cost. */
  lemma HeaderPopped(c: Flow, a: nat, st: Frontier<nat>, rank: map<nat, nat>, now: nat, d: nat, h: nat)
    requires EntryInv(c, a, st, rank, now) && AllSettled(EntryHops(c), st.dist, rank) && h !in rank
    requires Pending(d, h) in st.pq && d <= Get(st.dist, h) && forall e | e in st.pq :: d <= e.cost
    ensures LeastCost(WalksTo(EntryHops(c), a, h), Some(d))
  {
    var g := EntryHops(c);
    forall w: seq<Hop<nat>> | w in WalksTo(g, a, h) ensures d <= Cost(w) {
      NoWalkBeats(g, a, st, rank, now, w, h);
    }
    PopFresh(g, a, st, rank, now, d, h);
    var w := TreeWalk(g, a, st.(pq := st.pq - {Pending(d, h)}), rank[h := |rank|], d, h);
    assert st.dist[h] < UNREACHED;
    assert w in WalksTo(g, a, h) && Cost(w) == d;
  }

  lemma HeaderNeverPopped(c: Flow, a: nat, st: Frontier<nat>, rank: map<nat, nat>, now: nat, h: nat)
    requires EntryInv(c, a, st, rank, now) && AllSettled(EntryHops(c), st.dist, rank) && h !in rank && st.pq == {}
    ensures LeastCost(WalksTo(EntryHops(c), a, h), None)
  {
    forall w: seq<Hop<nat>> ensures w !in WalksTo(EntryHops(c), a, h) {
      if w in WalksTo(EntryHops(c), a, h) {
        NoWalkBeats(EntryHops(c), a, st, rank, now, w, h);
      }
    }
  }

  /** The least number of instructions executed on the way from block 0 to `h`. */
  method PrologueLen(c: Flow, h: nat) returns (r: Option<nat>)
    requires FlowOk(c) && h < |c.blocks|
    ensures LeastCost(WalksTo(EntryHops(c), 0, h), r)
    ensures LeastCost(WalksTo(RetFreeHops(c), 0, h), r)
  {
    hide *;
    EntryStart(c, 0);
    var st := Start<nat>(0);
    ghost var rank: map<nat, nat> := map[];
    ghost var now: nat := 0;
    r := None;
    while st.pq != {}
      invariant EntryInv(c, 0, st, rank, now) && AllSettled(EntryHops(c), st.dist, rank) && h !in rank
      decreases set u | 0 <= u < |c.blocks| && u !in rank, |st.pq|
    {
      var d, x, rest := Pop(st.pq);
      if d > Get(st.dist, x) {
        EntryPopStale(c, 0, st, rank, now, d, x);
        st := st.(pq := rest);
      } else {
        if x == h {
          HeaderPopped(c, 0, st, rank, now, d, h);
          SameOverParallels(c, 0, h, Some(d));
          return Some(d);
        }
        EntryPopFresh(c, 0, st, rank, now, d, x);
        ghost var rank' := rank[x := |rank|];
        ghost var before := set u | 0 <= u < |c.blocks| && u !in rank;
        assert x in before && x !in (set u | 0 <= u < |c.blocks| && u !in rank');
        st := st.(pq := rest);
        var st1 := EntryExpand(c, 0, st, rank', d, x);
        EntryGrows(c, 0, st, st1, rank, d, x);
        st, rank, now := st1, rank', d;
      }
    }
    HeaderNeverPopped(c, 0, st, rank, now, h);
    SameOverParallels(c, 0, h, None);
  }

  // ----- the first segments are enough -----

  lemma {:induction false} FirstSegments(c: Flow, a: nat, w: seq<Hop<nat>>, b: nat) returns (v: seq<Hop<nat>>)
    requires Walk(RetFreeHops(c), a, w, b)
    ensures Walk(EntryHops(c), a, v, b) && Cost(v) <= Cost(w)
  {
    if w == [] {
      v := [];
    } else {
      var n := |w| - 1;
      var e := w[n];
      v := FirstSegments(c, a, w[..n], e.src);
      assert RetFreeHop(c, e);
      var f := Hop(e.src, FirstSeg(c.blocks, e.src, e.dst), e.dst);
      if e.seg != f.seg {
        CutIsShortest(c.blocks[e.src].code, c.blocks[e.dst].name, e.dst == e.src + 1, e.seg);
        assert f.seg == e.seg[..|f.seg|];
      }
      assert EntryHop(c, f);
      WalkSnoc(EntryHops(c), a, v, f);
      v := v + [f];
    }
  }

  /** Taking a later parallel jump neither opens a new way nor shortens one: the least cost over the
      first segments is the least cost over all of them. */
  lemma SameOverParallels(c: Flow, a: nat, h: nat, r: Option<nat>)
    requires LeastCost(WalksTo(EntryHops(c), a, h), r)
    ensures LeastCost(WalksTo(RetFreeHops(c), a, h), r)
  {
    forall w: seq<Hop<nat>> | w in WalksTo(RetFreeHops(c), a, h)
      ensures exists v: seq<Hop<nat>> :: v in WalksTo(EntryHops(c), a, h) && Cost(v) <= Cost(w)
    {
      var v := FirstSegments(c, a, w, h);
      assert v in WalksTo(EntryHops(c), a, h);
    }
    forall v: seq<Hop<nat>> | v in WalksTo(EntryHops(c), a, h) ensures v in WalksTo(RetFreeHops(c), a, h) {
      assert forall e: Hop<nat> | e in EntryHops(c) :: EntryHop(c, e) && e in RetFreeHops(c);
      WalkMonotone(EntryHops(c), RetFreeHops(c), a, v, h);
    }
  }

  // ----- the 1e18 default -----

  /** All ways from block 0 to `h`, however long. */
  ghost function AllWays(c: Flow, h: nat): iset<seq<Hop<nat>>> {
    iset w: seq<Hop<nat>> | AnyWay(c, 0, w, h)
  }

  lemma RetFreeBounded(c: Flow, m: nat)
    requires forall i | 0 <= i < |c.blocks| :: |c.blocks[i].code| <= m
    ensures Bounded(RetFreeHops(c), Dominance.Below(|c.blocks|), m)
    ensures Bounded(EntryHops(c), Dominance.Below(|c.blocks|), m)
  {
    forall e | e in RetFreeHops(c) ensures e.dst in Dominance.Below(|c.blocks|) && |e.seg| <= m {
      assert RetFreeHop(c, e);
      if e.seg != FirstSeg(c.blocks, e.src, e.dst) {
        CutIsShortest(c.blocks[e.src].code, c.blocks[e.dst].name, e.dst == e.src + 1, e.seg);
      }
    }
    assert forall e | e in EntryHops(c) :: EntryHop(c, e) && e in RetFreeHops(c);
  }

  /** For code of any real size: the least cost over all walks from block 0 to the header that execute no
      `ret`, and none exactly when no such walk exists. */
  lemma PrologueIsExact(c: Flow, h: nat, m: nat, r: Option<nat>)
    requires LeastCost(WalksTo(RetFreeHops(c), 0, h), r)
    requires (forall i | 0 <= i < |c.blocks| :: |c.blocks[i].code| <= m) && |c.blocks| * m < UNREACHED
    ensures LeastCost(AllWays(c, h), r)
  {
    hide RetFreeHops, AnyWay;
    var g := RetFreeHops(c);
    RetFreeBounded(c, m);
    forall w: seq<Hop<nat>> | w in AllWays(c, h) ensures r.Some? && r.value <= Cost(w) {
      WaysIff(c, 0, w, h);
      var v := BelowDefault(g, 0, w, h, Dominance.Below(|c.blocks|), m);
      assert v in WalksTo(g, 0, h);
    }
    forall w: seq<Hop<nat>> | w in WalksTo(g, 0, h) ensures w in AllWays(c, h) { WaysIff(c, 0, w, h); }
  }
}
