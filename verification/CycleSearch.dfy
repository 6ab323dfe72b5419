/** `shortest` (tools/asmcensus/verdict3.py): the cheapest cycle of a loop that executes given
    features, by a search over (block, features seen). */
module CycleSearch {
  import opened Asm
  import opened Segments
  import opened ShortestWalks

  /** The arguments of `shortest`. Region labels are read off `blocks`. */
  datatype Problem = Problem(blocks: seq<Block>, succ: seq<set<nat>>, h: nat, bs: set<nat>,
                             avoid: set<Label>, need: set<Feature>, nocall: bool)

  ghost predicate WellFormed(p: Problem) {
    EdgesInRange(p.blocks, p.succ) && p.h < |p.blocks|
  }

  // ----- the question, asked about walks over blocks -----

  ghost predicate RegionHop(p: Problem, e: Hop<nat>) {
    && e.src < |p.blocks| && e.src < |p.succ| && e.dst < |p.blocks| && e.dst in p.succ[e.src]
    && IsSeg(p.blocks[e.src].code, p.blocks[e.dst].name, e.dst == e.src + 1, e.seg)
    && (p.nocall ==> CallDirect !in Feats(e.seg))
  }

  /** A hop inside the loop that neither touches the header nor enters an avoided region. */
  ghost predicate InnerHop(p: Problem, e: Hop<nat>) {
    RegionHop(p, e) && e.dst != p.h && e.dst in p.bs && p.blocks[e.dst].name !in p.avoid
  }

  /** A hop from a latch back to the header. The header itself may be on the avoided list. */
  ghost predicate LastHop(p: Problem, e: Hop<nat>) {
    RegionHop(p, e) && e.dst == p.h && e.src in p.bs
  }

  ghost function InnerHops(p: Problem): Hops<nat> {
    iset e: Hop<nat> | InnerHop(p, e)
  }

  /** A closed walk from the header, free to revisit blocks, that executes all needed features. */
  ghost predicate Cycle(p: Problem, w: seq<Hop<nat>>) {
    && |w| > 0
    && Walk(InnerHops(p), p.h, w[..|w| - 1], w[|w| - 1].src)
    && LastHop(p, w[|w| - 1])
    && p.need <= Feats(Executed(w))
  }

  /** The cycles that reach their last region below the 1e18 that stands for infinity. */
  ghost function Cycles(p: Problem): iset<seq<Hop<nat>>> {
    iset w: seq<Hop<nat>> | Cycle(p, w) && Cost(w[..|w| - 1]) < UNREACHED
  }

  // ----- the same walks over (block, features seen) -----

  datatype Node = Node(block: nat, seen: set<Feature>)

  ghost predicate ProductHop(p: Problem, e: Hop<Node>) {
    && InnerHop(p, Hop(e.src.block, e.seg, e.dst.block))
    && e.dst.seen == e.src.seen + Feats(e.seg)
  }

  ghost function ProductHops(p: Problem): Hops<Node> {
    iset e: Hop<Node> | ProductHop(p, e)
  }

  /** The node that a segment leads to. */
  ghost function After(u: nat, f: set<Feature>, sg: seq<Instr>, v: nat): Hop<Node> {
    Hop(Node(u, f), sg, Node(v, f + Feats(sg)))
  }

  lemma {:induction false} Lift(p: Problem, w: seq<Hop<nat>>, b: nat) returns (v: seq<Hop<Node>>)
    requires Walk(InnerHops(p), p.h, w, b)
    ensures Walk(ProductHops(p), Node(p.h, {}), v, Node(b, Feats(Executed(w)))) && Executed(v) == Executed(w)
  {
    if w == [] {
      v := [];
      assert Feats(Executed(w)) == {};
    } else {
      var n := |w| - 1;
      v := Lift(p, w[..n], w[n].src);
      var f := Feats(Executed(w[..n]));
      FeatsJoin(Executed(w[..n]), w[n].seg);
      var e := Hop(Node(w[n].src, f), w[n].seg, Node(b, f + Feats(w[n].seg)));
      assert Hop(e.src.block, e.seg, e.dst.block) == w[n];
      WalkSnoc(ProductHops(p), Node(p.h, {}), v, e);
      v := v + [e];
    }
  }

  function Flatten(w: seq<Hop<Node>>): (v: seq<Hop<nat>>)
    ensures |v| == |w|
  {
    seq(|w|, i requires 0 <= i < |w| => Hop(w[i].src.block, w[i].seg, w[i].dst.block))
  }

  lemma {:induction false} Project(p: Problem, w: seq<Hop<Node>>, b: Node)
    requires Walk(ProductHops(p), Node(p.h, {}), w, b)
    ensures Walk(InnerHops(p), p.h, Flatten(w), b.block)
    ensures Executed(Flatten(w)) == Executed(w) && Feats(Executed(w)) == b.seen
  {
    var v := Flatten(w);
    if w != [] {
      var n := |w| - 1;
      Project(p, w[..n], w[n].src);
      assert v == Flatten(w[..n]) + [v[n]];
      WalkSnoc(InnerHops(p), p.h, Flatten(w[..n]), v[n]);
      FeatsJoin(Executed(w[..n]), w[n].seg);
    }
  }

  // ----- the search -----

  datatype Best = NoBest | Best(cost: nat, at: Node, seg: seq<Instr>)

  ghost predicate ClosingHop(p: Problem, e: Hop<Node>) {
    LastHop(p, Hop(e.src.block, e.seg, p.h)) && p.need <= e.src.seen + Feats(e.seg)
  }

  ghost predicate Beats(best: Best, dist: map<Node, nat>, e: Hop<Node>) {
    best.Best? && e.src in dist && best.cost <= dist[e.src] + |e.seg|
  }

  /** What the search owes a hop out of an expanded node. */
  ghost predicate Handled(p: Problem, dist: map<Node, nat>, best: Best, e: Hop<Node>) {
    && (ProductHop(p, e) ==> Settled(dist, e))
    && (e.dst.block == p.h && ClosingHop(p, e) ==> Beats(best, dist, e))
  }

  ghost predicate BestOk(p: Problem, dist: map<Node, nat>, rank: map<Node, nat>, best: Best) {
    best.Best? ==>
      && best.at in rank && best.at in dist && best.cost == dist[best.at] + |best.seg|
      && ClosingHop(p, Hop(best.at, best.seg, Node(p.h, {})))
  }

  ghost function Nodes(p: Problem): set<Node> {
    set u, f | u in p.bs + {p.h} && f <= ALL_FEATURES :: Node(u, f)
  }

  ghost predicate SearchInv(p: Problem, st: Frontier<Node>, best: Best, rank: map<Node, nat>, now: nat) {
    && Inv(ProductHops(p), Node(p.h, {}), st, rank, now)
    && BestOk(p, st.dist, rank, best)
    && (forall x | x in st.dist :: x in Nodes(p) && x.block < |p.blocks|)
  }

  /** From one state of the search to a later one while the same node is being expanded. */
  ghost predicate Advance(st: Frontier<Node>, best: Best, st': Frontier<Node>, best': Best, rank: map<Node, nat>) {
    && Progress(st, st', rank)
    && (best.Best? ==> best'.Best? && best'.cost <= best.cost)
  }

  lemma AdvanceTwice(st: Frontier<Node>, best: Best, st1: Frontier<Node>, best1: Best, st2: Frontier<Node>, best2: Best,
                     rank: map<Node, nat>)
    requires Advance(st, best, st1, best1, rank) && Advance(st1, best1, st2, best2, rank)
    ensures Advance(st, best, st2, best2, rank)
  {}

  lemma AdvanceNone(st: Frontier<Node>, best: Best, rank: map<Node, nat>)
    ensures Advance(st, best, st, best, rank)
  {}

  lemma SuccInRange(p: Problem, u: nat)
    requires WellFormed(p) && u < |p.blocks|
    ensures |p.succ| == |p.blocks| && forall v | v in p.succ[u] :: v < |p.blocks|
  {}

  /** An expanded node keeps its distance. */
  lemma StillAt(st: Frontier<Node>, best: Best, st': Frontier<Node>, best': Best, rank: map<Node, nat>, x: Node)
    requires Advance(st, best, st', best', rank) && x in rank && x in st.dist
    ensures x in st'.dist && Get(st'.dist, x) == Get(st.dist, x)
  {}

  lemma HandledPersists(p: Problem, st: Frontier<Node>, best: Best, st': Frontier<Node>, best': Best,
                        rank: map<Node, nat>, e: Hop<Node>)
    requires Advance(st, best, st', best', rank) && e.src in rank && e.src in st.dist
    requires Handled(p, st.dist, best, e)
    ensures Handled(p, st'.dist, best', e)
  {
    if Settled(st.dist, e) { SettledPersists(st, st', rank, e); }
  }

  lemma RelaxStep(p: Problem, st: Frontier<Node>, best: Best, rank: map<Node, nat>, d: nat, e: Hop<Node>)
    requires SearchInv(p, st, best, rank, d) && ProductHop(p, e)
    requires e.src in rank && d == Get(st.dist, e.src)
    ensures var st' := Relax(st, d, e);
            SearchInv(p, st', best, rank, d) && Advance(st, best, st', best, rank) && Handled(p, st'.dist, best, e)
  {
    var st' := Relax(st, d, e);
    RelaxKeeps(ProductHops(p), Node(p.h, {}), st, rank, d, e);
    FeaturesFinite(e.dst.seen);
    assert e.dst in Nodes(p);
    assert forall x | x in st'.dist :: x in st.dist || x == e.dst;
    if best.Best? { assert best.at in rank && best.at in st.dist; }
  }

  lemma CloseStep(p: Problem, st: Frontier<Node>, best: Best, rank: map<Node, nat>, d: nat, e: Hop<Node>)
    requires SearchInv(p, st, best, rank, d) && ClosingHop(p, e) && e.dst.block == p.h
    requires e.src in rank && d == Get(st.dist, e.src)
    ensures var c := d + |e.seg|;
            var best' := if best.NoBest? || c < best.cost then Best(c, e.src, e.seg) else best;
            SearchInv(p, st, best', rank, d) && Advance(st, best, st, best', rank) && Handled(p, st.dist, best', e)
  {
    assert e.src in st.dist;
    assert !ProductHop(p, e);
  }

  /** One segment `sg` from `u` to `v`: the innermost body of `shortest`. */
  method Segment(p: Problem, st: Frontier<Node>, best: Best, ghost rank: map<Node, nat>,
                 d: nat, u: nat, f: set<Feature>, v: nat, sg: seq<Instr>)
    returns (st': Frontier<Node>, best': Best)
    requires WellFormed(p) && SearchInv(p, st, best, rank, d)
    requires Node(u, f) in rank && Node(u, f) in st.dist && d == Get(st.dist, Node(u, f))
    requires u < |p.blocks| && v in p.succ[u]
    requires v == p.h || p.blocks[v].name !in p.avoid
    requires IsSeg(p.blocks[u].code, p.blocks[v].name, v == u + 1, sg)
    ensures SearchInv(p, st', best', rank, d) && Advance(st, best, st', best', rank)
    ensures Handled(p, st'.dist, best', After(u, f, sg, v))
  {
    st', best' := st, best;
    ghost var e := After(u, f, sg, v);
    if p.nocall && exists i | 0 <= i < |sg| :: CallDirect in sg[i].feats {
      assert CallDirect in Feats(sg);
      assert !RegionHop(p, Hop(u, sg, v));
      return;
    }
    var f2 := AddFeats(sg, f);
    var c := d + |sg|;
    if v == p.h {
      if u in p.bs && p.h in p.succ[u] && p.need <= f2 {
        CloseStep(p, st, best, rank, d, e);
        if best.NoBest? || c < best.cost {
          best' := Best(c, Node(u, f), sg);
        }
      }
    } else if v in p.bs {
      RelaxStep(p, st, best, rank, d, e);
      st' := Relax(st, d, Hop(Node(u, f), sg, Node(v, f2)));
    }
  }

  /** Every hop out of `x` that leads to region `v` has had its turn. */
  ghost predicate HandledTo(p: Problem, st: Frontier<Node>, best: Best, x: Node, v: nat) {
    forall e: Hop<Node> | e.src == x && e.dst.block == v :: Handled(p, st.dist, best, e)
  }

  lemma HandledToPersists(p: Problem, st: Frontier<Node>, best: Best, st': Frontier<Node>, best': Best,
                          rank: map<Node, nat>, x: Node, v: nat)
    requires Advance(st, best, st', best', rank) && x in rank && x in st.dist
    requires HandledTo(p, st, best, x, v)
    ensures HandledTo(p, st', best', x, v)
  {
    forall e: Hop<Node> | e.src == x && e.dst.block == v ensures Handled(p, st'.dist, best', e) {
      HandledPersists(p, st, best, st', best', rank, e);
    }
  }

  lemma SegmentsHandled(p: Problem, st: Frontier<Node>, best: Best, u: nat, f: set<Feature>, v: nat)
    requires u < |p.blocks| && v < |p.blocks|
    requires forall sg | IsSeg(p.blocks[u].code, p.blocks[v].name, v == u + 1, sg) ::
               Handled(p, st.dist, best, After(u, f, sg, v))
    ensures HandledTo(p, st, best, Node(u, f), v)
  {
    forall e: Hop<Node> | e.src == Node(u, f) && e.dst.block == v ensures Handled(p, st.dist, best, e) {
      if ProductHop(p, e) || (v == p.h && ClosingHop(p, e)) {
        var a := After(u, f, e.seg, v);
        assert Handled(p, st.dist, best, a);
        assert ProductHop(p, e) ==> a == e;
        assert ClosingHop(p, a) == ClosingHop(p, e);
        assert Beats(best, st.dist, a) == Beats(best, st.dist, e);
      }
    }
  }

  /** Every segment of one edge. */
  method AllSegments(p: Problem, st0: Frontier<Node>, best0: Best, ghost rank: map<Node, nat>,
                     d: nat, u: nat, f: set<Feature>, v: nat)
    returns (st: Frontier<Node>, best: Best)
    requires WellFormed(p) && SearchInv(p, st0, best0, rank, d)
    requires Node(u, f) in rank && Node(u, f) in st0.dist && d == Get(st0.dist, Node(u, f))
    requires u < |p.blocks| && v in p.succ[u]
    requires v == p.h || p.blocks[v].name !in p.avoid
    ensures SearchInv(p, st, best, rank, d) && Advance(st0, best0, st, best, rank)
    ensures HandledTo(p, st, best, Node(u, f), v)
  {
    hide *;
    SuccInRange(p, u);
    AdvanceNone(st0, best0, rank);
    st, best := st0, best0;
    var sgs := Segs(p.blocks[u].code, p.blocks[v].name, v == u + 1);
    for k := 0 to |sgs|
      invariant SearchInv(p, st, best, rank, d) && Advance(st0, best0, st, best, rank)
      invariant Node(u, f) in st.dist && d == Get(st.dist, Node(u, f))
      invariant forall i | 0 <= i < k :: Handled(p, st.dist, best, After(u, f, sgs[i], v))
    {
      assert sgs[k] in sgs;
      var st1, best1 := Segment(p, st, best, rank, d, u, f, v, sgs[k]);
      AdvanceTwice(st0, best0, st, best, st1, best1, rank);
      StillAt(st, best, st1, best1, rank, Node(u, f));
      forall i | 0 <= i < k ensures Handled(p, st1.dist, best1, After(u, f, sgs[i], v)) {
        HandledPersistsFrom(p, st, best, st1, best1, rank, u, f, sgs[i], v);
      }
      st, best := st1, best1;
    }
    forall sg | IsSeg(p.blocks[u].code, p.blocks[v].name, v == u + 1, sg)
      ensures Handled(p, st.dist, best, After(u, f, sg, v))
    {
      assert sg in sgs;
    }
    SegmentsHandled(p, st, best, u, f, v);
  }

  lemma HandledPersistsFrom(p: Problem, st: Frontier<Node>, best: Best, st': Frontier<Node>, best': Best,
                            rank: map<Node, nat>, u: nat, f: set<Feature>, sg: seq<Instr>, v: nat)
    requires Advance(st, best, st', best', rank) && Node(u, f) in rank && Node(u, f) in st.dist
    requires Handled(p, st.dist, best, After(u, f, sg, v))
    ensures Handled(p, st'.dist, best', After(u, f, sg, v))
  {
    HandledPersists(p, st, best, st', best', rank, After(u, f, sg, v));
  }

  lemma NothingOwed(p: Problem, st: Frontier<Node>, best: Best, u: nat, f: set<Feature>, v: nat)
    requires u < |p.succ| && (v !in p.succ[u] || (v != p.h && v < |p.blocks| && p.blocks[v].name in p.avoid))
    ensures HandledTo(p, st, best, Node(u, f), v)
  {}

  ghost predicate Expanded(p: Problem, st: Frontier<Node>, best: Best, x: Node) {
    forall v: nat :: HandledTo(p, st, best, x, v)
  }

  /** Every edge out of the node just expanded. */
  method Expand(p: Problem, st0: Frontier<Node>, best0: Best, ghost rank: map<Node, nat>,
                d: nat, u: nat, f: set<Feature>)
    returns (st: Frontier<Node>, best: Best)
    requires WellFormed(p) && SearchInv(p, st0, best0, rank, d)
    requires Node(u, f) in rank && Node(u, f) in st0.dist && d == Get(st0.dist, Node(u, f)) && u < |p.blocks|
    ensures SearchInv(p, st, best, rank, d) && Advance(st0, best0, st, best, rank)
    ensures Expanded(p, st, best, Node(u, f))
  {
    hide *;
    SuccInRange(p, u);
    AdvanceNone(st0, best0, rank);
    st, best := st0, best0;
    var todo := p.succ[u];
    while todo != {}
      invariant todo <= p.succ[u]
      invariant SearchInv(p, st, best, rank, d) && Advance(st0, best0, st, best, rank)
      invariant Node(u, f) in st.dist && d == Get(st.dist, Node(u, f))
      invariant forall v | v in p.succ[u] && v !in todo :: HandledTo(p, st, best, Node(u, f), v)
    {
      var v :| v in todo;
      if p.blocks[v].name in p.avoid && v != p.h {
        NothingOwed(p, st, best, u, f, v);
      } else {
        var st1, best1 := AllSegments(p, st, best, rank, d, u, f, v);
        AdvanceTwice(st0, best0, st, best, st1, best1, rank);
        StillAt(st, best, st1, best1, rank, Node(u, f));
        forall w | w in p.succ[u] && w !in todo ensures HandledTo(p, st1, best1, Node(u, f), w) {
          HandledToPersists(p, st, best, st1, best1, rank, Node(u, f), w);
        }
        st, best := st1, best1;
      }
      todo := todo - {v};
    }
    forall v: nat ensures HandledTo(p, st, best, Node(u, f), v) {
      if v !in p.succ[u] { NothingOwed(p, st, best, u, f, v); }
    }
    AllTargetsHandled(p, st, best, Node(u, f));
  }

  lemma AllTargetsHandled(p: Problem, st: Frontier<Node>, best: Best, x: Node)
    requires forall v: nat :: HandledTo(p, st, best, x, v)
    ensures Expanded(p, st, best, x)
  {}

  ghost predicate AllExpanded(p: Problem, st: Frontier<Node>, best: Best, rank: map<Node, nat>) {
    forall x | x in rank :: Expanded(p, st, best, x)
  }

  lemma ExpandedPersists(p: Problem, st: Frontier<Node>, best: Best, st': Frontier<Node>, best': Best,
                         rank: map<Node, nat>, before: map<Node, nat>)
    requires Advance(st, best, st', best', rank) && AllExpanded(p, st, best, before)
    requires forall x | x in before :: x in rank && x in st.dist
    ensures AllExpanded(p, st', best', before)
  {
    forall x, v: nat | x in before ensures HandledTo(p, st', best', x, v) {
      assert Expanded(p, st, best, x);
      HandledToPersists(p, st, best, st', best', rank, x, v);
    }
  }

  lemma StartSearch(p: Problem)
    requires WellFormed(p)
    ensures SearchInv(p, Start(Node(p.h, {})), NoBest, map[], 0) && AllExpanded(p, Start(Node(p.h, {})), NoBest, map[])
  {
    StartInv(ProductHops(p), Node(p.h, {}));
    FeaturesFinite({});
  }

  lemma SearchPopStale(p: Problem, st: Frontier<Node>, best: Best, rank: map<Node, nat>, now: nat, d: nat, x: Node)
    requires SearchInv(p, st, best, rank, now) && AllExpanded(p, st, best, rank)
    requires Pending(d, x) in st.pq && d > Get(st.dist, x)
    ensures var st' := st.(pq := st.pq - {Pending(d, x)});
            SearchInv(p, st', best, rank, now) && AllExpanded(p, st', best, rank)
  {
    PopStale(ProductHops(p), Node(p.h, {}), st, rank, now, d, x);
    ExpandedSame(p, st, st.(pq := st.pq - {Pending(d, x)}), best, rank);
  }

  lemma ExpandedSame(p: Problem, st: Frontier<Node>, st': Frontier<Node>, best: Best, rank: map<Node, nat>)
    requires AllExpanded(p, st, best, rank) && st'.dist == st.dist
    ensures AllExpanded(p, st', best, rank)
  {
    forall x, v: nat | x in rank ensures HandledTo(p, st', best, x, v) {
      assert Expanded(p, st, best, x);
      assert HandledTo(p, st, best, x, v);
    }
  }

  lemma SearchPopFresh(p: Problem, st: Frontier<Node>, best: Best, rank: map<Node, nat>, now: nat, d: nat, x: Node)
    requires SearchInv(p, st, best, rank, now) && AllExpanded(p, st, best, rank)
    requires Pending(d, x) in st.pq && d <= Get(st.dist, x)
    requires forall e | e in st.pq :: d <= e.cost
    ensures var st' := st.(pq := st.pq - {Pending(d, x)});
            SearchInv(p, st', best, rank[x := |rank|], d) && AllExpanded(p, st', best, rank)
    ensures x !in rank && x in Nodes(p) && x.block < |p.blocks| && x in st.dist && d == Get(st.dist, x)
    ensures forall y | y in rank :: y in st.dist
  {
    PopFresh(ProductHops(p), Node(p.h, {}), st, rank, now, d, x);
    ExpandedSame(p, st, st.(pq := st.pq - {Pending(d, x)}), best, rank);
  }

  lemma OneMoreExpanded(p: Problem, st: Frontier<Node>, best: Best, rank: map<Node, nat>, x: Node, k: nat)
    requires AllExpanded(p, st, best, rank) && Expanded(p, st, best, x)
    ensures AllExpanded(p, st, best, rank[x := k])
  {}

  /** The search until nothing is pending. */
  method Search(p: Problem) returns (st: Frontier<Node>, best: Best, ghost rank: map<Node, nat>, ghost now: nat)
    requires WellFormed(p)
    ensures SearchInv(p, st, best, rank, now) && AllExpanded(p, st, best, rank) && st.pq == {}
  {
    hide *;
    StartSearch(p);
    st, best, rank, now := Start(Node(p.h, {})), NoBest, map[], 0;
    while st.pq != {}
      invariant SearchInv(p, st, best, rank, now) && AllExpanded(p, st, best, rank)
      decreases Nodes(p) - rank.Keys, |st.pq|
    {
      var d, x, rest := Pop(st.pq);
      if d > Get(st.dist, x) {
        SearchPopStale(p, st, best, rank, now, d, x);
        st := st.(pq := rest);
      } else {
        SearchPopFresh(p, st, best, rank, now, d, x);
        ghost var rank' := rank[x := |rank|];
        st := st.(pq := rest);
        var st1, best1 := Expand(p, st, best, rank', d, x.block, x.seen);
        ExpandedPersists(p, st, best, st1, best1, rank', rank);
        OneMoreExpanded(p, st1, best1, rank, x, |rank|);
        assert x in Nodes(p) - rank.Keys && rank'.Keys == rank.Keys + {x};
        st, best, rank, now := st1, best1, rank', d;
      }
    }
  }

  // ----- the answer -----

  /** At the end of the search no cycle is cheaper than the recorded best. */
  lemma NoCycleBeats(p: Problem, st: Frontier<Node>, best: Best, rank: map<Node, nat>, now: nat, w: seq<Hop<nat>>)
    requires WellFormed(p) && SearchInv(p, st, best, rank, now) && AllExpanded(p, st, best, rank) && st.pq == {}
    requires w in Cycles(p)
    ensures best.Best? && best.cost <= Cost(w)
  {
    var n := |w| - 1;
    var b := w[n].src;
    var v := Lift(p, w[..n], b);
    var f := Feats(Executed(w[..n]));
    AllSettledInside(p, st, best, rank);
    NoWalkBeats(ProductHops(p), Node(p.h, {}), st, rank, now, v, Node(b, f));
    FeatsJoin(Executed(w[..n]), w[n].seg);
    var e := Hop(Node(b, f), w[n].seg, Node(p.h, {}));
    assert Hop(b, w[n].seg, p.h) == w[n];
    assert ClosingHop(p, e);
    assert Expanded(p, st, best, e.src);
    assert HandledTo(p, st, best, e.src, p.h);
    assert Handled(p, st.dist, best, e);
  }

  lemma AllSettledInside(p: Problem, st: Frontier<Node>, best: Best, rank: map<Node, nat>)
    requires AllExpanded(p, st, best, rank)
    ensures AllSettled(ProductHops(p), st.dist, rank)
  {
    forall e | e in ProductHops(p) && e.src in rank ensures Settled(st.dist, e) {
      assert Expanded(p, st, best, e.src);
      assert HandledTo(p, st, best, e.src, e.dst.block);
      assert Handled(p, st.dist, best, e);
    }
  }

  function SegsOf<S>(w: seq<Hop<S>>): (r: seq<seq<Instr>>)
    ensures |r| == |w|
  {
    seq(|w|, i requires 0 <= i < |w| => w[i].seg)
  }

  /** What `shortest` returns when it finds a cycle. */
  datatype Found = Found(cost: nat, loads: nat, stores: nat, count: nat, segs: seq<seq<Instr>>)

  /** The returned segments are those of a real cycle, chained header to header, and the figures are
      totals over what it executes. */
  ghost predicate Describes(p: Problem, r: Found, w: seq<Hop<nat>>) {
    && w in Cycles(p) && r.segs == SegsOf(w)
    && r.cost == Cost(w) && r.count == |w|
    && Figures(Executed(w), r.loads, r.stores)
  }

  ghost predicate NoCycle(p: Problem) {
    forall w: seq<Hop<nat>> :: w !in Cycles(p)
  }

  ghost predicate NoneCheaper(p: Problem, c: nat) {
    forall w: seq<Hop<nat>> | w in Cycles(p) :: c <= Cost(w)
  }

  /** The whole contract of `shortest`. */
  ghost predicate Answers(p: Problem, r: Option<Found>) {
    match r
    case None => NoCycle(p)
    case Some(found) => (exists w: seq<Hop<nat>> :: Describes(p, found, w)) && NoneCheaper(p, found.cost)
  }

  // ----- rebuilding the path -----

  function Reverse<T>(s: seq<T>): (r: seq<T>)
    ensures |r| == |s|
  {
    if s == [] then [] else [s[|s| - 1]] + Reverse(s[..|s| - 1])
  }

  /** What the chase from `st` back to the header has collected: `w` leads from `at` to the best node. */
  ghost predicate Chased(p: Problem, st: Frontier<Node>, best: Best, rank: map<Node, nat>, at: Node,
                         w: seq<Hop<Node>>, out: seq<seq<Instr>>) {
    && best.Best? && at in rank && at in st.dist
    && Walk(ProductHops(p), at, w, best.at)
    && st.dist[at] + |Executed(w)| + |best.seg| == best.cost
    && Reverse(out) == SegsOf(w) + [best.seg]
  }

  lemma PrevOf(p: Problem, st: Frontier<Node>, best: Best, rank: map<Node, nat>, now: nat, at: Node)
    requires SearchInv(p, st, best, rank, now) && at in rank && at != Node(p.h, {})
    ensures TreeHop(ProductHops(p), st, rank, at)
  {}

  lemma ChaseStep(p: Problem, st: Frontier<Node>, best: Best, rank: map<Node, nat>, at: Node,
                  w: seq<Hop<Node>>, out: seq<seq<Instr>>)
    requires TreeHop(ProductHops(p), st, rank, at) && Chased(p, st, best, rank, at, w, out)
    ensures st.prev[at].src in rank && rank[st.prev[at].src] < rank[at]
    ensures Chased(p, st, best, rank, st.prev[at].src, [st.prev[at]] + w, out + [st.prev[at].seg])
  {
    var e := st.prev[at];
    WalkPrepend(ProductHops(p), e, w, best.at);
    ReversePush(out, e, w, best.seg);
  }

  lemma ReversePush<S>(out: seq<seq<Instr>>, e: Hop<S>, w: seq<Hop<S>>, last: seq<Instr>)
    requires Reverse(out) == SegsOf(w) + [last]
    ensures Reverse(out + [e.seg]) == SegsOf([e] + w) + [last]
  {
    assert (out + [e.seg])[..|out|] == out;
    assert SegsOf([e] + w) == [e.seg] + SegsOf(w);
  }

  /** The segments are those of the cycle `w`, which costs `cost`. */
  ghost predicate Spells(p: Problem, segs: seq<seq<Instr>>, cost: nat, w: seq<Hop<nat>>) {
    w in Cycles(p) && segs == SegsOf(w) && Cost(w) == cost
  }

  /** The predecessor chase. It ends even when segments are empty, because every step goes to a node
      expanded earlier. */
  method Chase(p: Problem, st: Frontier<Node>, best: Best, ghost rank: map<Node, nat>, ghost now: nat)
    returns (segs: seq<seq<Instr>>)
    requires WellFormed(p) && SearchInv(p, st, best, rank, now) && best.Best?
    ensures exists w: seq<Hop<nat>> :: Spells(p, segs, best.cost, w)
  {
    var out := [best.seg];
    var at := best.at;
    ghost var v: seq<Hop<Node>> := [];
    assert Reverse(out) == SegsOf(v) + [best.seg];
    while at != Node(p.h, {})
      invariant Chased(p, st, best, rank, at, v, out)
      decreases rank[at]
    {
      PrevOf(p, st, best, rank, now, at);
      ChaseStep(p, st, best, rank, at, v, out);
      var e := st.prev[at];
      v := [e] + v;
      out := out + [e.seg];
      at := e.src;
    }
    segs := Reverse(out);
    ghost var w := ChaseIsCycle(p, st, best, rank, now, v);
    assert Spells(p, segs, best.cost, w);
  }

  lemma ChaseIsCycle(p: Problem, st: Frontier<Node>, best: Best, rank: map<Node, nat>, now: nat, v: seq<Hop<Node>>)
    returns (w: seq<Hop<nat>>)
    requires WellFormed(p) && SearchInv(p, st, best, rank, now) && best.Best?
    requires Walk(ProductHops(p), Node(p.h, {}), v, best.at) && |Executed(v)| + |best.seg| == best.cost
    ensures w in Cycles(p) && SegsOf(w) == SegsOf(v) + [best.seg] && Cost(w) == best.cost
  {
    hide SearchInv, Walk, LastHop, Cycles;
    BestFacts(p, st, best, rank, now);
    Project(p, v, best.at);
    var last := Hop(best.at.block, best.seg, p.h);
    CloseCycle(p, Flatten(v), last);
    w := Flatten(v) + [last];
    assert SegsOf(w) == SegsOf(v) + [best.seg];
  }

  lemma BestFacts(p: Problem, st: Frontier<Node>, best: Best, rank: map<Node, nat>, now: nat)
    requires SearchInv(p, st, best, rank, now) && best.Best?
    ensures best.at in rank && best.at in st.dist && best.cost == st.dist[best.at] + |best.seg|
    ensures st.dist[best.at] < UNREACHED
    ensures LastHop(p, Hop(best.at.block, best.seg, p.h)) && p.need <= best.at.seen + Feats(best.seg)
  {}

  lemma CloseCycle(p: Problem, front: seq<Hop<nat>>, last: Hop<nat>)
    requires Walk(InnerHops(p), p.h, front, last.src) && LastHop(p, last)
    requires p.need <= Feats(Executed(front)) + Feats(last.seg) && Cost(front) < UNREACHED
    ensures front + [last] in Cycles(p) && Executed(front + [last]) == Executed(front) + last.seg
  {
    var w := front + [last];
    assert w[..|w| - 1] == front && w[|w| - 1] == last;
    FeatsJoin(Executed(front), last.seg);
  }

  /** The stack traffic summed over the segments of the cycle. */
  method Tally(segs: seq<seq<Instr>>, ghost w: seq<Hop<nat>>) returns (loads: nat, stores: nat)
    requires segs == SegsOf(w)
    ensures Figures(Executed(w), loads, stores)
  {
    FiguresOf(Executed(w));
    loads, stores := 0, 0;
    for k := 0 to |segs|
      invariant loads == StackReads(Executed(w[..k])) && stores == Stores(Executed(w[..k]))
    {
      var r, s := TallySegment(segs[k]);
      assert w[..k + 1][..k] == w[..k];
      CountsJoin(Executed(w[..k]), segs[k]);
      loads, stores := loads + r, stores + s;
    }
    assert w[..|w|] == w;
  }

  method TallySegment(sg: seq<Instr>) returns (loads: nat, stores: nat)
    ensures loads == StackReads(sg) && stores == Stores(sg)
  {
    loads, stores := 0, 0;
    for k := 0 to |sg|
      invariant loads == StackReads(sg[..k]) && stores == Stores(sg[..k])
    {
      assert sg[..k + 1][..k] == sg[..k];
      if sg[k].store {
        stores := stores + 1;
      } else {
        loads := loads + sg[k].stackReads;
      }
    }
    assert sg[..|sg|] == sg;
  }

  ghost predicate Unbeaten(p: Problem, best: Best) {
    if best.NoBest? then NoCycle(p) else NoneCheaper(p, best.cost)
  }

  lemma NothingBeats(p: Problem, st: Frontier<Node>, best: Best, rank: map<Node, nat>, now: nat)
    requires WellFormed(p) && SearchInv(p, st, best, rank, now) && AllExpanded(p, st, best, rank) && st.pq == {}
    ensures Unbeaten(p, best)
  {
    hide SearchInv, AllExpanded, Cycles;
    if best.NoBest? {
      forall w: seq<Hop<nat>> ensures w !in Cycles(p) {
        if w in Cycles(p) { NoCycleBeats(p, st, best, rank, now, w); }
      }
    } else {
      forall w: seq<Hop<nat>> | w in Cycles(p) ensures best.cost <= Cost(w) {
        NoCycleBeats(p, st, best, rank, now, w);
      }
    }
  }

  lemma Conclude(p: Problem, found: Found, w: seq<Hop<nat>>)
    requires Describes(p, found, w) && NoneCheaper(p, found.cost)
    ensures Answers(p, Some(found))
  {}

  method Shortest(p: Problem) returns (r: Option<Found>)
    requires WellFormed(p)
    ensures Answers(p, r)
  {
    hide SearchInv, AllExpanded, Cycles, Executed, SegsOf, Figures;
    var st, best, rank, now := Search(p);
    NothingBeats(p, st, best, rank, now);
    if best.NoBest? {
      return None;
    }
    var segs := Chase(p, st, best, rank, now);
    ghost var w: seq<Hop<nat>> :| Spells(p, segs, best.cost, w);
    var loads, stores := Tally(segs, w);
    var found := Found(best.cost, loads, stores, |segs|, segs);
    Conclude(p, found, w);
    r := Some(found);
  }
}
