/** What follows from the contract of `shortest`: prices grow with the demands, the 1e18 default is
    out of reach for real code, and `walk_paths` (tools/asmcensus/score.py) orders its prices. */
module CycleFacts {
  import opened Asm
  import opened Segments
  import opened ShortestWalks
  import opened CycleSearch

  lemma {:induction false} WalkMonotone<S(!new)>(g: Hops<S>, g': Hops<S>, a: S, w: seq<Hop<S>>, b: S)
    requires Walk(g, a, w, b) && forall e | e in g :: e in g'
    ensures Walk(g', a, w, b)
  {
    if w != [] {
      WalkMonotone(g, g', a, w[..|w| - 1], w[|w| - 1].src);
    }
  }

  // ----- which cycles are meant -----

  /** A round trip from the header: along edges, over segments of the regions it leaves, inside the loop and not
      through the header or an avoided region on its way. What it executes holds every needed feature, and no
      direct call if calls are ruled out. */
  ghost predicate Round(p: Problem, w: seq<Hop<nat>>) {
    && |w| > 0 && Chained(p.h, w, p.h) && w[|w| - 1].src in p.bs
    && (forall i | 0 <= i < |w| :: AlongEdge(p, w[i]))
    && (forall i | 0 <= i < |w| - 1 ::
          w[i].dst in p.bs && w[i].dst != p.h && p.blocks[w[i].dst].name !in p.avoid)
    && (forall f | f in p.need :: exists t :: t in Executed(w) && f in t.feats)
    && (p.nocall ==> forall t | t in Executed(w) :: CallDirect !in t.feats)
  }

  ghost predicate AlongEdge(p: Problem, e: Hop<nat>) {
    && e.src < |p.blocks| && e.src < |p.succ| && e.dst < |p.blocks| && e.dst in p.succ[e.src]
    && IsSeg(p.blocks[e.src].code, p.blocks[e.dst].name, e.dst == e.src + 1, e.seg)
  }

  /** The cycles over which `shortest` is least are these round trips. */
  lemma CycleIff(p: Problem, w: seq<Hop<nat>>)
    ensures Cycle(p, w) <==> Round(p, w)
  {
    hide Cycle, Round;
    if Cycle(p, w) { CycleIsRound(p, w); }
    if Round(p, w) { RoundIsCycle(p, w); }
  }

  lemma CycleIsRound(p: Problem, w: seq<Hop<nat>>)
    requires Cycle(p, w)
    ensures Round(p, w)
  {
    hide IsSeg, Walk, Executed, Feats;
    var n := |w| - 1;
    WalkIff(InnerHops(p), p.h, w[..n], w[n].src);
    ChainedSnoc(p.h, w, p.h);
    forall f ensures f in Feats(Executed(w)) <==> exists t :: t in Executed(w) && f in t.feats {
      FeatsIff(Executed(w), f);
    }
    NoCallIff(w);
    forall i | 0 <= i < n ensures InnerHop(p, w[i]) { assert w[..n][i] == w[i]; }
  }

  lemma RoundIsCycle(p: Problem, w: seq<Hop<nat>>)
    requires Round(p, w)
    ensures Cycle(p, w)
  {
    hide IsSeg, Walk, Executed, Feats;
    var n := |w| - 1;
    NoCallIff(w);
    forall i | 0 <= i < n ensures w[..n][i] in InnerHops(p) { assert InnerHop(p, w[i]); }
    ChainedSnoc(p.h, w, p.h);
    WalkIff(InnerHops(p), p.h, w[..n], w[n].src);
    forall f | f in p.need ensures f in Feats(Executed(w)) { FeatsIff(Executed(w), f); }
  }

  lemma NoCallIff(w: seq<Hop<nat>>)
    ensures (forall t | t in Executed(w) :: CallDirect !in t.feats) <==>
            forall i | 0 <= i < |w| :: CallDirect !in Feats(w[i].seg)
  {
    hide Executed, Feats;
    forall t ensures t in Executed(w) <==> exists i :: 0 <= i < |w| && t in w[i].seg { ExecutedIff(w, t); }
    forall i | 0 <= i < |w|
      ensures CallDirect in Feats(w[i].seg) <==> exists t :: t in w[i].seg && CallDirect in t.feats
    {
      FeatsIff(w[i].seg, CallDirect);
    }
  }

  // ----- demands -----

  /** `q` asks for no more than `p`. */
  ghost predicate Easier(q: Problem, p: Problem) {
    && q.blocks == p.blocks && q.succ == p.succ && q.h == p.h && q.bs == p.bs
    && q.need <= p.need && q.avoid <= p.avoid && (q.nocall ==> p.nocall)
  }

  lemma EasierCycles(q: Problem, p: Problem, w: seq<Hop<nat>>)
    requires Easier(q, p) && w in Cycles(p)
    ensures w in Cycles(q)
  {
    forall e: Hop<nat> | e in InnerHops(p) ensures e in InnerHops(q) {
      assert InnerHop(p, e);
    }
    WalkMonotone(InnerHops(p), InnerHops(q), p.h, w[..|w| - 1], w[|w| - 1].src);
  }

  /** Needing fewer features, avoiding fewer labels or allowing calls never raises the price, and
      never loses the cycle. */
  lemma EasierIsCheaper(q: Problem, p: Problem, rq: Option<Found>, rp: Option<Found>)
    requires Easier(q, p) && Answers(q, rq) && Answers(p, rp) && rp.Some?
    ensures rq.Some? && rq.value.cost <= rp.value.cost
  {
    var w :| Describes(p, rp.value, w);
    EasierCycles(q, p, w);
  }

  // ----- the 1e18 default -----

  /** A cycle of any cost has one no dearer that the search considers, as long as all segments of all
      nodes together stay below 1e18 instructions. */
  lemma DefaultNeverMatters(p: Problem, m: nat, w: seq<Hop<nat>>) returns (v: seq<Hop<nat>>)
    requires Cycle(p, w) && (forall i | 0 <= i < |p.blocks| :: |p.blocks[i].code| <= m)
    requires |Nodes(p)| * m < UNREACHED
    ensures v in Cycles(p) && Cost(v) <= Cost(w)
  {
    hide Cycles, Describes;
    var last := w[|w| - 1];
    var front := w[..|w| - 1];
    var b := Node(last.src, Feats(Executed(front)));
    var lifted := Lift(p, front, last.src);
    ProductBounded(p, m);
    var short := BelowDefault(ProductHops(p), Node(p.h, {}), lifted, b, Nodes(p), m);
    Project(p, short, b);
    FeatsJoin(Executed(front), last.seg);
    CloseCycle(p, Flatten(short), last);
    v := Flatten(short) + [last];
  }

  /** For code of any real size the answer ranges over all cycles: none is found exactly when there is
      none, and the cost found is the least there is, revisits included. */
  lemma ShortestIsExact(p: Problem, m: nat, r: Option<Found>)
    requires Answers(p, r) && (forall i | 0 <= i < |p.blocks| :: |p.blocks[i].code| <= m)
    requires |Nodes(p)| * m < UNREACHED
    ensures r.None? <==> forall w: seq<Hop<nat>> :: !Round(p, w)
    ensures r.Some? ==> forall w: seq<Hop<nat>> | Round(p, w) :: r.value.cost <= Cost(w)
    ensures r.Some? ==> exists w: seq<Hop<nat>> :: Round(p, w) && Reports(r.value, w)
  {
    hide Cycle, Nodes, Round, Figures;
    forall w: seq<Hop<nat>> | Round(p, w) ensures r.Some? && r.value.cost <= Cost(w) {
      CycleIff(p, w);
      var v := DefaultNeverMatters(p, m, w);
    }
    if r.Some? {
      var w: seq<Hop<nat>> :| Describes(p, r.value, w);
      assert w in Cycles(p) && Cycle(p, w);
      CycleIff(p, w);
      assert Reports(r.value, w);
    }
  }

  /** The figures returned are those of `w`. */
  ghost predicate Reports(r: Found, w: seq<Hop<nat>>) {
    && r.cost == Cost(w) && r.count == |w| == |r.segs| && (forall i | 0 <= i < |w| :: r.segs[i] == w[i].seg)
    && Figures(Executed(w), r.loads, r.stores)
  }

  lemma ProductBounded(p: Problem, m: nat)
    requires forall i | 0 <= i < |p.blocks| :: |p.blocks[i].code| <= m
    ensures Bounded(ProductHops(p), Nodes(p), m)
  {
    forall e | e in ProductHops(p) ensures e.dst in Nodes(p) && |e.seg| <= m {
      FeaturesFinite(e.dst.seen);
      assert InnerHop(p, Hop(e.src.block, e.seg, e.dst.block));
    }
  }

  // ----- walk_paths -----

  function Asking(p: Problem, need: set<Feature>): Problem {
    p.(avoid := {}, need := need, nocall := false)
  }

  /** No region is avoided and calls are allowed. */
  lemma AskedRounds(p: Problem, need: set<Feature>, w: seq<Hop<nat>>)
    ensures Round(Asking(p, need), w) <==>
            && |w| > 0 && Chained(p.h, w, p.h) && w[|w| - 1].src in p.bs
            && (forall i | 0 <= i < |w| :: AlongEdge(p, w[i]))
            && (forall i | 0 <= i < |w| - 1 :: w[i].dst in p.bs && w[i].dst != p.h)
            && forall f | f in need :: exists t :: t in Executed(w) && f in t.feats
  {
    hide Chained, Executed, IsSeg;
    assert forall i | 0 <= i < |w| :: AlongEdge(Asking(p, need), w[i]) <==> AlongEdge(p, w[i]);
  }

  const SKIP: set<Feature> := {TagTest}
  const MISS: set<Feature> := {TagTest, Xor}
  const PRE: set<Feature> := {TagTest, Xor, PreEq}
  const FUSED: set<Feature> := {TagTest, Xor, FusedShort}

  /** The place of a pattern in `FEAT`. */
  function Index(f: Feature): nat {
    match f
    case CallIndirect => 0
    case Xor => 1
    case TagTest => 2
    case Shift => 3
    case FusedShort => 4
    case PreEq => 5
    case CallDirect => 6
  }

  function Pow2(k: nat): (r: nat)
    ensures r > 0
  {
    if k == 0 then 1 else 2 * Pow2(k - 1)
  }

  /** The `need` masks that `walk_paths` passes, each bit the feature at its place. */
  lemma Masks(f: Feature)
    ensures f in SKIP <==> 4 / Pow2(Index(f)) % 2 == 1
    ensures f in MISS <==> 6 / Pow2(Index(f)) % 2 == 1
    ensures f in PRE <==> 38 / Pow2(Index(f)) % 2 == 1
    ensures f in FUSED <==> 22 / Pow2(Index(f)) % 2 == 1
  {
    assert Pow2(1) == 2 && Pow2(2) == 4 && Pow2(3) == 8 && Pow2(4) == 16 && Pow2(5) == 32 && Pow2(6) == 64;
  }

  datatype Prices = Prices(wc: bool, skip: Found, miss: Found, pre: Found, fused: Found)

  /** `walk_paths`, without the packed flag and the spill figures. The loop is priced exactly when its
      dearest demand can be met, and the prices are ordered. */
  method WalkPaths(p: Problem) returns (r: Option<Prices>)
    requires WellFormed(p)
    ensures r.None? <==> NoCycle(Asking(p, PRE))
    ensures r.Some? ==>
      && Answers(Asking(p, SKIP), Some(r.value.skip)) && Answers(Asking(p, MISS), Some(r.value.miss))
      && Answers(Asking(p, PRE), Some(r.value.pre))
      && (if NoCycle(Asking(p, FUSED)) then r.value.fused == r.value.pre
          else Answers(Asking(p, FUSED), Some(r.value.fused)))
    ensures r.Some? ==>
      && r.value.skip.cost <= r.value.miss.cost <= r.value.pre.cost
      && r.value.miss.cost <= r.value.fused.cost
      && (r.value.wc <==> r.value.skip.cost != r.value.miss.cost)
  {
    hide WellFormed, Cycles, Describes, NoneCheaper;
    AskingWellFormed(p, SKIP);
    AskingWellFormed(p, MISS);
    AskingWellFormed(p, PRE);
    AskingWellFormed(p, FUSED);
    var skip := Shortest(Asking(p, SKIP));
    var miss := Shortest(Asking(p, MISS));
    var pre := Shortest(Asking(p, PRE));
    var fused := Shortest(Asking(p, FUSED));
    if pre.Some? {
      EasierIsCheaper(Asking(p, MISS), Asking(p, PRE), miss, pre);
      EasierIsCheaper(Asking(p, SKIP), Asking(p, MISS), skip, miss);
    }
    if fused.Some? {
      EasierIsCheaper(Asking(p, MISS), Asking(p, FUSED), miss, fused);
    }
    SomeOrNone(Asking(p, PRE), pre);
    SomeOrNone(Asking(p, FUSED), fused);
    if skip.None? || miss.None? || pre.None? {
      return None;
    }
    r := Some(Prices(skip.value.cost < miss.value.cost, skip.value, miss.value, pre.value,
                     if fused.Some? then fused.value else pre.value));
  }

  lemma AskingWellFormed(p: Problem, need: set<Feature>)
    requires WellFormed(p)
    ensures WellFormed(Asking(p, need))
  {}

  lemma SomeOrNone(p: Problem, r: Option<Found>)
    requires Answers(p, r)
    ensures r.None? <==> NoCycle(p)
  {
    if r.Some? {
      var w :| Describes(p, r.value, w);
      assert w in Cycles(p);
    }
  }
}
