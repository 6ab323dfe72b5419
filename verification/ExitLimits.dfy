/** When `exit_len` (tools/asmcensus/score.py) is the least way out: the distances of the `ret`s from the starts
    of their regions decide it, and they do so only if they are all equal. */
module ExitLimits {
  import opened Asm
  import opened ShortestWalks
  import opened PlainCycles
  import opened Prologue
  import opened ExitPath
  import opened Dominance
  import opened Loops
  import opened Regions

  function Op(kind: Kind): Instr {
    Instr(kind, None, {}, false, 0, false)
  }

  /** `k` instructions, the last a `ret`. */
  function Stretch(k: nat): (b: seq<Instr>)
    requires k > 0
    ensures |b| == k && HasRet(b) && ToRet(b) == k && b[k - 1] == Op(Ret)
    ensures forall i | 0 <= i < k :: b[i].kind == Kind.Plain || b[i].kind == Ret
  {
    var b := if k == 1 then [Op(Ret)] else [Op(Kind.Plain)] + Stretch(k - 1);
    assert b[k - 1].kind.Ret?;
    b
  }

  /** Region 1 loops and is left for region 2, which jumps to a `ret` at distance `a` or falls to one at `b`. */
  function Fork(a: nat, b: nat): Flow
    requires a > 0 && b > 0
  {
    Flow([Block(Entry, []),
          Block(Lbb(1, 1), [Op(Branch(Lbb(1, 1), false))]),
          Block(Lbb(1, 2), [Op(Branch(Lbb(1, 4), false))]),
          Block(Lbb(1, 3), Stretch(b)),
          Block(Lbb(1, 4), Stretch(a))],
         [{1}, {1, 2}, {3, 4}, {}, {}])
  }

  // ----- the listing is one `exit_len` meets -----

  lemma StretchJumpsNowhere(k: nat, l: Label)
    requires k > 0
    ensures !JumpsTo(map[], Stretch(k), l) && !Falls(Stretch(k))
  {
    assert Stretch(k)[k - 1].kind == Ret;
  }

  lemma JumpsOnly(l: Label, m: Label)
    ensures JumpsTo(map[], [Op(Branch(l, false))], m) <==> m == l
    ensures !JumpsTo(map[], [], m)
  {
    var b := [Op(Branch(l, false))];
    assert Targets(b[0], m) <==> m == l;
    if m == l { assert InstrJumpsTo(map[], b, 0, m); }
  }

  lemma ForkEdges(a: nat, b: nat, u: nat, v: nat)
    requires a > 0 && b > 0 && u < 5
    ensures v in Fork(a, b).succ[u] <==> IsSucc(Fork(a, b).blocks, map[], u, v)
  {
    var blocks := Fork(a, b).blocks;
    if v < 5 {
      StretchJumpsNowhere(a, blocks[v].name);
      StretchJumpsNowhere(b, blocks[v].name);
      JumpsOnly(Lbb(1, 1), blocks[v].name);
      JumpsOnly(Lbb(1, 4), blocks[v].name);
      assert LastWithLabel(blocks, v);
    }
  }

  lemma ForkOk(a: nat, b: nat)
    requires a > 0 && b > 0
    ensures FlowOk(Fork(a, b)) && |Fork(a, b).blocks| == 5
    ensures a <= b ==> forall i | 0 <= i < 5 :: |Fork(a, b).blocks[i].code| <= b
  {
    var c := Fork(a, b);
    forall u, v | 0 <= u < 5 && v in c.succ[u] ensures v < 5 {}
  }

  const FORK_GRAPH: Preds := [{}, {0, 1}, {1}, {2}, {2}]

  lemma ForkGraph(a: nat, b: nat)
    requires a > 0 && b > 0
    ensures GraphOf(Fork(a, b).blocks, map[]) == FORK_GRAPH
  {
    hide IsSucc, Fork;
    var c := Fork(a, b);
    ForkOk(a, b);
    forall u: nat, v: nat | u < 5 ensures v in c.succ[u] <==> IsSucc(c.blocks, map[], u, v) {
      ForkEdges(a, b, u, v);
    }
    ForkMirror(a, b);
    SamePreds(c.blocks, map[], c.succ, FORK_GRAPH);
  }

  lemma ForkMirror(a: nat, b: nat)
    requires a > 0 && b > 0
    ensures Mirror(Fork(a, b).succ, FORK_GRAPH)
  {}

  lemma ForkLoops()
    ensures ExactLoops(FORK_GRAPH, map[1 := {1}])
  {
    var pred := FORK_GRAPH;
    assert BackEdge(pred, 1, 1);
    assert RootPath(pred, [0], 0);
    forall u, h | BackEdge(pred, u, h) ensures u == 1 && h == 1 { OnlyBackEdge(u, h); }
  }

  lemma OnlyBackEdge(u: nat, h: nat)
    requires BackEdge(FORK_GRAPH, u, h)
    ensures u == 1 && h == 1
  {
    if u == 0 {
      assert RootPath(FORK_GRAPH, [0], 0);
    } else if u == 1 && h == 2 {
      assert RootPath(FORK_GRAPH, [0, 1], 1);
    } else if u == 2 {
      assert RootPath(FORK_GRAPH, [0, 1, 2], 2);
    }
  }

  lemma OutOfRange(blocks: seq<Block>, u: nat, v: nat)
    requires u >= |blocks|
    ensures !IsSucc(blocks, map[], u, v)
  {}

  /** The regions are cut from a listing, the edges are those of `cfg`, and region 1 is a natural loop. */
  lemma ForkIsReal(a: nat, b: nat)
    requires a > 0 && b > 0
    ensures CutRegions(Unparse(Fork(a, b).blocks)) == Fork(a, b).blocks
    ensures forall u: nat, v: nat | u < 5 :: v in Fork(a, b).succ[u] <==> IsSucc(Fork(a, b).blocks, map[], u, v)
    ensures ExactLoops(GraphOf(Fork(a, b).blocks, map[]), map[1 := {1}])
  {
    hide CutRegions, Unparse, IsSucc, ExactLoops;
    var c := Fork(a, b);
    ForkOk(a, b);
    UnparseThenCut(c.blocks);
    forall u: nat, v: nat | u < 5 ensures v in c.succ[u] <==> IsSucc(c.blocks, map[], u, v) {
      ForkEdges(a, b, u, v);
    }
    ForkGraph(a, b);
    ForkLoops();
  }

  // ----- what `exit_len` says of it -----

  lemma ForkSegments(a: nat, b: nat)
    requires a > 0 && b > 0
    ensures var blocks := Fork(a, b).blocks; |FirstSeg(blocks, 2, 3)| == 1 && |FirstSeg(blocks, 2, 4)| == 1
    ensures EntryHop(Fork(a, b), Hop(2, FirstSeg(Fork(a, b).blocks, 2, 3), 3))
    ensures EntryHop(Fork(a, b), Hop(2, FirstSeg(Fork(a, b).blocks, 2, 4), 4))
  {
    var blocks := Fork(a, b).blocks;
    assert Targets(blocks[2].code[0], Lbb(1, 4));
    assert !Targets(blocks[2].code[0], Lbb(1, 3));
  }

  lemma ForkRets(a: nat, b: nat)
    requires a > 0 && b > 0
    ensures var blocks := Fork(a, b).blocks;
            && HasRet(blocks[3].code) && ToRet(blocks[3].code) == b
            && HasRet(blocks[4].code) && ToRet(blocks[4].code) == a
  {}

  lemma ForkWay(a: nat, b: nat, x: nat) returns (w: seq<Hop<nat>>)
    requires a > 0 && b > 0 && (x == 3 || x == 4)
    ensures WayOut(Fork(a, b), 2, w, x) && Cost(w) == 1 && |w| == 1 && w[0].seg != []
  {
    hide Fork, ToRet, EntryHop, FirstSeg, Walk, EntryHops, HasRet, WalksTo, FlowOk;
    ForkOk(a, b);
    ForkRets(a, b);
    ForkSegments(a, b);
    var e := Hop(2, FirstSeg(Fork(a, b).blocks, 2, x), x);
    w := [e];
    OneHopWay(Fork(a, b), e);
  }

  lemma OneHopWay(c: Flow, e: Hop<nat>)
    requires EntryHop(c, e) && HasRet(c.blocks[e.dst].code) && |e.seg| < UNREACHED
    ensures WayOut(c, e.src, [e], e.dst) && Cost([e]) == |e.seg|
  {
    WalkSnoc(EntryHops(c), e.src, [], e);
    assert [] + [e] == [e];
  }

  lemma {:induction false} ForkWalk(a: nat, b: nat, w: seq<Hop<nat>>, x: nat)
    requires a > 0 && b > 0 && Walk(EntryHops(Fork(a, b)), 2, w, x)
    ensures (x == 2 && w == []) || ((x == 3 || x == 4) && Cost(w) == 1)
  {
    if w != [] {
      var n := |w| - 1;
      assert EntryHop(Fork(a, b), w[n]);
      ForkWalk(a, b, w[..n], w[n].src);
      ForkSegments(a, b);
      assert Executed(w) == Executed(w[..n]) + w[n].seg;
    }
  }

  /** For all distances a < b there is a listing on which `exit_len` returns 1 + b although a way out of 1 + a
      instructions exists. */
  lemma ExitLenOvershoots(a: nat, b: nat, r: Option<nat>)
    requires 0 < a < b && ExitLenOk(Fork(a, b), {1}, r)
    ensures r == Some(1 + b) && !LeastWayOut(Fork(a, b), {1}, r)
  {
    hide HasRet, ToRet, EntryHops, WalksTo;
    var c := Fork(a, b);
    var near := ForkWay(a, b, 4);
    var far := ForkWay(a, b, 3);
    assert ExitEdge(c, {1}, 1, 2) && forall u: nat, v: nat | ExitEdge(c, {1}, u, v) :: u == 1 && v == 2;
    assert !NoWayOut(c, 2);
    var w: seq<Hop<nat>>, x: nat :| IsAnswer(c, 2, r.value, w, x);
    WayIsWalk(c, 2, w, x);
    ForkWalk(a, b, w, x);
    WayIsWalk(c, 2, near, 4);
    assert AnyWayOut(c, 2, near, 4) && OutCost(c, near, 4) == 1 + a;
  }

  lemma WayIsWalk(c: Flow, v: nat, w: seq<Hop<nat>>, x: nat)
    requires WayOut(c, v, w, x)
    ensures Walk(EntryHops(c), v, w, x) && HasRet(c.blocks[x].code) && AnyWayOut(c, v, w, x)
  {}

  lemma ForkAnswered(a: nat, b: nat)
    requires a > 0 && b > 0
    ensures ExitLenOk(Fork(a, b), {1}, Some(1 + b))
  {
    hide HasRet, ToRet, EntryHops, WalksTo;
    var c := Fork(a, b);
    var far := ForkWay(a, b, 3);
    forall u: seq<Hop<nat>>, y: nat | WayOut(c, 2, u, y) ensures Cost(u) == 1 && 3 <= y {
      WayIsWalk(c, 2, u, y);
      ForkWalk(a, b, u, y);
      NoRetBefore(a, b, y);
    }
    assert IsAnswer(c, 2, 1 + b, far, 3);
    assert ExitEdge(c, {1}, 1, 2) && forall u: nat, v: nat | ExitEdge(c, {1}, u, v) :: u == 1 && v == 2;
    assert ExitAnswer(c, 2, Some(1 + b));
  }

  lemma NoRetBefore(a: nat, b: nat, y: nat)
    requires a > 0 && b > 0 && y < 5 && HasRet(Fork(a, b).blocks[y].code)
    ensures y == 3 || y == 4
  {}

  lemma ForkReached(a: nat, b: nat, x: nat)
    requires a > 0 && b > 0 && x < 5 && Reached(Fork(a, b), {1}, x)
    ensures ToRet(Fork(a, b).blocks[x].code) in {a, b}
  {
    hide ToRet;
    var c := Fork(a, b);
    var u: nat, v: nat, w: seq<Hop<nat>> :| ExitEdge(c, {1}, u, v) && AnyWayOut(c, v, w, x);
    NoRetBefore(a, b, x);
  }

  // ----- which distances make it exact -----

  /** A listing of real size in which every `ret` reached stands at a distance in `ds`, and the answer. */
  ghost predicate Case(ds: set<nat>, c: Flow, bs: set<nat>, m: nat, r: Option<nat>) {
    && FlowOk(c) && ExitLenOk(c, bs, r)
    && (forall i | 0 <= i < |c.blocks| :: |c.blocks[i].code| <= m) && |c.blocks| * m < UNREACHED
    && forall x: nat | x < |c.blocks| && Reached(c, bs, x) :: ToRet(c.blocks[x].code) in ds
  }

  ghost predicate ExactFor(ds: set<nat>) {
    forall c, bs, m, r | Case(ds, c, bs, m, r) :: LeastWayOut(c, bs, r)
  }

  lemma OneDistance(ds: set<nat>, c: Flow, bs: set<nat>, m: nat, r: Option<nat>)
    requires Case(ds, c, bs, m, r) && forall a, b | a in ds && b in ds :: a == b
    ensures LeastWayOut(c, bs, r)
  {
    hide ExitLenOk, LeastWayOut, Reached, ToRet;
    if x: nat :| x < |c.blocks| && Reached(c, bs, x) {
      ExitLenIsExact(c, bs, m, ToRet(c.blocks[x].code), r);
    } else {
      ExitLenIsExact(c, bs, m, 0, r);
    }
  }

  lemma ForkCase(ds: set<nat>, a: nat, b: nat)
    requires a in ds && b in ds && 0 < a < b && 5 * b < UNREACHED && ExitLenOk(Fork(a, b), {1}, Some(1 + b))
    ensures Case(ds, Fork(a, b), {1}, b, Some(1 + b))
  {
    hide ExitLenOk, Reached, Fork, FlowOk;
    var c := Fork(a, b);
    ForkOk(a, b);
    forall x: nat | x < |c.blocks| && Reached(c, {1}, x) ensures ToRet(c.blocks[x].code) in ds { ForkReached(a, b, x); }
  }

  /** Among conditions on the distances of the `ret`s, only "all equal" makes `exit_len` exact. */
  lemma ExactForIff(ds: set<nat>)
    requires forall d | d in ds :: d > 0 && 5 * d < UNREACHED
    ensures ExactFor(ds) <==> forall a, b | a in ds && b in ds :: a == b
  {
    hide Case, LeastWayOut, ExitLenOk, Fork;
    if forall a, b | a in ds && b in ds :: a == b {
      forall c, bs, m, r | Case(ds, c, bs, m, r) ensures LeastWayOut(c, bs, r) {
        OneDistance(ds, c, bs, m, r);
      }
    }
    forall a, b | a in ds && b in ds && a < b ensures !ExactFor(ds) {
      ForkAnswered(a, b);
      ForkCase(ds, a, b);
      ExitLenOvershoots(a, b, Some(1 + b));
    }
  }
}
