/** With nothing demanded, `shortest` and the plain search of paths2.py give the same price. */
module Agreement {
  import opened Asm
  import opened Regions
  import opened Segments
  import opened ShortestWalks
  import opened CycleSearch
  import opened CycleFacts
  import opened PlainCycles

  /** The same loop put to `shortest`: no features needed and calls allowed. */
  function AsProblem(q: Plain): Problem {
    Problem(q.blocks, q.succ, q.h, q.bs, q.avoid, {}, false)
  }

  /** Every edge inside the loop is taken by a direct jump or by falling through. */
  ghost predicate EdgesHaveSegments(q: Plain) {
    forall u, v: nat | u in q.bs + {q.h} && u < |q.succ| && v in q.succ[u] && u < |q.blocks| && v < |q.blocks| ::
      HasSeg(q.blocks[u].code, q.blocks[v].name, v == u + 1)
  }

  /** The edges `cfg` builds are of that kind unless a region of the loop holds an indirect jump. */
  lemma NoIndirectJumps(q: Plain, tables: Tables)
    requires |q.succ| == |q.blocks|
    requires forall u, v: nat | 0 <= u < |q.succ| :: v in q.succ[u] <==> IsSucc(q.blocks, tables, u, v)
    requires forall u, j | u in q.bs + {q.h} && 0 <= u < |q.blocks| && 0 <= j < |q.blocks[u].code| ::
               !q.blocks[u].code[j].kind.Indirect?
    ensures EdgesHaveSegments(q)
  {
    forall u, v: nat | u in q.bs + {q.h} && u < |q.succ| && v in q.succ[u] && v < |q.blocks|
      ensures HasSeg(q.blocks[u].code, q.blocks[v].name, v == u + 1)
    {
      var b := q.blocks[u].code;
      assert IsSucc(q.blocks, tables, u, v);
      if Falls(b) && v == u + 1 {
        assert IsSeg(b, q.blocks[v].name, true, b);
      } else {
        var j :| 0 <= j < |b| && InstrJumpsTo(tables, b, j, q.blocks[v].name);
        assert IsSeg(b, q.blocks[v].name, v == u + 1, b[..j + 1]);
      }
    }
  }

  /** Replacing each segment by the first of its parallels keeps the blocks and never costs more. */
  lemma {:induction false} Cheapen(q: Plain, w: seq<Hop<nat>>, b: nat) returns (v: seq<Hop<nat>>)
    requires !q.nocall && Walk(InnerHops(AsProblem(q)), q.h, w, b)
    ensures Walk(PlainHops(q), q.h, v, b) && Cost(v) <= Cost(w)
  {
    if w == [] {
      v := [];
    } else {
      var n := |w| - 1;
      var e := w[n];
      v := Cheapen(q, w[..n], e.src);
      assert InnerHop(AsProblem(q), e);
      CutIsShortest(q.blocks[e.src].code, q.blocks[e.dst].name, e.dst == e.src + 1, e.seg);
      var f := EdgeTo(q, e.src, e.dst);
      assert PlainInner(q, f);
      WalkSnoc(PlainHops(q), q.h, v, f);
      v := v + [f];
    }
  }

  /** A plain cycle is one of the cycles of `shortest`. */
  lemma PlainIsCycle(q: Plain, w: seq<Hop<nat>>)
    requires !q.nocall && EdgesHaveSegments(q) && PlainCycle(q, w)
    ensures w in Cycles(AsProblem(q))
  {
    var p := AsProblem(q);
    var n := |w| - 1;
    PlainWalkIsWalk(q, w[..n], w[n].src);
    FirstSegIsSeg(q, w[n].src, q.h);
    assert LastHop(p, w[n]);
  }

  lemma FirstSegIsSeg(q: Plain, u: nat, v: nat)
    requires EdgesHaveSegments(q) && u in q.bs + {q.h}
    requires u < |q.succ| && u < |q.blocks| && v < |q.blocks| && v in q.succ[u]
    ensures IsSeg(q.blocks[u].code, q.blocks[v].name, v == u + 1, FirstSeg(q.blocks, u, v))
  {
    var sg :| IsSeg(q.blocks[u].code, q.blocks[v].name, v == u + 1, sg);
    CutIsShortest(q.blocks[u].code, q.blocks[v].name, v == u + 1, sg);
  }

  lemma {:induction false} PlainWalkIsWalk(q: Plain, w: seq<Hop<nat>>, b: nat)
    requires !q.nocall && EdgesHaveSegments(q) && Walk(PlainHops(q), q.h, w, b)
    ensures Walk(InnerHops(AsProblem(q)), q.h, w, b) && b in q.bs + {q.h}
  {
    if w != [] {
      var n := |w| - 1;
      PlainWalkIsWalk(q, w[..n], w[n].src);
      assert PlainInner(q, w[n]);
      FirstSegIsSeg(q, w[n].src, w[n].dst);
      assert InnerHop(AsProblem(q), w[n]);
    }
  }

  lemma CheapenCycle(q: Plain, w: seq<Hop<nat>>) returns (v: seq<Hop<nat>>)
    requires !q.nocall && q.h < |q.blocks| && q.blocks[q.h].name !in q.avoid && w in Cycles(AsProblem(q))
    ensures PlainCycle(q, v) && Cost(v) <= Cost(w)
  {
    var n := |w| - 1;
    var e := w[n];
    var front := Cheapen(q, w[..n], e.src);
    CutIsShortest(q.blocks[e.src].code, q.blocks[q.h].name, q.h == e.src + 1, e.seg);
    PlainClosed(q, front, e.src);
    v := front + [EdgeTo(q, e.src, q.h)];
  }

  /** The two searches agree: both fail, or both return the same cost. The header must not be on the
      avoided list, which only paths2.py applies to it. */
  lemma SameAsPlain(q: Plain, r: Option<Found>, s: Option<PlainFound>)
    requires PlainOk(q) && !q.nocall && q.blocks[q.h].name !in q.avoid && EdgesHaveSegments(q)
    requires Answers(AsProblem(q), r) && PlainAnswers(q, s)
    ensures r.Some? <==> s.Some?
    ensures r.Some? ==> r.value.cost == s.value.cost
  {
    hide Cycles, PlainCycle, EdgesHaveSegments;
    if s.Some? {
      var w: seq<Hop<nat>> :| PlainDescribes(q, s.value.cost, s.value.path, w);
      PlainIsCycle(q, w);
      assert r.Some? && r.value.cost <= Cost(w);
    }
    if r.Some? {
      var w: seq<Hop<nat>> :| Describes(AsProblem(q), r.value, w);
      var v := CheapenCycle(q, w);
      assert s.Some? && s.value.cost <= Cost(v);
    }
  }

  /** With the header on the avoided list the plain search always fails ... */
  lemma AvoidedHeaderFails(q: Plain, s: Option<PlainFound>)
    requires PlainOk(q) && q.blocks[q.h].name in q.avoid && PlainAnswers(q, s)
    ensures s.None?
  {}

  /** ... while `shortest` exempts it: the two then agree exactly when there is no cycle to find. */
  lemma AvoidedHeaderIff(q: Plain, r: Option<Found>, s: Option<PlainFound>)
    requires PlainOk(q) && q.blocks[q.h].name in q.avoid && Answers(AsProblem(q), r) && PlainAnswers(q, s)
    ensures (r.Some? <==> s.Some?) <==> NoCycle(AsProblem(q))
  {
    hide Answers, PlainAnswers, PlainOk, NoCycle;
    AvoidedHeaderFails(q, s);
    SomeOrNone(AsProblem(q), r);
  }

  /** A region that only jumps to itself, with its own label avoided. */
  function SelfLoop(): Plain {
    Plain.Plain([Block(Entry, []), Block(Lbb(1, 1), [Instr(Branch(Lbb(1, 1), true), None, {}, false, 0, false)])],
                [{1}, {1}], 1, {1}, {Lbb(1, 1)}, false)
  }

  function SelfHop(): Hop<nat> {
    Hop(1, SelfLoop().blocks[1].code, 1)
  }

  lemma SelfLoopCycle()
    ensures [SelfHop()] in Cycles(AsProblem(SelfLoop())) && Cost([SelfHop()]) == 1
  {
    var p, e := AsProblem(SelfLoop()), SelfHop();
    assert Targets(e.seg[0], Lbb(1, 1)) && e.seg[..0 + 1] == e.seg;
    assert RegionHop(p, e) && LastHop(p, e);
    CloseCycle(p, [], e);
    assert [] + [e] == [e];
  }

  lemma SelfLoopCost(w: seq<Hop<nat>>)
    requires w in Cycles(AsProblem(SelfLoop()))
    ensures Cost(w) >= 1
  {
    var last := w[|w| - 1];
    assert LastHop(AsProblem(SelfLoop()), last);
    assert |last.seg| == 1;
    assert Executed(w) == Executed(w[..|w| - 1]) + last.seg;
  }

  /** There the two searches differ. */
  lemma AvoidedHeaderDiffers(r: Option<Found>, s: Option<PlainFound>)
    requires Answers(AsProblem(SelfLoop()), r) && PlainAnswers(SelfLoop(), s)
    ensures s.None? && r.Some? && r.value.cost == 1
  {
    hide SelfHop, Cycles, Executed;
    AvoidedHeaderFails(SelfLoop(), s);
    SelfLoopCycle();
    var v: seq<Hop<nat>> :| Describes(AsProblem(SelfLoop()), r.value, v);
    SelfLoopCost(v);
  }
}
