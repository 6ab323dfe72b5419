/** A graph copied into a larger one at an offset, entered from block 0 at most: dominance and
    natural loops carry over block by block. */
module Embedding {
  import opened Dominance
  import opened Loops

  /** `a` sits in `m` at `off`. Only its first block may gain a predecessor, block 0 of `m`, and only
      when it comes right after it. */
  ghost predicate Embeds(a: Preds, m: Preds, off: nat) {
    && Closed(a) && Closed(m) && 1 <= off && off + |a| <= |m|
    && a[0] == {} && m[0] == {}
    && forall w, u: nat | off <= w < off + |a| ::
         u in m[w] <==> (u >= off && u - off in a[w - off]) || (off == 1 && w == 1 && u == 0)
  }

  function Shifted(q: seq<nat>, off: nat): (p: seq<nat>)
    ensures |p| == |q|
  {
    seq(|q|, i requires 0 <= i < |q| => off + q[i])
  }

  lemma EdgeShift(a: Preds, m: Preds, off: nat, u: nat, v: nat)
    requires Embeds(a, m, off) && v < |a|
    ensures Edge(m, off + u, off + v) <==> Edge(a, u, v)
  {
    if off + u in m[off + v] { assert off + u - off in a[v]; }
    if u in a[v] { assert off + u in m[off + v]; }
  }

  lemma PathUp(a: Preds, m: Preds, off: nat, q: seq<nat>)
    requires Embeds(a, m, off) && Path(a, q)
    ensures Path(m, Shifted(q, off))
  {
    var p := Shifted(q, off);
    forall i, j | 0 <= i && j == i + 1 && j < |p| ensures Edge(m, p[i], p[j]) {
      assert Edge(a, q[i], q[j]);
      EdgeShift(a, m, off, q[i], q[j]);
    }
  }

  /** A path that ends inside the copy and does not start at block 0 lies inside the copy. */
  lemma {:induction false} PathDown(a: Preds, m: Preds, off: nat, p: seq<nat>, v: nat) returns (q: seq<nat>)
    requires Embeds(a, m, off) && v < |a| && Path(m, p) && p[|p| - 1] == off + v && p[0] != 0
    ensures Path(a, q) && p == Shifted(q, off)
    decreases |p|
  {
    if |p| == 1 {
      q := [v];
    } else {
      var n := |p| - 1;
      assert Edge(m, p[n - 1], p[n]);
      PathSlice(m, p, 0, n);
      assert n >= 2 ==> Edge(m, p[n - 2], p[n - 1]);
      assert p[n - 1] in m[p[n]];
      var u: nat := p[n - 1] - off;
      EdgeShift(a, m, off, u, v);
      q := PathDown(a, m, off, p[0..n], u);
      PathExtend(a, q, v);
      q := q + [v];
    }
  }

  lemma RootUp(a: Preds, m: Preds, off: nat, q: seq<nat>, v: nat) returns (p: seq<nat>)
    requires Embeds(a, m, off) && RootPath(a, q, v)
    ensures RootPath(m, p, off + v) && (p == Shifted(q, off) || p == [0] + Shifted(q, off))
  {
    PathUp(a, m, off, q);
    p := Shifted(q, off);
    if off == 1 && q[0] == 0 {
      p := [0] + p;
      assert Edge(m, 0, 1);
      assert Path(m, p) by {
        forall i, j | 0 <= i && j == i + 1 && j < |p| ensures Edge(m, p[i], p[j]) {
          if i > 0 { assert Edge(m, Shifted(q, off)[i - 1], Shifted(q, off)[j - 1]); }
        }
      }
    } else {
      forall u: nat ensures u !in m[p[0]] {
        assert p[0] - off == q[0];
      }
    }
  }

  lemma RootDown(a: Preds, m: Preds, off: nat, p: seq<nat>, v: nat) returns (q: seq<nat>)
    requires Embeds(a, m, off) && v < |a| && RootPath(m, p, off + v)
    ensures RootPath(a, q, v) && (p == Shifted(q, off) || p == [0] + Shifted(q, off))
  {
    if p[0] != 0 {
      q := PathDown(a, m, off, p, v);
      assert a[q[0]] == {} by {
        if u: nat :| u in a[q[0]] { EdgeShift(a, m, off, u, q[0]); }
      }
    } else {
      PathSlice(m, p, 1, |p|);
      var r := p[1..|p|];
      assert Edge(m, p[0], p[1]);
      q := PathDown(a, m, off, r, v);
      assert p == [0] + r;
      assert 0 in m[off + q[0]];
    }
  }

  lemma InShifted(q: seq<nat>, off: nat, x: nat)
    ensures off + x in Shifted(q, off) <==> x in q
  {
    if off + x in Shifted(q, off) {
      var i :| 0 <= i < |q| && Shifted(q, off)[i] == off + x;
      assert q[i] == x;
    }
    if x in q {
      var i :| 0 <= i < |q| && q[i] == x;
      assert Shifted(q, off)[i] == off + x;
    }
  }

  lemma DomUp(a: Preds, m: Preds, off: nat, x: nat, v: nat)
    requires Embeds(a, m, off) && v < |a| && Dom(a, x, v)
    ensures Dom(m, off + x, off + v)
  {
    var w := off + v;
    forall p | RootPath(m, p, w) ensures off + x in p {
      var q := RootDown(a, m, off, p, v);
      InShifted(q, off, x);
    }
  }

  lemma DomDown(a: Preds, m: Preds, off: nat, x: nat, v: nat)
    requires Embeds(a, m, off) && v < |a| && Dom(m, off + x, off + v)
    ensures Dom(a, x, v)
  {
    forall q | RootPath(a, q, v) ensures x in q {
      var p := RootUp(a, m, off, q, v);
      InShifted(q, off, x);
    }
  }

  lemma BackEdgeShift(a: Preds, m: Preds, off: nat, u: nat, h: nat)
    requires Embeds(a, m, off) && h < |a|
    ensures BackEdge(m, off + u, off + h) <==> BackEdge(a, u, h)
  {
    EdgeShift(a, m, off, u, h);
    if BackEdge(m, off + u, off + h) { DomDown(a, m, off, h, u); }
    if BackEdge(a, u, h) { DomUp(a, m, off, h, u); }
  }

  /** Every back edge into the copy starts in the copy. */
  lemma BackEdgeInside(a: Preds, m: Preds, off: nat, u: nat, h: nat)
    requires Embeds(a, m, off) && h < |a| && BackEdge(m, u, off + h)
    ensures u >= off && BackEdge(a, u - off, h)
  {
    assert RootPath(m, [0], 0);
    assert u in m[off + h];
    BackEdgeShift(a, m, off, u - off, h);
  }

  lemma HeaderShift(a: Preds, m: Preds, off: nat, h: nat)
    requires Embeds(a, m, off) && h < |a|
    ensures Header(m, off + h) <==> Header(a, h)
  {
    if Header(m, off + h) {
      var u: nat :| BackEdge(m, u, off + h);
      BackEdgeInside(a, m, off, u, h);
    }
    if Header(a, h) {
      var u :| BackEdge(a, u, h);
      BackEdgeShift(a, m, off, u, h);
    }
  }

  /** A block that reaches a back edge of the copy without passing its header is in the copy. */
  lemma AvoidingInside(a: Preds, m: Preds, off: nat, y: nat, u: nat, h: nat)
    requires Embeds(a, m, off) && h < |a| && BackEdge(a, u, h) && ReachesAvoiding(m, y, off + u, off + h)
    ensures y >= off && ReachesAvoiding(a, y - off, u, h)
  {
    BackEdgeShift(a, m, off, u, h);
    var p :| PathTo(m, y, p, off + u) && off + h !in p;
    assert !RootPath(m, p, off + u);
    var q := PathDown(a, m, off, p, u);
    InShifted(q, off, h);
    assert PathTo(a, y - off, q, u) && h !in q;
  }

  lemma AvoidingUp(a: Preds, m: Preds, off: nat, x: nat, u: nat, h: nat)
    requires Embeds(a, m, off) && ReachesAvoiding(a, x, u, h)
    ensures ReachesAvoiding(m, off + x, off + u, off + h)
  {
    var q :| PathTo(a, x, q, u) && h !in q;
    PathUp(a, m, off, q);
    InShifted(q, off, h);
    assert PathTo(m, off + x, Shifted(q, off), off + u);
  }

  lemma MemberShift(a: Preds, m: Preds, off: nat, h: nat, y: nat)
    requires Embeds(a, m, off) && h < |a|
    ensures Member(m, off + h, y) <==> y >= off && Member(a, h, y - off)
  {
    if y != off + h {
      if Member(m, off + h, y) {
        var u: nat :| BackEdge(m, u, off + h) && ReachesAvoiding(m, y, u, off + h);
        BackEdgeInside(a, m, off, u, h);
        AvoidingInside(a, m, off, y, u - off, h);
      }
      if y >= off && Member(a, h, y - off) {
        var u :| BackEdge(a, u, h) && ReachesAvoiding(a, y - off, u, h);
        BackEdgeShift(a, m, off, u, h);
        AvoidingUp(a, m, off, y - off, u, h);
      }
    }
  }
}
