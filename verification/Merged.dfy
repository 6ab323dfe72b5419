/** `merged` (tools/asmcensus/cfg.py): several symbol bodies as one instruction list, and the proof
    that the loops of the union are the loops of the bodies. */
module Merged {
  import opened Asm
  import opened Dominance
  import opened Loops
  import opened Regions
  import opened Embedding

  type Bodies = seq<seq<Line>>

  /** The label put in front of body `k`. */
  function Synthetic(k: nat): Label {
    Lbb(9999, k)
  }

  function MergedLines(bodies: Bodies): seq<Line> {
    if bodies == [] then [] else
      var n := |bodies| - 1;
      MergedLines(bodies[..n]) + [LabelLine(Synthetic(n))] + bodies[n]
  }

  method Merge(bodies: Bodies) returns (out: seq<Line>)
    ensures out == MergedLines(bodies)
  {
    out := [];
    for k := 0 to |bodies|
      invariant out == MergedLines(bodies[..k])
    {
      assert bodies[..k + 1][..k] == bodies[..k];
      out := out + [LabelLine(Synthetic(k))];
      out := out + bodies[k];
    }
    assert bodies[..|bodies|] == bodies;
  }

  /** How many lines stand before body `k`, its label included. */
  function Before(bodies: Bodies, k: nat): nat
    requires k < |bodies|
  {
    if k == 0 then 1 else Before(bodies, k - 1) + |bodies[k - 1]| + 1
  }

  /** Body `k` stands behind the label `.LBB9999_k`, right after the bodies before it. */
  lemma {:induction false} MergedAt(bodies: Bodies, n: nat, k: nat)
    requires k < n <= |bodies|
    ensures var out, i := MergedLines(bodies[..n]), Before(bodies, k);
            i + |bodies[k]| <= |out| && out[i - 1] == LabelLine(Lbb(9999, k)) && out[i..i + |bodies[k]|] == bodies[k]
    ensures |MergedLines(bodies[..n])| == Before(bodies, n - 1) + |bodies[n - 1]|
  {
    var front := bodies[..n - 1];
    assert bodies[..n][..n - 1] == front && bodies[..n][n - 1] == bodies[n - 1];
    if n > 1 { MergedAt(bodies, n - 1, if k < n - 1 then k else n - 2); }
    var out := MergedLines(bodies[..n]);
    assert out == MergedLines(front) + [LabelLine(Synthetic(n - 1))] + bodies[n - 1];
    if k < n - 1 {
      var i := Before(bodies, k);
      assert out[i..i + |bodies[k]|] == MergedLines(front)[i..i + |bodies[k]|];
    }
  }

  // ----- the regions of the merged list -----

  /** The regions of one body, its unlabelled entry region now labelled. */
  function Relabel(r: seq<Block>, l: Label): (q: seq<Block>)
    requires |r| > 0
    ensures |q| == |r|
  {
    [Block(l, r[0].code)] + r[1..]
  }

  lemma {:induction false} CutAppendBody(front: seq<Line>, l: Label, body: seq<Line>)
    ensures CutRegions(front + [LabelLine(l)] + body) == CutRegions(front) + Relabel(CutRegions(body), l)
  {
    var start := front + [LabelLine(l)];
    if body == [] {
      assert start + body == start;
      CutOneMore(front, LabelLine(l));
    } else {
      var n := |body| - 1;
      CutAppendBody(front, l, body[..n]);
      assert start + body == (start + body[..n]) + [body[n]];
      CutOneMore(start + body[..n], body[n]);
      assert body == body[..n] + [body[n]];
      CutOneMore(body[..n], body[n]);
      AddLineLater(CutRegions(front), CutRegions(body[..n]), l, body[n]);
    }
  }

  lemma AddLineLater(a: seq<Block>, r: seq<Block>, l: Label, t: Line)
    requires |r| > 0
    ensures AddLine(a + Relabel(r, l), t) == a + Relabel(AddLine(r, t), l)
  {
    var q := Relabel(r, l);
    match t
    case LabelLine(k) =>
      assert (a + q) + [Block(k, [])] == a + (q + [Block(k, [])]);
      assert q + [Block(k, [])] == Relabel(r + [Block(k, [])], l);
    case Code(i) =>
      assert a + q == a + q[..|q| - 1] + [q[|q| - 1]];
      assert AddCode(a + q, [i]) == a + AddCode(q, [i]);
      assert AddCode(q, [i]) == Relabel(AddCode(r, [i]), l);
  }

  function MergedBlocks(bodies: Bodies): seq<Block> {
    CutRegions(MergedLines(bodies))
  }

  /** Where the regions of body `k` start. */
  function Offset(bodies: Bodies, k: nat): nat
    requires k <= |bodies|
  {
    |MergedBlocks(bodies[..k])|
  }

  lemma MergedStep(bodies: Bodies, k: nat)
    requires k < |bodies|
    ensures MergedBlocks(bodies[..k + 1]) == MergedBlocks(bodies[..k]) + Relabel(CutRegions(bodies[k]), Synthetic(k))
    ensures Offset(bodies, k + 1) == Offset(bodies, k) + |CutRegions(bodies[k])|
  {
    assert bodies[..k + 1][..k] == bodies[..k];
    CutAppendBody(MergedLines(bodies[..k]), Synthetic(k), bodies[k]);
  }

  lemma {:induction false} MergedPrefix(bodies: Bodies, k: nat)
    requires k <= |bodies|
    ensures MergedBlocks(bodies[..k]) <= MergedBlocks(bodies)
    decreases |bodies| - k
  {
    if k == |bodies| {
      assert bodies[..k] == bodies;
    } else {
      MergedStep(bodies, k);
      MergedPrefix(bodies, k + 1);
    }
  }

  /** Region `v` of body `k` is region `Offset + v` of the whole. */
  lemma RegionAt(bodies: Bodies, k: nat, v: nat)
    requires k < |bodies| && v < |CutRegions(bodies[k])|
    ensures Offset(bodies, k) + v < |MergedBlocks(bodies)|
    ensures MergedBlocks(bodies)[Offset(bodies, k) + v].code == CutRegions(bodies[k])[v].code
    ensures MergedBlocks(bodies)[Offset(bodies, k) + v].name ==
            if v == 0 then Synthetic(k) else CutRegions(bodies[k])[v].name
  {
    MergedStep(bodies, k);
    MergedPrefix(bodies, k + 1);
    var i := Offset(bodies, k) + v;
    assert MergedBlocks(bodies)[i] == MergedBlocks(bodies[..k + 1])[i];
    assert MergedBlocks(bodies[..k + 1])[i] == Relabel(CutRegions(bodies[k]), Synthetic(k))[v];
  }

  lemma EntryRegion(bodies: Bodies)
    ensures |MergedBlocks(bodies)| > 0 && MergedBlocks(bodies)[0] == Block(Entry, [])
    ensures Offset(bodies, 0) == 1
  {
    MergedPrefix(bodies, 0);
    assert bodies[..0] == [];
    CutNothing();
    assert MergedBlocks([])[0] == Block(Entry, []);
  }

  lemma {:induction false} OffsetsGrow(bodies: Bodies, j: nat, k: nat)
    requires j < k <= |bodies|
    ensures Offset(bodies, j) + |CutRegions(bodies[j])| <= Offset(bodies, k)
    ensures 1 <= Offset(bodies, j)
    decreases k
  {
    MergedStep(bodies, k - 1);
    if j < k - 1 { OffsetsGrow(bodies, j, k - 1); }
  }

  /** Every region but the first belongs to one body. */
  lemma {:induction false} Locate(bodies: Bodies, n: nat, i: nat) returns (k: nat, v: nat)
    requires n <= |bodies| && 1 <= i < Offset(bodies, n)
    ensures k < n && v < |CutRegions(bodies[k])| && i == Offset(bodies, k) + v
    decreases n
  {
    EntryRegion(bodies);
    assert n >= 1;
    MergedStep(bodies, n - 1);
    if i >= Offset(bodies, n - 1) {
      k, v := n - 1, i - Offset(bodies, n - 1);
    } else {
      k, v := Locate(bodies, n - 1, i);
    }
  }

  // ----- the hypotheses -----

  ghost predicate HasLabel(body: seq<Line>, l: Label) {
    exists v :: 1 <= v < |CutRegions(body)| && CutRegions(body)[v].name == l
  }

  ghost predicate BodyJumpsTo(body: seq<Line>, tables: Tables, l: Label) {
    exists v :: 0 <= v < |CutRegions(body)| && JumpsTo(tables, CutRegions(body)[v].code, l)
  }

  /** A body never jumps to a label of another body, to a synthetic label or to `ENTRY`. (Jumping only
      to its own, distinct labels is one way to meet this.) */
  ghost predicate JumpsStayHome(bodies: Bodies, tables: Tables) {
    forall k, l | 0 <= k < |bodies| && BodyJumpsTo(bodies[k], tables, l) ::
      && l != Entry
      && (forall j: nat :: l != Synthetic(j))
      && forall j | 0 <= j < |bodies| && j != k :: !HasLabel(bodies[j], l)
  }

  ghost predicate EndsControl(body: seq<Line>) {
    var r := CutRegions(body);
    !Falls(r[|r| - 1].code)
  }

  ghost predicate Separate(bodies: Bodies, tables: Tables) {
    JumpsStayHome(bodies, tables) && forall k | 0 <= k < |bodies| :: EndsControl(bodies[k])
  }

  // ----- the edges of the merged list -----

  lemma AllBodies(bodies: Bodies)
    ensures Offset(bodies, |bodies|) == |MergedBlocks(bodies)|
  {
    assert bodies[..|bodies|] == bodies;
  }

  /** Seen from inside the body, a targeted label resolves to the same region in both lists. */
  lemma SameResolution(bodies: Bodies, tables: Tables, k: nat, v: nat)
    requires Separate(bodies, tables) && k < |bodies| && 1 <= v < |CutRegions(bodies[k])|
    requires BodyJumpsTo(bodies[k], tables, CutRegions(bodies[k])[v].name)
    ensures LastWithLabel(MergedBlocks(bodies), Offset(bodies, k) + v) <==> LastWithLabel(CutRegions(bodies[k]), v)
  {
    hide Separate, BodyJumpsTo, CutRegions, MergedBlocks, Offset;
    RegionAt(bodies, k, v);
    if LastWithLabel(MergedBlocks(bodies), Offset(bodies, k) + v) {
      forall w | v < w < |CutRegions(bodies[k])|
        ensures CutRegions(bodies[k])[w].name != CutRegions(bodies[k])[v].name
      {
        RegionAt(bodies, k, w);
      }
    }
    if LastWithLabel(CutRegions(bodies[k]), v) {
      forall i | Offset(bodies, k) + v < i < |MergedBlocks(bodies)|
        ensures MergedBlocks(bodies)[i].name != MergedBlocks(bodies)[Offset(bodies, k) + v].name
      {
        LabelNotRepeated(bodies, tables, k, v, i);
      }
    }
  }

  lemma LabelNotRepeated(bodies: Bodies, tables: Tables, k: nat, v: nat, i: nat)
    requires Separate(bodies, tables) && k < |bodies| && 1 <= v < |CutRegions(bodies[k])|
    requires BodyJumpsTo(bodies[k], tables, CutRegions(bodies[k])[v].name)
    requires LastWithLabel(CutRegions(bodies[k]), v) && Offset(bodies, k) + v < i < |MergedBlocks(bodies)|
    ensures MergedBlocks(bodies)[i].name != CutRegions(bodies[k])[v].name
  {
    hide CutRegions, MergedBlocks, Offset;
    AllBodies(bodies);
    var j, w := Locate(bodies, |bodies|, i);
    RegionAt(bodies, j, w);
    if j != k && w > 0 { assert HasLabel(bodies[j], MergedBlocks(bodies)[i].name); }
  }

  lemma CodeJumps(bodies: Bodies, tables: Tables, k: nat, u: nat, l: Label)
    requires k < |bodies| && u < |CutRegions(bodies[k])| && JumpsTo(tables, CutRegions(bodies[k])[u].code, l)
    ensures BodyJumpsTo(bodies[k], tables, l)
  {}

  /** Within a body the edges are those of the body alone. */
  lemma EdgesWithin(bodies: Bodies, tables: Tables, k: nat, u: nat, v: nat)
    requires Separate(bodies, tables) && k < |bodies|
    requires u < |CutRegions(bodies[k])| && v < |CutRegions(bodies[k])|
    ensures IsSucc(MergedBlocks(bodies), tables, Offset(bodies, k) + u, Offset(bodies, k) + v)
       <==> IsSucc(CutRegions(bodies[k]), tables, u, v)
  {
    RegionAt(bodies, k, u);
    RegionAt(bodies, k, v);
    var b := CutRegions(bodies[k])[u].code;
    if v == 0 {
      if JumpsTo(tables, b, Synthetic(k)) { CodeJumps(bodies, tables, k, u, Synthetic(k)); }
      if JumpsTo(tables, b, Entry) { CodeJumps(bodies, tables, k, u, Entry); }
    } else if JumpsTo(tables, b, CutRegions(bodies[k])[v].name) {
      CodeJumps(bodies, tables, k, u, CutRegions(bodies[k])[v].name);
      SameResolution(bodies, tables, k, v);
    }
  }

  /** No edge leads from one body into another. */
  lemma NoEdgeAcross(bodies: Bodies, tables: Tables, j: nat, u: nat, k: nat, v: nat)
    requires Separate(bodies, tables) && j < |bodies| && k < |bodies| && j != k
    requires u < |CutRegions(bodies[j])| && v < |CutRegions(bodies[k])|
    ensures !IsSucc(MergedBlocks(bodies), tables, Offset(bodies, j) + u, Offset(bodies, k) + v)
  {
    RegionAt(bodies, j, u);
    RegionAt(bodies, k, v);
    assert EndsControl(bodies[j]);
    if j < k { OffsetsGrow(bodies, j, k); } else { OffsetsGrow(bodies, k, j); }
    var b := CutRegions(bodies[j])[u].code;
    var l := MergedBlocks(bodies)[Offset(bodies, k) + v].name;
    if JumpsTo(tables, b, l) {
      CodeJumps(bodies, tables, j, u, l);
      if v > 0 { assert HasLabel(bodies[k], l); }
    }
  }

  /** Only body 0's first region is entered from `ENTRY`, and nothing enters `ENTRY`. */
  lemma EntryEdges(bodies: Bodies, tables: Tables, k: nat, v: nat)
    requires Separate(bodies, tables) && k < |bodies| && v < |CutRegions(bodies[k])|
    ensures IsSucc(MergedBlocks(bodies), tables, 0, Offset(bodies, k) + v) <==> k == 0 && v == 0
  {
    EntryRegion(bodies);
    RegionAt(bodies, k, v);
    if k > 0 { OffsetsGrow(bodies, 0, k); }
  }

  lemma NothingEntersEntry(bodies: Bodies, tables: Tables, i: nat)
    requires Separate(bodies, tables)
    ensures !IsSucc(MergedBlocks(bodies), tables, i, 0)
  {
    EntryRegion(bodies);
    if 1 <= i < |MergedBlocks(bodies)| {
      assert bodies[..|bodies|] == bodies;
      var k, u := Locate(bodies, |bodies|, i);
      RegionAt(bodies, k, u);
      if JumpsTo(tables, CutRegions(bodies[k])[u].code, Entry) { CodeJumps(bodies, tables, k, u, Entry); }
    }
  }

  lemma NothingEntersOwnEntry(bodies: Bodies, tables: Tables, k: nat, u: nat)
    requires Separate(bodies, tables) && k < |bodies|
    ensures !IsSucc(CutRegions(bodies[k]), tables, u, 0)
  {
    var r := CutRegions(bodies[k]);
    if u < |r| && JumpsTo(tables, r[u].code, Entry) { CodeJumps(bodies, tables, k, u, Entry); }
  }

  lemma OffsetFits(bodies: Bodies, k: nat)
    requires k < |bodies|
    ensures 1 <= Offset(bodies, k) && Offset(bodies, k) + |CutRegions(bodies[k])| <= |MergedBlocks(bodies)|
  {
    EntryRegion(bodies);
    MergedStep(bodies, k);
    MergedPrefix(bodies, k + 1);
    if k > 0 { OffsetsGrow(bodies, 0, k); }
  }

  lemma GraphClosed(blocks: seq<Block>, tables: Tables)
    requires |blocks| > 0
    ensures Closed(GraphOf(blocks, tables))
  {}

  ghost function BodyGraph(bodies: Bodies, tables: Tables, k: nat): Preds
    requires k < |bodies|
  {
    GraphOf(CutRegions(bodies[k]), tables)
  }

  ghost function MergedGraph(bodies: Bodies, tables: Tables): Preds {
    GraphOf(MergedBlocks(bodies), tables)
  }

  /** Each body's region graph sits in the merged graph. */
  lemma BodyEmbeds(bodies: Bodies, tables: Tables, k: nat)
    requires Separate(bodies, tables) && k < |bodies|
    ensures Embeds(BodyGraph(bodies, tables, k), MergedGraph(bodies, tables), Offset(bodies, k))
    ensures |BodyGraph(bodies, tables, k)| == |CutRegions(bodies[k])|
  {
    hide IsSucc, Separate, CutRegions, MergedBlocks, Offset, GraphOf;
    var a, m := BodyGraph(bodies, tables, k), MergedGraph(bodies, tables);
    var off := Offset(bodies, k);
    OffsetFits(bodies, k);
    GraphClosed(CutRegions(bodies[k]), tables);
    GraphClosed(MergedBlocks(bodies), tables);
    forall u: nat ensures u !in a[0] { NothingEntersOwnEntry(bodies, tables, k, u); }
    forall u: nat ensures u !in m[0] { NothingEntersEntry(bodies, tables, u); }
    forall w, u: nat | off <= w < off + |a|
      ensures u in m[w] <==> (u >= off && u - off in a[w - off]) || (off == 1 && w == 1 && u == 0)
    {
      PredecessorsInCopy(bodies, tables, k, w - off, u);
    }
  }

  lemma PredecessorsInCopy(bodies: Bodies, tables: Tables, k: nat, v: nat, u: nat)
    requires Separate(bodies, tables) && k < |bodies| && v < |CutRegions(bodies[k])|
    ensures IsSucc(MergedBlocks(bodies), tables, u, Offset(bodies, k) + v)
       <==> (u >= Offset(bodies, k) && IsSucc(CutRegions(bodies[k]), tables, u - Offset(bodies, k), v))
            || (Offset(bodies, k) == 1 && v == 0 && u == 0)
  {
    hide IsSucc, Separate, CutRegions, MergedBlocks, Offset;
    EntryRegion(bodies);
    if k > 0 { OffsetsGrow(bodies, 0, k); }
    if u == 0 {
      EntryEdges(bodies, tables, k, v);
    } else if u < |MergedBlocks(bodies)| {
      AllBodies(bodies);
      var j, x := Locate(bodies, |bodies|, u);
      if j == k {
        EdgesWithin(bodies, tables, k, x, v);
      } else {
        NoEdgeAcross(bodies, tables, j, x, k, v);
        if j < k { OffsetsGrow(bodies, j, k); } else { OffsetsGrow(bodies, k, j); }
        OutOfRange(CutRegions(bodies[k]), tables, u - Offset(bodies, k), v);
      }
    } else {
      OutOfRange(MergedBlocks(bodies), tables, u, Offset(bodies, k) + v);
      OffsetFits(bodies, k);
      OutOfRange(CutRegions(bodies[k]), tables, u - Offset(bodies, k), v);
    }
  }

  lemma OutOfRange(blocks: seq<Block>, tables: Tables, u: int, v: nat)
    ensures u >= |blocks| ==> !IsSucc(blocks, tables, u, v)
  {}

  function Moved(s: set<nat>, off: nat): set<nat> {
    set x | x in s :: off + x
  }

  type LoopMap = map<nat, set<nat>>

  ghost predicate AllExact(bodies: Bodies, tables: Tables, parts: seq<LoopMap>) {
    |parts| == |bodies| && forall k | 0 <= k < |bodies| :: ExactLoops(BodyGraph(bodies, tables, k), parts[k])
  }

  /** Every loop of a body is a loop of the whole, moved to where its body starts ... */
  ghost predicate PartsMoved(bodies: Bodies, loops: LoopMap, parts: seq<LoopMap>) {
    |parts| == |bodies| && forall k: nat, h: nat | k < |bodies| && h in parts[k] ::
      IsMovedLoop(loops, parts[k], Offset(bodies, k), h)
  }

  ghost predicate IsMovedLoop(loops: LoopMap, part: LoopMap, off: nat, h: nat) {
    h in part && off + h in loops && loops[off + h] == Moved(part[h], off)
  }

  /** ... there are no others ... */
  ghost predicate OnlyParts(bodies: Bodies, loops: LoopMap, parts: seq<LoopMap>) {
    |parts| == |bodies| && forall i: nat | i in loops ::
      exists k: nat, h: nat :: k < |bodies| && h in parts[k] && i == Offset(bodies, k) + h
  }

  /** ... and loops of different bodies share no block. */
  ghost predicate PartsApart(bodies: Bodies, parts: seq<LoopMap>) {
    |parts| == |bodies| && forall j: nat, g: nat, k: nat, h: nat | j < k < |bodies| && g in parts[j] && h in parts[k] ::
      Moved(parts[j][g], Offset(bodies, j)) !! Moved(parts[k][h], Offset(bodies, k))
  }

  /** The loops of the merged list are the disjoint union of the loops of the bodies. */
  lemma MergedLoops(bodies: Bodies, tables: Tables, loops: LoopMap, parts: seq<LoopMap>)
    requires Separate(bodies, tables) && AllExact(bodies, tables, parts)
    requires ExactLoops(MergedGraph(bodies, tables), loops)
    ensures PartsMoved(bodies, loops, parts) && OnlyParts(bodies, loops, parts) && PartsApart(bodies, parts)
  {
    hide Separate, ExactLoops, BodyGraph, MergedGraph, Offset, IsMovedLoop, Moved;
    forall k: nat, h: nat | k < |bodies| && h in parts[k] ensures IsMovedLoop(loops, parts[k], Offset(bodies, k), h) {
      BodyLoop(bodies, tables, loops, parts[k], k, h);
    }
    forall i: nat | i in loops
      ensures exists k: nat, h: nat :: k < |bodies| && h in parts[k] && i == Offset(bodies, k) + h
    {
      var k, h := OwnerOfLoop(bodies, tables, loops, parts, i);
    }
    forall j: nat, g: nat, k: nat, h: nat | j < k < |bodies| && g in parts[j] && h in parts[k]
      ensures Moved(parts[j][g], Offset(bodies, j)) !! Moved(parts[k][h], Offset(bodies, k))
    {
      PartsDisjoint(bodies, tables, parts, j, g, k, h);
    }
  }

  lemma BodyLoop(bodies: Bodies, tables: Tables, loops: LoopMap, part: LoopMap, k: nat, h: nat)
    requires Separate(bodies, tables) && k < |bodies| && h in part
    requires ExactLoops(MergedGraph(bodies, tables), loops)
    requires ExactLoops(BodyGraph(bodies, tables, k), part)
    ensures IsMovedLoop(loops, part, Offset(bodies, k), h)
  {
    hide Separate, BodyGraph, MergedGraph, Offset, Embeds, Header, Member;
    var a, m := BodyGraph(bodies, tables, k), MergedGraph(bodies, tables);
    var off := Offset(bodies, k);
    BodyEmbeds(bodies, tables, k);
    HeaderInRange(a, h);
    HeaderShift(a, m, off, h);
    forall y: nat ensures y in loops[off + h] <==> y in Moved(part[h], off) {
      MemberShift(a, m, off, h, y);
      if y >= off && y - off in part[h] { assert off + (y - off) == y; }
    }
  }

  lemma HeaderInRange(pred: Preds, h: nat)
    requires Header(pred, h)
    ensures h < |pred|
  {}

  lemma MembersInRange(pred: Preds, h: nat, x: nat)
    requires Header(pred, h) && Member(pred, h, x)
    ensures x < |pred|
  {}

  lemma EntryIsNoHeader(bodies: Bodies, tables: Tables)
    requires Separate(bodies, tables)
    ensures !Header(MergedGraph(bodies, tables), 0)
  {
    hide Separate, IsSucc;
    var m := MergedGraph(bodies, tables);
    forall u ensures !BackEdge(m, u, 0) {
      NothingEntersEntry(bodies, tables, u);
    }
  }

  lemma OwnerOfLoop(bodies: Bodies, tables: Tables, loops: LoopMap, parts: seq<LoopMap>, i: nat)
    returns (k: nat, h: nat)
    requires Separate(bodies, tables) && AllExact(bodies, tables, parts) && i in loops
    requires ExactLoops(MergedGraph(bodies, tables), loops)
    ensures k < |bodies| && h in parts[k] && i == Offset(bodies, k) + h
  {
    hide Separate, Embeds, Header, Member, BodyGraph;
    var m := MergedGraph(bodies, tables);
    HeaderInRange(m, i);
    EntryIsNoHeader(bodies, tables);
    assert bodies[..|bodies|] == bodies;
    k, h := Locate(bodies, |bodies|, i);
    BodyEmbeds(bodies, tables, k);
    HeaderShift(BodyGraph(bodies, tables, k), m, Offset(bodies, k), h);
  }

  lemma PartsDisjoint(bodies: Bodies, tables: Tables, parts: seq<LoopMap>, j: nat, g: nat, k: nat, h: nat)
    requires AllExact(bodies, tables, parts) && j < k < |bodies| && g in parts[j] && h in parts[k]
    ensures Moved(parts[j][g], Offset(bodies, j)) !! Moved(parts[k][h], Offset(bodies, k))
  {
    OffsetsGrow(bodies, j, k);
    forall x | x in parts[j][g] ensures x < |CutRegions(bodies[j])| {
      MembersInRange(BodyGraph(bodies, tables, j), g, x);
    }
  }
}
