/** Cutting an instruction list into regions and building the edges between them
    (tools/asmcensus/cfg.py, `blocks_of`, `cfg`, and `natural_loops` from its start). */
module Regions {
  import opened Asm
  import opened Dominance
  import opened Loops

  // ----- blocks_of -----

  function CutRegions(ins: seq<Line>): (r: seq<Block>)
    ensures |r| > 0 && r[0].name == Entry
  {
    if ins == [] then [Block(Entry, [])] else
      AddLine(CutRegions(ins[..|ins| - 1]), ins[|ins| - 1])
  }

  function AddLine(r: seq<Block>, t: Line): (q: seq<Block>)
    requires |r| > 0
    ensures |q| > 0 && q[0].name == r[0].name
  {
    match t
    case LabelLine(l) => r + [Block(l, [])]
    case Code(i) => AddCode(r, [i])
  }

  /** More instructions for the last region. */
  function AddCode(r: seq<Block>, c: seq<Instr>): (q: seq<Block>)
    requires |r| > 0
    ensures |q| == |r| && q[..|r| - 1] == r[..|r| - 1] && q[|r| - 1].name == r[|r| - 1].name
    ensures q[0].name == r[0].name
  {
    var n := |r| - 1;
    r[..n] + [Block(r[n].name, r[n].code + c)]
  }

  function CodeLines(b: seq<Instr>): seq<Line> {
    seq(|b|, i requires 0 <= i < |b| => Code(b[i]))
  }

  /** A region's own lines. The first region has no label line. */
  function RegionLines(first: bool, b: Block): seq<Line> {
    (if first then [] else [LabelLine(b.name)]) + CodeLines(b.code)
  }

  /** The lines a region list stands for. */
  function Unparse(blocks: seq<Block>): seq<Line> {
    if blocks == [] then [] else
      var n := |blocks| - 1;
      Unparse(blocks[..n]) + RegionLines(n == 0, blocks[n])
  }

  method BlocksOf(ins: seq<Line>) returns (blocks: seq<Block>)
    ensures blocks == CutRegions(ins)
  {
    hide CutRegions;
    CutNothing();
    blocks := [];
    var lab, curb := Entry, [];
    for k := 0 to |ins|
      invariant blocks + [Block(lab, curb)] == CutRegions(ins[..k])
    {
      CutOneMore(ins[..k], ins[k]);
      assert ins[..k + 1] == ins[..k] + [ins[k]];
      match ins[k]
      case LabelLine(l) =>
        blocks := blocks + [Block(lab, curb)];
        lab, curb := l, [];
      case Code(i) =>
        assert (blocks + [Block(lab, curb)])[..|blocks|] == blocks;
        curb := curb + [i];
    }
    assert ins[..|ins|] == ins;
    blocks := blocks + [Block(lab, curb)];
  }

  lemma CodeLinesSnoc(c: seq<Instr>, i: Instr)
    ensures CodeLines(c + [i]) == CodeLines(c) + [Code(i)]
  {}

  lemma UnparseSnoc(r: seq<Block>, b: Block)
    ensures Unparse(r + [b]) == Unparse(r) + RegionLines(r == [], b)
  {
    assert (r + [b])[..|r|] == r;
  }

  lemma RegionLinesSnoc(first: bool, b: Block, i: Instr)
    ensures RegionLines(first, Block(b.name, b.code + [i])) == RegionLines(first, b) + [Code(i)]
  {
    CodeLinesSnoc(b.code, i);
  }

  lemma AddCodeSplit(r: seq<Block>, c: seq<Instr>)
    requires |r| > 0
    ensures var m := |r| - 1;
            r == r[..m] + [r[m]] && AddCode(r, c) == r[..m] + [Block(r[m].name, r[m].code + c)]
  {}

  lemma UnparseAddCode(r: seq<Block>, i: Instr)
    requires |r| > 0
    ensures Unparse(AddCode(r, [i])) == Unparse(r) + [Code(i)]
  {
    hide Unparse, RegionLines, AddCode;
    var m := |r| - 1;
    var front, b := r[..m], r[m];
    var longer := Block(b.name, b.code + [i]);
    AddCodeSplit(r, [i]);
    UnparseSnoc(front, b);
    UnparseSnoc(front, longer);
    RegionLinesSnoc(front == [], b, i);
    ConcatAssoc(Unparse(front), RegionLines(front == [], b), [Code(i)]);
  }

  lemma UnparseAddLine(r: seq<Block>, t: Line)
    requires |r| > 0
    ensures Unparse(AddLine(r, t)) == Unparse(r) + [t]
  {
    hide Unparse, RegionLines, AddCode;
    match t
    case LabelLine(l) =>
      UnparseSnoc(r, Block(l, []));
      FreshRegionLines(l);
    case Code(i) =>
      UnparseAddCode(r, i);
  }

  lemma FreshRegionLines(l: Label)
    ensures RegionLines(false, Block(l, [])) == [LabelLine(l)]
  {}

  /** The regions spell the list they were cut from. */
  lemma {:induction false} CutThenUnparse(ins: seq<Line>)
    ensures Unparse(CutRegions(ins)) == ins
  {
    hide AddLine, Unparse;
    if ins == [] {
      UnparseEntry();
    } else {
      var n := |ins| - 1;
      CutThenUnparse(ins[..n]);
      UnparseAddLine(CutRegions(ins[..n]), ins[n]);
      assert ins == ins[..n] + [ins[n]];
    }
  }

  lemma UnparseEntry()
    ensures Unparse([Block(Entry, [])]) == []
  {}

  lemma AddCodeTwice(r: seq<Block>, c: seq<Instr>, d: seq<Instr>)
    requires |r| > 0
    ensures AddCode(AddCode(r, c), d) == AddCode(r, c + d)
  {
    var n := |r| - 1;
    assert r[n].code + c + d == r[n].code + (c + d);
  }

  lemma AddCodeToEmpty(r: seq<Block>, l: Label, c: seq<Instr>)
    ensures AddCode(r + [Block(l, [])], c) == r + [Block(l, c)]
  {
    assert (r + [Block(l, [])])[..|r|] == r && [] + c == c;
  }

  lemma CutOneMore(ins: seq<Line>, t: Line)
    ensures CutRegions(ins + [t]) == AddLine(CutRegions(ins), t)
  {
    assert (ins + [t])[..|ins|] == ins;
  }

  lemma AddNoCode(r: seq<Block>)
    requires |r| > 0
    ensures AddCode(r, []) == r
  {
    assert r[|r| - 1].code + [] == r[|r| - 1].code;
  }

  lemma {:induction false} AppendCode(ins: seq<Line>, c: seq<Instr>)
    ensures CutRegions(ins + CodeLines(c)) == AddCode(CutRegions(ins), c)
  {
    hide CutRegions, AddCode;
    if c == [] {
      AddNoCode(CutRegions(ins));
      assert ins + CodeLines(c) == ins;
    } else {
      var n := |c| - 1;
      var front := ins + CodeLines(c[..n]);
      AppendCode(ins, c[..n]);
      CutOneMore(front, Code(c[n]));
      AddCodeTwice(CutRegions(ins), c[..n], [c[n]]);
      assert c == c[..n] + [c[n]];
      CodeLinesSnoc(c[..n], c[n]);
      assert ins + CodeLines(c) == front + [Code(c[n])];
    }
  }

  lemma CutRegion(front: seq<Line>, l: Label, c: seq<Instr>)
    ensures CutRegions(front + [LabelLine(l)] + CodeLines(c)) == CutRegions(front) + [Block(l, c)]
  {
    hide CutRegions, AddCode, CodeLines;
    CutOneMore(front, LabelLine(l));
    AppendCode(front + [LabelLine(l)], c);
    AddCodeToEmpty(CutRegions(front), l, c);
  }

  lemma CutNothing()
    ensures CutRegions([]) == [Block(Entry, [])]
  {}

  lemma UnparseOne(b: Block)
    ensures Unparse([b]) == [] + CodeLines(b.code)
  {
    UnparseSnoc([], b);
    assert [] + [b] == [b];
  }

  lemma CutOnlyRegion(b: Block)
    requires b.name == Entry
    ensures CutRegions(Unparse([b])) == [b]
  {
    hide CutRegions, AddCode, Unparse, CodeLines;
    UnparseOne(b);
    CutNothing();
    AppendCode([], b.code);
    AddCodeToEmpty([], Entry, b.code);
    assert [] + [Block(Entry, [])] == [Block(Entry, [])] && [] + [Block(Entry, b.code)] == [b];
  }

  lemma CutLastRegion(front: seq<Block>, b: Block)
    requires front != [] && CutRegions(Unparse(front)) == front
    ensures CutRegions(Unparse(front + [b])) == front + [b]
  {
    hide CutRegions, Unparse, CodeLines;
    UnparseSnoc(front, b);
    ConcatAssoc(Unparse(front), [LabelLine(b.name)], CodeLines(b.code));
    CutRegion(Unparse(front), b.name, b.code);
  }

  /** Cutting inverts `Unparse`, so the regions are the only ones that spell the list. */
  lemma {:induction false} UnparseThenCut(blocks: seq<Block>)
    requires |blocks| > 0 && blocks[0].name == Entry
    ensures CutRegions(Unparse(blocks)) == blocks
  {
    hide CutRegions, Unparse;
    var n := |blocks| - 1;
    assert blocks == blocks[..n] + [blocks[n]];
    if n == 0 {
      CutOnlyRegion(blocks[0]);
      assert blocks == [blocks[0]];
    } else {
      UnparseThenCut(blocks[..n]);
      CutLastRegion(blocks[..n], blocks[n]);
    }
  }

  // ----- cfg -----

  type Tables = map<nat, seq<Label>>

  /** Scanning back over at most eight instructions from an indirect jump, `t` is met first. */
  ghost predicate TableAt(b: seq<Instr>, j: nat, t: nat) {
    exists k :: j - 8 <= k < j <= |b| && 0 <= k && b[k].table == Some(t) && forall m | k < m < j :: b[m].table.None?
  }

  ghost predicate JumpsTo(tables: Tables, b: seq<Instr>, l: Label) {
    exists j :: 0 <= j < |b| && InstrJumpsTo(tables, b, j, l)
  }

  ghost predicate InstrJumpsTo(tables: Tables, b: seq<Instr>, j: nat, l: Label)
    requires j < |b|
  {
    || Targets(b[j], l)
    || (b[j].kind.Indirect? && exists t :: TableAt(b, j, t) && t in tables && l in tables[t])
  }

  /** `idx` keeps the last region of a repeated label. */
  ghost predicate LastWithLabel(blocks: seq<Block>, v: nat) {
    v < |blocks| && forall w | v < w < |blocks| :: blocks[w].name != blocks[v].name
  }

  ghost predicate IsSucc(blocks: seq<Block>, tables: Tables, u: nat, v: nat) {
    && u < |blocks| && v < |blocks|
    && ((Falls(blocks[u].code) && v == u + 1)
        || (LastWithLabel(blocks, v) && JumpsTo(tables, blocks[u].code, blocks[v].name)))
  }

  ghost function GraphOf(blocks: seq<Block>, tables: Tables): (pred: Preds)
    ensures |pred| == |blocks|
    ensures forall v, u: nat | 0 <= v < |pred| :: u in pred[v] <==> IsSucc(blocks, tables, u, v)
  {
    seq(|blocks|, v requires 0 <= v < |blocks| => set u | u in Below(|blocks|) && IsSucc(blocks, tables, u, v))
  }

  method IndexOf(blocks: seq<Block>) returns (idx: map<Label, nat>)
    ensures forall l :: l in idx <==> exists v: nat :: v < |blocks| && blocks[v].name == l
    ensures forall l | l in idx :: LastWithLabel(blocks, idx[l]) && blocks[idx[l]].name == l
  {
    idx := map[];
    for i := 0 to |blocks|
      invariant forall l :: l in idx <==> exists v: nat :: v < i && blocks[v].name == l
      invariant forall l | l in idx ::
                  idx[l] < i && blocks[idx[l]].name == l && forall w | idx[l] < w < i :: blocks[w].name != l
    {
      idx := idx[blocks[i].name := i];
    }
  }

  method NearestTable(b: seq<Instr>, j: nat) returns (tbl: Option<nat>)
    requires j <= |b|
    ensures forall t: nat :: tbl == Some(t) <==> TableAt(b, j, t)
  {
    var k := j;
    while k > 0 && k > j - 8
      invariant 0 <= k <= j && k >= j - 8
      invariant forall m | k <= m < j :: b[m].table.None?
    {
      k := k - 1;
      if b[k].table.Some? {
        return b[k].table;
      }
    }
    return None;
  }

  ghost predicate Indexed(blocks: seq<Block>, idx: map<Label, nat>) {
    && (forall l :: l in idx <==> exists v: nat :: v < |blocks| && blocks[v].name == l)
    && (forall l | l in idx :: LastWithLabel(blocks, idx[l]) && blocks[idx[l]].name == l)
  }

  /** The regions named by a list of labels. */
  method Resolve(blocks: seq<Block>, idx: map<Label, nat>, targets: seq<Label>) returns (s: set<nat>)
    requires Indexed(blocks, idx)
    ensures forall v: nat :: v in s <==> LastWithLabel(blocks, v) && blocks[v].name in targets
  {
    s := {};
    for k := 0 to |targets|
      invariant forall v: nat :: v in s <==> LastWithLabel(blocks, v) && blocks[v].name in targets[..k]
    {
      assert targets[..k + 1] == targets[..k] + [targets[k]];
      if targets[k] in idx {
        s := s + {idx[targets[k]]};
      }
    }
    assert targets[..|targets|] == targets;
  }

  /** The regions that the instruction at `j` of `b` can jump to. */
  method JumpTargets(blocks: seq<Block>, tables: Tables, idx: map<Label, nat>, b: seq<Instr>, j: nat)
    returns (s: set<nat>)
    requires Indexed(blocks, idx) && j < |b|
    ensures forall v: nat :: v in s <==> LastWithLabel(blocks, v) && InstrJumpsTo(tables, b, j, blocks[v].name)
  {
    hide Indexed, LastWithLabel, TableAt;
    var targets := [];
    if b[j].kind.Branch? {
      targets := [b[j].kind.target];
    } else if b[j].kind.Indirect? {
      var tbl := NearestTable(b, j);
      if tbl.Some? && tbl.value in tables {
        targets := tables[tbl.value];
      }
    }
    assert forall l :: l in targets <==> InstrJumpsTo(tables, b, j, l);
    s := Resolve(blocks, idx, targets);
  }

  /** The edges out of one region. */
  method Successors(blocks: seq<Block>, tables: Tables, idx: map<Label, nat>, i: nat) returns (s: set<nat>)
    requires Indexed(blocks, idx) && i < |blocks|
    ensures forall v: nat :: v in s <==> IsSucc(blocks, tables, i, v)
  {
    var b := blocks[i].code;
    s := {};
    for j := 0 to |b|
      invariant forall v: nat :: v in s <==>
                  LastWithLabel(blocks, v) && exists k :: 0 <= k < j && InstrJumpsTo(tables, b, k, blocks[v].name)
    {
      var t := JumpTargets(blocks, tables, idx, b, j);
      s := s + t;
    }
    if Falls(b) && i + 1 < |blocks| {
      s := s + {i + 1};
    }
  }

  /** `pred` mirrors the edges out of the regions below `n`, and those from `n` into `some`. */
  ghost predicate MirrorBelow(succ: seq<set<nat>>, pred: Preds, n: nat, some: set<nat>) {
    && |pred| == |succ|
    && (forall v: nat, w: nat {:trigger w in pred[v]} | v < |pred| && w in pred[v] ::
          w < |succ| && v in succ[w] && (w < n || (w == n && v in some)))
    && (forall w: nat, v: nat {:trigger v in succ[w]} | w < n && w < |succ| && v in succ[w] ::
          v < |pred| && w in pred[v])
    && (forall v: nat | v in some :: v < |pred| && n in pred[v])
  }

  /** The predecessor sets, filled in edge by edge. */
  method Invert(succ: seq<set<nat>>) returns (pred: Preds)
    requires forall u: nat, v: nat | u < |succ| && v in succ[u] :: v < |succ|
    ensures Mirror(succ, pred)
  {
    pred := seq(|succ|, _ => {});
    for u := 0 to |succ|
      invariant MirrorBelow(succ, pred, u, {})
    {
      var todo := succ[u];
      while todo != {}
        invariant todo <= succ[u] && MirrorBelow(succ, pred, u, succ[u] - todo)
      {
        var v :| v in todo;
        todo := todo - {v};
        pred := pred[v := pred[v] + {u}];
      }
      assert succ[u] - todo == succ[u];
    }
  }

  method Cfg(blocks: seq<Block>, tables: Tables) returns (succ: seq<set<nat>>, pred: Preds)
    ensures |succ| == |blocks|
    ensures forall u: nat, v: nat | u < |succ| :: v in succ[u] <==> IsSucc(blocks, tables, u, v)
    ensures Mirror(succ, pred) && pred == GraphOf(blocks, tables)
  {
    var idx := IndexOf(blocks);
    succ := [];
    for i := 0 to |blocks|
      invariant |succ| == i
      invariant forall u: nat, v: nat | u < i :: v in succ[u] <==> IsSucc(blocks, tables, u, v)
    {
      var s := Successors(blocks, tables, idx, i);
      succ := succ + [s];
    }
    pred := Invert(succ);
    SamePreds(blocks, tables, succ, pred);
  }

  lemma SamePreds(blocks: seq<Block>, tables: Tables, succ: seq<set<nat>>, pred: Preds)
    requires |succ| == |blocks| && Mirror(succ, pred)
    requires forall u: nat, v: nat | u < |succ| :: v in succ[u] <==> IsSucc(blocks, tables, u, v)
    ensures pred == GraphOf(blocks, tables)
  {
    var g := GraphOf(blocks, tables);
    forall v: nat | v < |g| ensures pred[v] == g[v] {
      forall u: nat | u in pred[v] ensures u in g[v] {
        assert v in succ[u] && IsSucc(blocks, tables, u, v);
      }
      forall u: nat | u in g[v] ensures u in pred[v] {
        assert IsSucc(blocks, tables, u, v);
        assert v in succ[u];
      }
    }
  }

  /** `natural_loops` as called by every tool. */
  method LoopsOf(blocks: seq<Block>, tables: Tables) returns (loops: map<nat, set<nat>>)
    requires |blocks| > 0
    ensures ExactLoops(GraphOf(blocks, tables), loops)
  {
    var succ, pred := Cfg(blocks, tables);
    loops := NaturalLoops(succ, pred);
  }
}
