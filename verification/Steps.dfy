/** The edges of `cfg` (tools/asmcensus/cfg.py) against single steps through the listing: region `u` has an edge
    to region `v` if and only if some line of `u` can step to the label of `v`. */
module Steps {
  import opened Asm
  import opened Regions

  // ----- steps through a listing -----

  /** The listing with the label of its first region written out. */
  function Flat(ins: seq<Line>): seq<Line> {
    [LabelLine(Entry)] + ins
  }

  /** Of several lines with one label, jumps go to the last. */
  ghost predicate LastLabel(flat: seq<Line>, l: Label, k: nat) {
    k < |flat| && flat[k] == LabelLine(l) && forall m | k < m < |flat| :: flat[m] != LabelLine(l)
  }

  /** The jump table mentioned last before line `i`, at most eight instructions back and behind the same label. */
  ghost predicate TableBefore(flat: seq<Line>, i: nat, t: nat) {
    exists k: nat :: TableLine(flat, i, k, t)
  }

  ghost predicate TableLine(flat: seq<Line>, i: nat, k: nat, t: nat) {
    && i - 8 <= k < i <= |flat| && flat[k].Code? && flat[k].instr.table == Some(t)
    && forall m | k < m < i :: flat[m].Code? && flat[m].instr.table.None?
  }

  ghost predicate TableHolds(flat: seq<Line>, tables: Tables, i: nat, l: Label) {
    exists t: nat :: TableBefore(flat, i, t) && t in tables && l in tables[t]
  }

  /** Control can go from line `i` to line `k` next. */
  ghost predicate Step(flat: seq<Line>, tables: Tables, i: nat, k: nat) {
    i < |flat| && k < |flat| &&
      match flat[i]
      case LabelLine(_) => k == i + 1
      case Code(t) =>
        match t.kind
        case Plain => k == i + 1
        case Branch(l, always) => LastLabel(flat, l, k) || (!always && k == i + 1)
        case Indirect => exists l :: TableHolds(flat, tables, i, l) && LastLabel(flat, l, k)
        case TailJump => false
        case Ret => false
        case Ud2 => false
  }

  /** Regions are counted by their labels. */
  ghost function RegionOf(flat: seq<Line>, i: nat): int
    requires i < |flat|
  {
    |set j | 0 <= j <= i && flat[j].LabelLine?| - 1
  }

  ghost predicate StepsInto(flat: seq<Line>, tables: Tables, u: nat, v: nat) {
    exists i: nat, k: nat :: i < |flat| && Step(flat, tables, i, k) && RegionOf(flat, i) == u && Enters(flat, k, v)
  }

  ghost predicate Enters(flat: seq<Line>, k: nat, v: nat) {
    k < |flat| && flat[k].LabelLine? && RegionOf(flat, k) == v
  }

  // ----- where the regions stand -----

  /** Region `u` stands at `s[u]`, its label first. */
  ghost predicate Stand(flat: seq<Line>, blocks: seq<Block>, s: seq<nat>) {
    && |s| == |blocks| > 0 && s[0] == 0
    && (forall u | 0 <= u < |s| :: StandsAt(flat, blocks[u], s[u]))
    && (forall u, v | 0 <= u && v == u + 1 && v < |s| :: s[v] == s[u] + 1 + |blocks[u].code|)
    && s[|s| - 1] + 1 + |blocks[|s| - 1].code| == |flat|
  }

  ghost predicate StandsAt(flat: seq<Line>, b: Block, i: nat) {
    && i + 1 + |b.code| <= |flat| && flat[i] == LabelLine(b.name)
    && forall j | 0 <= j < |b.code| :: flat[i + 1 + j] == Code(b.code[j])
  }

  lemma {:induction false} Starts(ins: seq<Line>) returns (s: seq<nat>)
    ensures Stand(Flat(ins), CutRegions(ins), s)
  {
    hide Stand, CutRegions, AddLine;
    if ins == [] {
      CutNothing();
      s := [0];
      EntryStands();
    } else {
      var n := |ins| - 1;
      var front, t := ins[..n], ins[n];
      s := Starts(front);
      assert ins == front + [t] && Flat(ins) == Flat(front) + [t];
      CutOneMore(front, t);
      OneMoreLine(Flat(front), CutRegions(front), s, t);
      if t.LabelLine? { s := s + [|Flat(front)|]; }
    }
  }

  lemma EntryStands()
    ensures Stand(Flat([]), [Block(Entry, [])], [0])
  {
    assert StandsAt(Flat([]), Block(Entry, []), 0);
  }

  lemma OneMoreLine(flat: seq<Line>, r: seq<Block>, s: seq<nat>, t: Line)
    requires Stand(flat, r, s)
    ensures Stand(flat + [t], AddLine(r, t), if t.LabelLine? then s + [|flat|] else s)
  {
    var q := AddLine(r, t);
    var s' := if t.LabelLine? then s + [|flat|] else s;
    forall u | 0 <= u < |s'| ensures StandsAt(flat + [t], q[u], s'[u]) {
      if u < |s| { assert StandsAt(flat, r[u], s[u]); }
    }
    forall u, v | 0 <= u && v == u + 1 && v < |s'| ensures s'[v] == s'[u] + 1 + |q[u].code| {
      if v < |s| { assert s[v] == s[u] + 1 + |r[u].code|; }
    }
  }

  /** Line `i` is line `m` of region `u`, its label line 0. */
  lemma Locate(flat: seq<Line>, blocks: seq<Block>, s: seq<nat>, i: nat) returns (u: nat, m: nat)
    requires Stand(flat, blocks, s) && i < |flat|
    ensures u < |s| && m <= |blocks[u].code| && i == s[u] + m
  {
    u := |s| - 1;
    while s[u] > i
      invariant u < |s| && i < s[u] + 1 + |blocks[u].code|
      decreases u
    {
      assert s[u] == s[u - 1] + 1 + |blocks[u - 1].code|;
      u := u - 1;
    }
    m := i - s[u];
  }

  lemma {:induction false} RegionAt(flat: seq<Line>, blocks: seq<Block>, s: seq<nat>, u: nat, m: nat)
    requires Stand(flat, blocks, s) && u < |s| && m <= |blocks[u].code|
    ensures s[u] + m < |flat| && RegionOf(flat, s[u] + m) == u
    decreases u, m
  {
    hide RegionOf;
    LineKind(flat, blocks, s, u, m);
    if u == 0 && m == 0 {
      RegionFirst(flat);
    } else {
      if m > 0 {
        RegionAt(flat, blocks, s, u, m - 1);
      } else {
        assert s[u] == s[u - 1] + 1 + |blocks[u - 1].code|;
        RegionAt(flat, blocks, s, u - 1, |blocks[u - 1].code|);
      }
      RegionNext(flat, s[u] + m);
    }
  }

  lemma LineKind(flat: seq<Line>, blocks: seq<Block>, s: seq<nat>, u: nat, m: nat)
    requires Stand(flat, blocks, s) && u < |s| && m <= |blocks[u].code|
    ensures s[u] + m < |flat| && (flat[s[u] + m].LabelLine? <==> m == 0)
    ensures m == 0 ==> flat[s[u]] == LabelLine(blocks[u].name)
    ensures m > 0 ==> flat[s[u] + m] == Code(blocks[u].code[m - 1])
  {
    assert StandsAt(flat, blocks[u], s[u]);
    if m > 0 { assert flat[s[u] + 1 + (m - 1)] == Code(blocks[u].code[m - 1]); }
  }

  lemma RegionFirst(flat: seq<Line>)
    requires |flat| > 0 && flat[0].LabelLine?
    ensures RegionOf(flat, 0) == 0
  {
    assert (set j | 0 <= j <= 0 && flat[j].LabelLine?) == {0};
  }

  lemma RegionNext(flat: seq<Line>, i: nat)
    requires 0 < i < |flat|
    ensures RegionOf(flat, i) == RegionOf(flat, i - 1) + if flat[i].LabelLine? then 1 else 0
  {
    var labels := set j | 0 <= j <= i && flat[j].LabelLine?;
    var before := set j | 0 <= j <= i - 1 && flat[j].LabelLine?;
    assert labels == before + if flat[i].LabelLine? then {i} else {};
  }

  lemma LabelsAreStarts(flat: seq<Line>, blocks: seq<Block>, s: seq<nat>, k: nat) returns (v: nat)
    requires Stand(flat, blocks, s) && k < |flat| && flat[k].LabelLine?
    ensures v < |s| && k == s[v] && flat[k] == LabelLine(blocks[v].name)
  {
    var m;
    v, m := Locate(flat, blocks, s, k);
    LineKind(flat, blocks, s, v, m);
  }

  lemma {:induction false} StartsRise(flat: seq<Line>, blocks: seq<Block>, s: seq<nat>, u: nat, v: nat)
    requires Stand(flat, blocks, s) && u < v < |s|
    ensures s[u] < s[v]
    decreases v
  {
    assert s[v] == s[v - 1] + 1 + |blocks[v - 1].code|;
    if u < v - 1 { StartsRise(flat, blocks, s, u, v - 1); }
  }

  lemma LastLabelIff(flat: seq<Line>, blocks: seq<Block>, s: seq<nat>, v: nat, l: Label)
    requires Stand(flat, blocks, s) && v < |s|
    ensures LastLabel(flat, l, s[v]) <==> blocks[v].name == l && LastWithLabel(blocks, v)
  {
    assert StandsAt(flat, blocks[v], s[v]);
    if blocks[v].name == l && LastWithLabel(blocks, v) {
      forall m | s[v] < m < |flat| ensures flat[m] != LabelLine(l) {
        if flat[m] == LabelLine(l) {
          var w := LabelsAreStarts(flat, blocks, s, m);
          if w < v { StartsRise(flat, blocks, s, w, v); }
        }
      }
    }
    if LastLabel(flat, l, s[v]) {
      forall w | v < w < |blocks| ensures blocks[w].name != blocks[v].name {
        StartsRise(flat, blocks, s, v, w);
        assert StandsAt(flat, blocks[w], s[w]);
      }
    }
  }

  lemma TableIff(flat: seq<Line>, b: Block, i: nat, j: nat, t: nat)
    requires StandsAt(flat, b, i) && j < |b.code|
    ensures TableBefore(flat, i + 1 + j, t) <==> TableAt(b.code, j, t)
  {
    var at := i + 1 + j;
    if k :| j - 8 <= k < j && 0 <= k && b.code[k].table == Some(t) && forall m | k < m < j :: b.code[m].table.None? {
      forall m | i + 1 + k < m < i + 1 + j ensures flat[m].Code? && flat[m].instr.table.None? {
        assert flat[i + 1 + (m - i - 1)] == Code(b.code[m - i - 1]);
      }
      assert flat[i + 1 + k] == Code(b.code[k]);
      assert TableLine(flat, at, i + 1 + k, t);
    }
    if k: nat :| TableLine(flat, at, k, t) {
      assert flat[i].LabelLine? && k > i;
      assert flat[i + 1 + (k - i - 1)] == Code(b.code[k - i - 1]);
      forall m | k - i - 1 < m < j ensures b.code[m].table.None? { assert flat[i + 1 + m] == Code(b.code[m]); }
    }
  }

  lemma TableHoldsIff(flat: seq<Line>, b: Block, i: nat, tables: Tables, j: nat, l: Label)
    requires StandsAt(flat, b, i) && j < |b.code| && b.code[j].kind.Indirect?
    ensures TableHolds(flat, tables, i + 1 + j, l) <==> InstrJumpsTo(tables, b.code, j, l)
  {
    forall t: nat ensures TableBefore(flat, i + 1 + j, t) <==> TableAt(b.code, j, t) { TableIff(flat, b, i, j, t); }
  }

  // ----- edges are steps -----

  /** The step from an instruction to the label of region `v`. */
  lemma StepIff(flat: seq<Line>, blocks: seq<Block>, s: seq<nat>, tables: Tables, u: nat, j: nat, v: nat)
    requires Stand(flat, blocks, s) && u < |s| && v < |s| && j < |blocks[u].code|
    ensures Step(flat, tables, s[u] + 1 + j, s[v]) <==>
            || (LastWithLabel(blocks, v) && InstrJumpsTo(tables, blocks[u].code, j, blocks[v].name))
            || (j == |blocks[u].code| - 1 && Falls(blocks[u].code) && v == u + 1)
  {
    hide LastWithLabel, LastLabel, TableHolds, TableAt;
    var b, i := blocks[u], s[u] + 1 + j;
    assert StandsAt(flat, b, s[u]) && flat[i] == Code(b.code[j]);
    forall l ensures LastLabel(flat, l, s[v]) <==> blocks[v].name == l && LastWithLabel(blocks, v) {
      LastLabelIff(flat, blocks, s, v, l);
    }
    NextRegion(flat, blocks, s, u, j, v);
    match b.code[j].kind
    case Plain =>
    case Branch(_, _) =>
    case Indirect => TableHoldsIff(flat, b, s[u], tables, j, blocks[v].name);
    case TailJump =>
    case Ret =>
    case Ud2 =>
  }

  lemma NextRegion(flat: seq<Line>, blocks: seq<Block>, s: seq<nat>, u: nat, j: nat, v: nat)
    requires Stand(flat, blocks, s) && u < |s| && v < |s| && j < |blocks[u].code|
    ensures s[v] == s[u] + 1 + j + 1 <==> v == u + 1 && j == |blocks[u].code| - 1
  {
    BehindRegion(flat, blocks, s, u, j + 1, v);
  }

  /** Behind line `m` of region `u` a label stands only if it is the last line. */
  lemma BehindRegion(flat: seq<Line>, blocks: seq<Block>, s: seq<nat>, u: nat, m: nat, v: nat)
    requires Stand(flat, blocks, s) && u < |s| && v < |s| && m <= |blocks[u].code|
    ensures s[v] == s[u] + m + 1 <==> v == u + 1 && m == |blocks[u].code|
  {
    if v < u { StartsRise(flat, blocks, s, v, u); }
    if v > u {
      assert s[u + 1] == s[u] + 1 + |blocks[u].code|;
      if v > u + 1 { StartsRise(flat, blocks, s, u + 1, v); }
    }
  }

  lemma EdgeSteps(flat: seq<Line>, blocks: seq<Block>, s: seq<nat>, tables: Tables, u: nat, v: nat)
    requires Stand(flat, blocks, s) && IsSucc(blocks, tables, u, v)
    ensures StepsInto(flat, tables, u, v)
  {
    hide RegionOf, LastWithLabel, InstrJumpsTo;
    var b := blocks[u].code;
    assert StandsAt(flat, blocks[u], s[u]) && StandsAt(flat, blocks[v], s[v]);
    RegionAt(flat, blocks, s, v, 0);
    var m: nat;
    if Falls(b) && v == u + 1 {
      m := |b|;
      BehindRegion(flat, blocks, s, u, m, v);
      if b != [] { StepIff(flat, blocks, s, tables, u, m - 1, v); }
    } else {
      var j :| 0 <= j < |b| && InstrJumpsTo(tables, b, j, blocks[v].name);
      StepIff(flat, blocks, s, tables, u, j, v);
      m := j + 1;
    }
    RegionAt(flat, blocks, s, u, m);
    assert Step(flat, tables, s[u] + m, s[v]) && Enters(flat, s[v], v);
  }

  lemma StepIsEdge(flat: seq<Line>, blocks: seq<Block>, s: seq<nat>, tables: Tables, i: nat, k: nat)
    requires Stand(flat, blocks, s) && i < |flat| && Step(flat, tables, i, k) && flat[k].LabelLine?
    ensures RegionOf(flat, i) >= 0 && RegionOf(flat, k) >= 0
    ensures IsSucc(blocks, tables, RegionOf(flat, i), RegionOf(flat, k))
  {
    hide RegionOf, LastWithLabel, InstrJumpsTo;
    var u, m := Locate(flat, blocks, s, i);
    var v := LabelsAreStarts(flat, blocks, s, k);
    RegionAt(flat, blocks, s, u, m);
    RegionAt(flat, blocks, s, v, 0);
    assert StandsAt(flat, blocks[u], s[u]);
    if m == 0 {
      BehindRegion(flat, blocks, s, u, 0, v);
    } else {
      StepIff(flat, blocks, s, tables, u, m - 1, v);
    }
  }

  /** There is an edge exactly where some line of the region can step to the label of the other, the label line of
      an empty region included. */
  lemma EdgeIff(ins: seq<Line>, tables: Tables, u: nat, v: nat)
    ensures IsSucc(CutRegions(ins), tables, u, v) <==> StepsInto(Flat(ins), tables, u, v)
  {
    hide IsSucc, Stand, Step, RegionOf;
    var flat, blocks := Flat(ins), CutRegions(ins);
    var s := Starts(ins);
    if IsSucc(blocks, tables, u, v) { EdgeSteps(flat, blocks, s, tables, u, v); }
    if i: nat, k: nat :|
      i < |flat| && Step(flat, tables, i, k) && RegionOf(flat, i) == u && Enters(flat, k, v)
    {
      StepIsEdge(flat, blocks, s, tables, i, k);
    }
  }
}
