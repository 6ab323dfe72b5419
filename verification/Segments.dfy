/** The part of a region executed on the way to a given next region: all possibilities
    (`segs` in tools/asmcensus/verdict3.py), or the first one (`seg` in paths2.py). */
module Segments {
  import opened Asm

  /** One successor set per region, naming regions. */
  ghost predicate EdgesInRange(blocks: seq<Block>, succ: seq<set<nat>>) {
    |succ| == |blocks| && forall u, v | 0 <= u < |succ| && v in succ[u] :: v < |blocks|
  }

  /** Some jump of `b` to `l` taken, or the whole of `b` when control falls off it into the next region. */
  ghost predicate IsSeg(b: seq<Instr>, l: Label, next: bool, sg: seq<Instr>) {
    || (exists j :: 0 <= j < |b| && Targets(b[j], l) && sg == b[..j + 1])
    || (next && Falls(b) && sg == b)
  }

  /** Control runs to the end of the code and on to the next line. */
  predicate RunsOn(b: seq<Instr>) {
    b == [] || match b[|b| - 1].kind
               case Plain => true
               case Branch(_, always) => !always
               case Indirect => false
               case TailJump => false
               case Ret => false
               case Ud2 => false
  }

  /** A segment is what is executed of a region up to a branch to the label, or all of it on the way to the next. */
  lemma SegIff(b: seq<Instr>, l: Label, next: bool, sg: seq<Instr>)
    ensures IsSeg(b, l, next, sg) <==>
            sg <= b && ((sg != [] && exists always :: sg[|sg| - 1].kind == Branch(l, always)) ||
                        (next && sg == b && RunsOn(b)))
  {
    if sg <= b && sg != [] {
      var j := |sg| - 1;
      assert sg == b[..j + 1] && Targets(b[j], l) == exists always :: sg[j].kind == Branch(l, always) by {
        if Targets(b[j], l) { assert sg[j].kind == Branch(l, sg[j].kind.always); }
      }
    }
    if j :| 0 <= j < |b| && Targets(b[j], l) && sg == b[..j + 1] {
      assert sg[|sg| - 1].kind == Branch(l, b[j].kind.always);
    }
  }

  ghost predicate HasSeg(b: seq<Instr>, l: Label, next: bool) {
    exists sg :: IsSeg(b, l, next, sg)
  }

  method Segs(b: seq<Instr>, l: Label, next: bool) returns (out: seq<seq<Instr>>)
    ensures forall sg :: sg in out <==> IsSeg(b, l, next, sg)
  {
    out := [];
    for j := 0 to |b|
      invariant forall sg :: sg in out <==> exists k :: 0 <= k < j && Targets(b[k], l) && sg == b[..k + 1]
    {
      if Targets(b[j], l) {
        out := out + [b[..j + 1]];
      }
    }
    if Falls(b) && next {
      out := out + [b];
    }
  }

  /** `cut`: just behind the first jump to `l`, the whole region when there is none. */
  function Cut(b: seq<Instr>, l: Label): (c: nat)
    ensures c <= |b|
    ensures (exists j :: 0 <= j < |b| && Targets(b[j], l)) ==> c > 0 && Targets(b[c - 1], l)
    ensures (forall j | 0 <= j < |b| :: !Targets(b[j], l)) ==> c == |b|
    ensures forall j | 0 <= j < c - 1 :: !Targets(b[j], l)
  {
    if b == [] then 0
    else if Targets(b[0], l) then 1
    else
      assert forall j | 0 <= j < |b[1..]| :: b[1..][j] == b[j + 1];
      assert forall j | 1 <= j < |b| :: b[j] == b[1..][j - 1];
      1 + Cut(b[1..], l)
  }

  /** The scan with `break`, as every copy of the search writes it. */
  method CutScan(b: seq<Instr>, l: Label) returns (cut: nat)
    ensures cut == Cut(b, l)
  {
    cut := |b|;
    for j := 0 to |b|
      invariant cut == |b| && forall k | 0 <= k < j :: !Targets(b[k], l)
    {
      if Targets(b[j], l) {
        cut := j + 1;
        break;
      }
    }
  }

  /** The first segment is the shortest of the parallel ones, and a prefix of each. */
  lemma CutIsShortest(b: seq<Instr>, l: Label, next: bool, sg: seq<Instr>)
    requires IsSeg(b, l, next, sg)
    ensures Cut(b, l) <= |sg| <= |b| && b[..Cut(b, l)] == sg[..Cut(b, l)]
    ensures IsSeg(b, l, next, b[..Cut(b, l)])
  {
    if exists j :: 0 <= j < |b| && Targets(b[j], l) {
      var c := Cut(b, l);
      assert Targets(b[c - 1], l) && b[..c] == b[..c - 1 + 1];
    } else {
      assert b[..|b|] == b;
    }
  }

  // ----- what a segment executes -----

  function Feats(sg: seq<Instr>): set<Feature> {
    set i, x | 0 <= i < |sg| && x in sg[i].feats :: x
  }

  lemma FeatsJoin(a: seq<Instr>, b: seq<Instr>)
    ensures Feats(a + b) == Feats(a) + Feats(b)
  {
    forall x | x in Feats(b) ensures x in Feats(a + b) {
      var i :| 0 <= i < |b| && x in b[i].feats;
      assert (a + b)[|a| + i] == b[i];
    }
    forall x | x in Feats(a) ensures x in Feats(a + b) {
      var i :| 0 <= i < |a| && x in a[i].feats;
      assert (a + b)[i] == a[i];
    }
  }

  lemma FeatsIff(sg: seq<Instr>, f: Feature)
    ensures f in Feats(sg) <==> exists t :: t in sg && f in t.feats
  {
    if t :| t in sg && f in t.feats {
      var i :| 0 <= i < |sg| && sg[i] == t;
    }
  }

  /** `feats`: the features seen so far and those of a segment. */
  method AddFeats(sg: seq<Instr>, f: set<Feature>) returns (g: set<Feature>)
    ensures g == f + Feats(sg)
  {
    g := f;
    for k := 0 to |sg|
      invariant g == f + Feats(sg[..k])
    {
      assert sg[..k + 1] == sg[..k] + [sg[k]];
      FeatsJoin(sg[..k], [sg[k]]);
      assert Feats([sg[k]]) == sg[k].feats by {
        assert [sg[k]][0] == sg[k];
      }
      g := g + sg[k].feats;
    }
    assert sg[..|sg|] == sg;
  }

  const ALL_FEATURES: set<Feature> := {CallIndirect, Xor, TagTest, Shift, FusedShort, PreEq, CallDirect}

  lemma FeaturesFinite(f: set<Feature>)
    ensures f <= ALL_FEATURES
  {
    forall x | x in f ensures x in ALL_FEATURES {
      match x
      case CallIndirect =>
      case Xor =>
      case TagTest =>
      case Shift =>
      case FusedShort =>
      case PreEq =>
      case CallDirect =>
    }
  }

  /** Stack reads and stores are counted over all instructions: a store counts once, and each stack operand of
      an instruction that is no store is a read. */
  ghost predicate Figures(sg: seq<Instr>, loads: nat, stores: nat) {
    && stores == |set i | 0 <= i < |sg| && sg[i].store|
    && loads == |set i, j | 0 <= i < |sg| && !sg[i].store && 0 <= j < sg[i].stackReads :: (i, j)|
  }

  lemma FiguresOf(sg: seq<Instr>)
    ensures Figures(sg, StackReads(sg), Stores(sg))
  {
    StoresCounted(sg);
    ReadsCounted(sg);
  }

  lemma {:induction false} StoresCounted(sg: seq<Instr>)
    ensures Stores(sg) == |set i | 0 <= i < |sg| && sg[i].store|
  {
    var storing := set i | 0 <= i < |sg| && sg[i].store;
    if sg == [] {
      assert storing == {};
    } else {
      var n := |sg| - 1;
      var front := sg[..n];
      StoresCounted(front);
      var before := set i | 0 <= i < |front| && front[i].store;
      assert storing == before + if sg[n].store then {n} else {};
    }
  }

  lemma {:induction false} ReadsCounted(sg: seq<Instr>)
    ensures StackReads(sg) == |set i, j | 0 <= i < |sg| && !sg[i].store && 0 <= j < sg[i].stackReads :: (i, j)|
  {
    var reading := set i, j | 0 <= i < |sg| && !sg[i].store && 0 <= j < sg[i].stackReads :: (i, j);
    if sg == [] {
      assert reading == {};
    } else {
      var n := |sg| - 1;
      var front := sg[..n];
      ReadsCounted(front);
      var before := set i, j | 0 <= i < |front| && !front[i].store && 0 <= j < front[i].stackReads :: (i, j);
      var last := set j | 0 <= j < sg[n].stackReads :: (n, j);
      PairsWith(n, sg[n].stackReads);
      if sg[n].store {
        assert reading == before;
      } else {
        assert reading == before + last && before !! last;
      }
    }
  }

  lemma {:induction false} PairsWith(n: int, k: nat)
    ensures |set j | 0 <= j < k :: (n, j)| == k
  {
    if k > 0 {
      PairsWith(n, k - 1);
      assert (set j | 0 <= j < k :: (n, j)) == (set j | 0 <= j < k - 1 :: (n, j)) + {(n, k - 1)};
    }
  }

  function StackReads(sg: seq<Instr>): nat {
    if sg == [] then 0 else
      var t := sg[|sg| - 1];
      StackReads(sg[..|sg| - 1]) + if t.store then 0 else t.stackReads
  }

  function Stores(sg: seq<Instr>): nat {
    if sg == [] then 0 else Stores(sg[..|sg| - 1]) + if sg[|sg| - 1].store then 1 else 0
  }

  lemma {:induction false} CountsJoin(a: seq<Instr>, b: seq<Instr>)
    ensures StackReads(a + b) == StackReads(a) + StackReads(b)
    ensures Stores(a + b) == Stores(a) + Stores(b)
  {
    if b == [] {
      assert a + b == a;
    } else {
      assert (a + b)[..|a + b| - 1] == a + b[..|b| - 1];
      CountsJoin(a, b[..|b| - 1]);
    }
  }
}
