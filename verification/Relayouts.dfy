/** When the walk and the guard-branch count of tools/panic_census.py are independent of block layout: the
    blocks may stand in any order, some with a jump added to what they fell into, unless the walk runs out of a
    block without one. */
module Relayouts {
  import opened Asm
  import opened GuardWalk
  import opened Layout

  // ----- explicit fall-throughs -----

  /** What block `k` falls into, or `exit` behind the last block. */
  function Next(a: seq<Chunk>, k: nat, exit: Name): Name
    requires k < |a|
  {
    if k + 1 < |a| then a[k + 1].name else exit
  }

  /** The blocks in `ts` get a jump to what they fell into. The program keeps its meaning in another order if
      control runs off none of the others; the theorems hold for every choice. */
  function WithJumps(a: seq<Chunk>, ts: set<nat>, exit: Name): (e: seq<Chunk>)
    ensures |e| == |a|
  {
    seq(|a|, k requires 0 <= k < |a| =>
      if k in ts then Chunk(a[k].name, a[k].code + [JumpTo(Next(a, k, exit))]) else a[k])
  }

  /** The walk runs out of block `k`: it meets no transfer there and no jump was added. Either control runs off
      the block as well, or it leaves through an indirect jump. */
  predicate Open(a: seq<Chunk>, ts: set<nat>, k: nat)
    requires k < |a|
  {
    Reaction(a[k].code).None? && k !in ts
  }

  lemma {:induction false} ReactionAppend(code: seq<TextLine>, t: TextLine)
    requires !Skipped(t)
    ensures Reaction(code + [t]) == if Reaction(code).Some? then Reaction(code) else Some(t)
  {
    if code != [] {
      assert (code + [t])[1..] == code[1..] + [t];
      ReactionAppend(code[1..], t);
    }
  }

  lemma JumpedReaction(a: seq<Chunk>, ts: set<nat>, exit: Name, k: nat)
    requires k < |a|
    ensures WithJumps(a, ts, exit)[k].name == a[k].name
    ensures Reaction(WithJumps(a, ts, exit)[k].code) ==
            if Reaction(a[k].code).Some? then Reaction(a[k].code)
            else if k in ts then Some(JumpTo(Next(a, k, exit))) else None
  {
    ReactionAppend(a[k].code, JumpTo(Next(a, k, exit)));
  }

  lemma JumpedProper(a: seq<Chunk>, ts: set<nat>, exit: Name)
    requires Proper(a)
    ensures Proper(WithJumps(a, ts, exit))
  {
    var e := WithJumps(a, ts, exit);
    forall j, k | 0 <= j < |e| && 0 <= k < |e| && e[j].name == e[k].name ensures j == k {
      assert e[j].name == a[j].name && e[k].name == a[k].name;
    }
  }

  lemma NotThere(a: seq<Chunk>, l: Name, seen: set<Name>)
    requires l !in Names(a)
    ensures BlockWalk(a, l, seen) == Nowhere
  {
    forall k | 0 <= k < |a| ensures a[k].name != l { NameOf(a, k); }
  }

  // ----- permuting blocks -----

  ghost predicate SameBlocks(a: seq<Chunk>, b: seq<Chunk>) {
    multiset(a) == multiset(b)
  }

  lemma InBoth(a: seq<Chunk>, b: seq<Chunk>, k: nat) returns (j: nat)
    requires SameBlocks(a, b) && k < |a|
    ensures j < |b| && b[j] == a[k]
  {
    assert a[k] in multiset(a);
    assert a[k] in b;
    j :| 0 <= j < |b| && b[j] == a[k];
  }

  lemma SameBlocksSymmetric(a: seq<Chunk>, b: seq<Chunk>)
    requires SameBlocks(a, b)
    ensures SameBlocks(b, a)
  {}

  lemma SameBlocksTransitive(a: seq<Chunk>, b: seq<Chunk>, c: seq<Chunk>)
    requires SameBlocks(a, b) && SameBlocks(b, c)
    ensures SameBlocks(a, c)
  {}

  lemma {:induction false} OnceIfDistinct(e: seq<Chunk>, c: Chunk)
    requires forall j, k | 0 <= j < |e| && 0 <= k < |e| && e[j].name == e[k].name :: j == k
    ensures multiset(e)[c] <= 1
  {
    if e != [] {
      var n := |e| - 1;
      OnceIfDistinct(e[..n], c);
      assert e == e[..n] + [e[n]];
      forall j | 0 <= j < n ensures e[..n][j] != e[n] {
        assert e[j].name != e[n].name;
      }
    }
  }

  lemma TwiceIfRepeated(b: seq<Chunk>, j: nat, k: nat)
    requires j < k < |b| && b[j] == b[k]
    ensures multiset(b)[b[j]] >= 2
  {
    assert b == b[..k] + ([b[k]] + b[k + 1..]);
    assert b[j] in b[..k];
  }

  lemma PermutedProper(e: seq<Chunk>, b: seq<Chunk>)
    requires Proper(e) && SameBlocks(e, b)
    ensures Proper(b)
  {
    SameBlocksSymmetric(e, b);
    forall k, i | 0 <= k < |b| && 0 <= i < |b[k].code| ensures !b[k].code[i].LabelAt? {
      var m := InBoth(b, e, k);
    }
    forall j, k | 0 <= j < |b| && 0 <= k < |b| && b[j].name == b[k].name ensures j == k {
      var m := InBoth(b, e, j);
      var n := InBoth(b, e, k);
      assert b[j] == b[k];
      OnceIfDistinct(e, b[j]);
      if j < k { TwiceIfRepeated(b, j, k); }
      if k < j { TwiceIfRepeated(b, k, j); }
    }
  }

  lemma DistinctNames(chunks: seq<Chunk>, j: nat, k: nat)
    requires Proper(chunks) && j < |chunks| && k < |chunks| && j != k
    ensures chunks[j].name != chunks[k].name
  {}

  // ----- the count per block -----

  function SumConds(chunks: seq<Chunk>, f: Name -> bool): nat {
    if chunks == [] then 0 else SumConds(chunks[..|chunks| - 1], f) + CondsTo(ChunkLines(chunks[|chunks| - 1]), f)
  }

  lemma {:induction false} TextConds(chunks: seq<Chunk>, f: Name -> bool)
    ensures CondsTo(Text(chunks), f) == SumConds(chunks, f)
  {
    if chunks != [] {
      var n := |chunks| - 1;
      TextConds(chunks[..n], f);
      CondsToJoin(Text(chunks[..n]), ChunkLines(chunks[n]), f);
    }
  }

  lemma {:induction false} SumJoin(a: seq<Chunk>, b: seq<Chunk>, f: Name -> bool)
    ensures SumConds(a + b, f) == SumConds(a, f) + SumConds(b, f)
  {
    if b == [] {
      assert a + b == a;
    } else {
      var n := |b| - 1;
      assert (a + b)[..|a + b| - 1] == a + b[..n];
      SumJoin(a, b[..n], f);
    }
  }

  lemma {:induction false} SumPermuted(a: seq<Chunk>, b: seq<Chunk>, f: Name -> bool)
    requires SameBlocks(a, b)
    ensures SumConds(a, f) == SumConds(b, f)
  {
    if a == [] {
      assert |multiset(b)| == 0;
    } else {
      var n := |a| - 1;
      var i := InBoth(a, b, n);
      var rest := b[..i] + b[i + 1..];
      assert a == a[..n] + [a[n]];
      assert b == b[..i] + ([b[i]] + b[i + 1..]);
      assert multiset(rest) == multiset(b) - multiset{b[i]};
      assert multiset(a[..n]) == multiset(a) - multiset{a[n]};
      SumPermuted(a[..n], rest, f);
      SumJoin(b[..i], b[i + 1..], f);
      SumJoin(b[..i], [b[i]] + b[i + 1..], f);
      SumJoin([b[i]], b[i + 1..], f);
      assert [b[i]][..0] == [];
    }
  }

  lemma {:induction false} SumJumped(a: seq<Chunk>, ts: set<nat>, exit: Name, f: Name -> bool, n: nat)
    requires n <= |a|
    ensures SumConds(WithJumps(a, ts, exit)[..n], f) == SumConds(a[..n], f)
  {
    if n > 0 {
      var e := WithJumps(a, ts, exit);
      SumJumped(a, ts, exit, f, n - 1);
      assert e[..n][..n - 1] == e[..n - 1] && a[..n][..n - 1] == a[..n - 1];
      var c, j := ChunkLines(a[n - 1]), [JumpTo(Next(a, n - 1, exit))];
      if n - 1 in ts {
        assert ChunkLines(e[n - 1]) == c + j;
        CondsToJoin(c, j, f);
        assert j[..0] == [];
      }
    }
  }

  // ----- re-layouts -----

  /** `b` is a re-layout of `a`: the blocks in any order, those in `ts` with a jump to what they fell into. */
  ghost predicate Relayout(a: seq<Chunk>, ts: set<nat>, exit: Name, b: seq<Chunk>) {
    SameBlocks(WithJumps(a, ts, exit), b)
  }

  /** The first open block on the walk from `l` over the blocks in their first order. */
  ghost function FirstOpen(a: seq<Chunk>, ts: set<nat>, exit: Name, l: Name, seen: set<Name>): Option<nat>
    decreases Names(a) - seen
  {
    if l in seen || !exists k :: 0 <= k < |a| && a[k].name == l then None else
      var k: nat :| k < |a| && a[k].name == l;
      assert a[k] in a && l in Names(a) - seen;
      if Open(a, ts, k) then Some(k) else
        match Reaction(a[k].code)
        case None => FirstOpen(a, ts, exit, Next(a, k, exit), seen + {l})
        case Some(t) => if t.JumpTo? || t.LabelAt? then FirstOpen(a, ts, exit, t.name, seen + {l}) else None
  }

  /** The unfolding of `FirstOpen` at a block whose index is known. */
  lemma FirstOpenAt(a: seq<Chunk>, ts: set<nat>, exit: Name, k: nat, seen: set<Name>)
    requires Proper(a) && k < |a| && a[k].name !in seen
    ensures FirstOpen(a, ts, exit, a[k].name, seen) ==
      if Open(a, ts, k) then Some(k) else
        match Reaction(a[k].code)
        case None => FirstOpen(a, ts, exit, Next(a, k, exit), seen + {a[k].name})
        case Some(t) =>
          (if t.JumpTo? || t.LabelAt? then FirstOpen(a, ts, exit, t.name, seen + {a[k].name}) else None)
  {}

  /** Where block `k` stands in a re-layout, and what the walk does there. */
  lemma PlaceOf(a: seq<Chunk>, ts: set<nat>, exit: Name, b: seq<Chunk>, k: nat) returns (j: nat)
    requires Relayout(a, ts, exit, b) && k < |a|
    ensures j < |b| && b[j].name == a[k].name
    ensures Reaction(b[j].code) ==
            if Reaction(a[k].code).Some? then Reaction(a[k].code)
            else if k in ts then Some(JumpTo(Next(a, k, exit))) else None
  {
    j := InBoth(WithJumps(a, ts, exit), b, k);
    JumpedReaction(a, ts, exit, k);
  }

  /** Which block of `a` stands at `j`. */
  lemma BlockAt(a: seq<Chunk>, ts: set<nat>, exit: Name, b: seq<Chunk>, j: nat) returns (k: nat)
    requires Relayout(a, ts, exit, b) && j < |b|
    ensures k < |a| && b[j] == WithJumps(a, ts, exit)[k] && b[j].name == a[k].name
    ensures Reaction(b[j].code) ==
            if Reaction(a[k].code).Some? then Reaction(a[k].code)
            else if k in ts then Some(JumpTo(Next(a, k, exit))) else None
  {
    SameBlocksSymmetric(WithJumps(a, ts, exit), b);
    k := InBoth(b, WithJumps(a, ts, exit), j);
    JumpedReaction(a, ts, exit, k);
  }

  lemma RelayoutProper(a: seq<Chunk>, ts: set<nat>, exit: Name, b: seq<Chunk>)
    requires Proper(a) && Relayout(a, ts, exit, b)
    ensures Proper(b)
  {
    JumpedProper(a, ts, exit);
    PermutedProper(WithJumps(a, ts, exit), b);
  }

  /** A walk that meets no open block is the same in every re-layout. */
  lemma {:induction false} WalkKept(a: seq<Chunk>, ts: set<nat>, exit: Name, b: seq<Chunk>, l: Name, seen: set<Name>)
    requires Proper(a) && exit !in Names(a) && Relayout(a, ts, exit, b)
    requires FirstOpen(a, ts, exit, l, seen).None?
    ensures BlockWalk(b, l, seen) == BlockWalk(a, l, seen)
    decreases Names(a) - seen
  {
    hide Proper, Names, Reaction, Relayout, FirstOpen, BlockWalk, AsTransfer;
    if k: nat :| l !in seen && k < |a| && a[k].name == l {
      RelayoutProper(a, ts, exit, b);
      var j := PlaceOf(a, ts, exit, b, k);
      FirstOpenAt(a, ts, exit, k, seen);
      BlockWalkAt(a, k, seen);
      BlockWalkAt(b, j, seen);
      NameOf(a, k);
      assert l in Names(a) - seen;
      match Reaction(a[k].code)
      case Some(t) =>
        if t.JumpTo? || t.LabelAt? { WalkKept(a, ts, exit, b, t.name, seen + {l}); }
      case None =>
        WalkKept(a, ts, exit, b, Next(a, k, exit), seen + {l});
        if k + 1 == |a| { NotThere(a, exit, seen + {l}); }
    } else {
      AbsentInBoth(a, ts, exit, b, l, seen);
    }
  }

  lemma AbsentInBoth(a: seq<Chunk>, ts: set<nat>, exit: Name, b: seq<Chunk>, l: Name, seen: set<Name>)
    requires Relayout(a, ts, exit, b) && (l in seen || forall k | 0 <= k < |a| :: a[k].name != l)
    ensures BlockWalk(b, l, seen) == BlockWalk(a, l, seen) == Nowhere
  {
    hide Relayout, WithJumps, Reaction;
    forall j | 0 <= j < |b| && b[j].name == l ensures l in seen {
      var k := BlockAt(a, ts, exit, b, j);
    }
    BlockWalkNowhere(a, l, seen);
    BlockWalkNowhere(b, l, seen);
  }

  ghost predicate SameWalk(pre: seq<TextLine>, a: seq<Chunk>, b: seq<Chunk>, l: Name) {
    WalkOf(Listing(pre, b), l) == WalkOf(Listing(pre, a), l)
  }

  lemma RelayoutWalk(pre: seq<TextLine>, a: seq<Chunk>, ts: set<nat>, exit: Name, b: seq<Chunk>, l: Name)
    requires LabelFree(pre) && Proper(a) && exit !in Names(a) && Relayout(a, ts, exit, b)
    requires FirstOpen(a, ts, exit, l, {}).None?
    ensures SameWalk(pre, a, b, l)
  {
    hide FirstOpen, Proper, Names, Relayout, LabelFree, Listing, WalkOf;
    RelayoutProper(a, ts, exit, b);
    ListingWalk(pre, a, l);
    ListingWalk(pre, b, l);
    WalkKept(a, ts, exit, b, l, {});
  }

  /** A re-layout has the conditional jumps of the listing it comes from. */
  lemma SameConds(pre: seq<TextLine>, a: seq<Chunk>, ts: set<nat>, exit: Name, b: seq<Chunk>, f: Name -> bool)
    requires Relayout(a, ts, exit, b)
    ensures CondsTo(Listing(pre, b), f) == CondsTo(Listing(pre, a), f)
  {
    hide SameBlocks, Text;
    CondsToJoin(pre, Text(a), f);
    CondsToJoin(pre, Text(b), f);
    TextConds(a, f);
    TextConds(b, f);
    var e := WithJumps(a, ts, exit);
    SumPermuted(e, b, f);
    SumJumped(a, ts, exit, f, |a|);
    assert e[..|a|] == e && a[..|a|] == a;
  }

  ghost predicate SameGuards(pre: seq<TextLine>, a: seq<Chunk>, b: seq<Chunk>, panics: Name -> bool) {
    Guards(Listing(pre, b), panics) == Guards(Listing(pre, a), panics)
  }

  /** The total depends only on the walks of the labels that conditional jumps go to. */
  lemma GuardsFollowWalks(pre: seq<TextLine>, a: seq<Chunk>, ts: set<nat>, exit: Name, b: seq<Chunk>,
                          panics: Name -> bool)
    requires Relayout(a, ts, exit, b)
    requires forall l | CondTo(l) in Listing(pre, a) ::
      IsGuard(WalkOf(Listing(pre, b), l), panics) == IsGuard(WalkOf(Listing(pre, a), l), panics)
    ensures SameGuards(pre, a, b, panics)
  {
    hide Relayout, Listing, WalkOf, IsGuard;
    var f := l => IsGuard(WalkOf(Listing(pre, a), l), panics);
    var g := l => IsGuard(WalkOf(Listing(pre, b), l), panics);
    SameConds(pre, a, ts, exit, b, g);
    CondsToSameOn(Listing(pre, a), f, g);
  }

  lemma {:induction false} NoneOpen(a: seq<Chunk>, ts: set<nat>, exit: Name, l: Name, seen: set<Name>)
    requires Proper(a) && forall k | 0 <= k < |a| :: !Open(a, ts, k)
    ensures FirstOpen(a, ts, exit, l, seen).None?
    decreases Names(a) - seen
  {
    hide Proper, Names, Reaction, Open;
    if k: nat :| l !in seen && k < |a| && a[k].name == l {
      FirstOpenAt(a, ts, exit, k, seen);
      NameOf(a, k);
      assert l in Names(a) - seen;
      match Reaction(a[k].code)
      case None => NoneOpen(a, ts, exit, Next(a, k, exit), seen + {l});
      case Some(t) => if t.JumpTo? || t.LabelAt? { NoneOpen(a, ts, exit, t.name, seen + {l}); }
    }
  }

  /** If every block the walk runs out of gets its jump, the first transfer of every label and so the
      guard-branch total cannot drift with layout. */
  lemma LayoutIndependent(pre: seq<TextLine>, a: seq<Chunk>, ts: set<nat>, exit: Name, b: seq<Chunk>,
                          panics: Name -> bool)
    requires LabelFree(pre) && Proper(a) && exit !in Names(a) && Relayout(a, ts, exit, b)
    requires forall k | 0 <= k < |a| :: !Open(a, ts, k)
    ensures forall l :: WalkOf(Listing(pre, b), l) == WalkOf(Listing(pre, a), l)
    ensures Guards(Listing(pre, b), panics) == Guards(Listing(pre, a), panics)
  {
    hide Relayout, Proper, LabelFree, Open, Listing, WalkOf, Guards, FirstOpen, IsGuard;
    forall l ensures WalkOf(Listing(pre, b), l) == WalkOf(Listing(pre, a), l) {
      NoneOpen(a, ts, exit, l, {});
      RelayoutWalk(pre, a, ts, exit, b, l);
    }
    GuardsFollowWalks(pre, a, ts, exit, b, panics);
  }

  /** The walk runs out of the block behind an indirect jump, where control does not: to keep the program's
      meaning it needs no jump, to keep the walk it does. */
  ghost predicate Loose(c: Chunk) {
    Reaction(c.code).None? && Unseen(false) in c.code
  }

  /** Where no label is followed by an unseen transfer, and so every walk is execution, no block is loose. */
  lemma ClearHasNoLoose(pre: seq<TextLine>, a: seq<Chunk>)
    requires LabelFree(pre) && Proper(a) && AllClear(Listing(pre, a))
    ensures forall c | c in a :: !Loose(c)
  {
    hide *;
    var lines := Listing(pre, a);
    forall c | c in a ensures !Loose(c) {
      var k: nat :| k < |a| && a[k] == c;
      var s := CodeOfLabel(pre, a, k);
      ClearStretch(lines, s - 1, c);
    }
  }

  lemma CodeOfLabel(pre: seq<TextLine>, a: seq<Chunk>, k: nat) returns (s: nat)
    requires LabelFree(pre) && Proper(a) && k < |a|
    ensures var lines := Listing(pre, a); var c := a[k];
            c.name in LabelLines(lines) && s == LabelLines(lines)[c.name] + 1 &&
            s + |c.code| <= |lines| && lines[s..s + |c.code|] == c.code
  {
    hide LabelLines, Text, StartOf, LabelFree, Proper;
    LabelsBehind(pre, Text(a));
    LabelOfChunk(a, k);
    ChunkAt(a, k);
    s := |pre| + StartOf(a, k) + 1;
    assert Listing(pre, a)[s..s + |a[k].code|] == Text(a)[s - |pre|..StartOf(a, k + 1)];
  }

  lemma ClearStretch(lines: seq<TextLine>, i: nat, c: Chunk)
    requires AllClear(lines) && c.name in LabelLines(lines) && i == LabelLines(lines)[c.name]
    requires i + 1 + |c.code| <= |lines| && lines[i + 1..i + 1 + |c.code|] == c.code
    ensures !Loose(c)
  {
    hide *;
    assert StretchClear(lines, i + 1) by { ClearAt(lines, c.name); }
    if Reaction(c.code).None? {
      forall m | 0 <= m < |c.code| ensures c.code[m] == Pass { ClearCode(lines, i + 1, c.code, m); }
    }
    AllPasses(c);
  }

  lemma ClearAt(lines: seq<TextLine>, l: Name)
    requires AllClear(lines) && l in LabelLines(lines)
    ensures StretchClear(lines, LabelLines(lines)[l] + 1)
  {}

  lemma ClearCode(lines: seq<TextLine>, s: nat, code: seq<TextLine>, m: nat)
    requires s + |code| <= |lines| && lines[s..s + |code|] == code && m < |code|
    requires StretchClear(lines, s) && Reaction(code).None?
    ensures code[m] == Pass
  {
    hide Reaction;
    ScanCode(lines, s, code);
    assert lines[s + m] == lines[s..s + |code|][m];
  }

  lemma AllPasses(c: Chunk)
    requires Reaction(c.code).None? ==> forall m | 0 <= m < |c.code| :: c.code[m] == Pass
    ensures !Loose(c)
  {}

  // ----- with an open block they can drift -----

  /** The walk ends in the block, at a line that says where. */
  ghost predicate Answers(c: Chunk) {
    Reaction(c.code).Some? && AsTransfer(Reaction(c.code).value) != Nowhere
  }

  function Answer(c: Chunk): (t: Transfer)
    requires Answers(c)
    ensures t != Nowhere && !Reaction(c.code).value.JumpTo? && !Reaction(c.code).value.LabelAt?
  {
    AsTransfer(Reaction(c.code).value)
  }

  /** The blocks of `e[..n]` with an index in `ks`, in order. */
  function Pick(e: seq<Chunk>, ks: set<nat>, n: nat): (r: seq<Chunk>)
    requires n <= |e|
    ensures forall c | c in r :: exists k :: 0 <= k < n && k in ks && c == e[k]
  {
    if n == 0 then [] else Pick(e, ks, n - 1) + if n - 1 in ks then [e[n - 1]] else []
  }

  lemma {:induction false} PickApart(e: seq<Chunk>, ks: set<nat>, js: set<nat>, n: nat)
    requires n <= |e| && ks !! js
    ensures multiset(Pick(e, ks + js, n)) == multiset(Pick(e, ks, n)) + multiset(Pick(e, js, n))
  {
    if n > 0 { PickApart(e, ks, js, n - 1); }
  }

  lemma {:induction false} PickAll(e: seq<Chunk>, ks: set<nat>, n: nat)
    requires n <= |e| && forall k | 0 <= k < n :: k in ks
    ensures Pick(e, ks, n) == e[..n]
  {
    if n > 0 { PickAll(e, ks, n - 1); }
  }

  /** Up to `p` every block is left by a transfer; from there to the last, the walk runs from each into the next,
      and the last is `c`. */
  ghost predicate OpenRowBefore(b: seq<Chunk>, p: nat, c: Chunk) {
    && p < |b| && b[|b| - 1] == c
    && (forall j | 0 <= j < p :: Reaction(b[j].code).Some?)
    && forall j | p <= j < |b| - 1 :: Reaction(b[j].code).None?
  }

  ghost predicate OpenRowLast(b: seq<Chunk>, p: nat) {
    && p <= |b|
    && (forall j | 0 <= j < p :: Reaction(b[j].code).Some?)
    && forall j | p <= j < |b| :: Reaction(b[j].code).None?
  }

  /** Two orders of the same blocks: all open ones in a row before an answering one, and all at the end. */
  lemma TwoOrders(e: seq<Chunk>, k: nat) returns (b: seq<Chunk>, b': seq<Chunk>, p: nat, p': nat)
    requires k < |e| && Reaction(e[k].code).Some?
    ensures SameBlocks(e, b) && SameBlocks(e, b') && OpenRowBefore(b, p, e[k]) && OpenRowLast(b', p')
  {
    var n := |e|;
    var open := set i: nat | i < n && Reaction(e[i].code).None?;
    var others := set i: nat | i < n && Reaction(e[i].code).Some? && i != k;
    var x, y := Pick(e, others, n), Pick(e, open, n);
    b, b', p, p' := x + y + [e[k]], x + [e[k]] + y, |x|, |x| + 1;
    assert SameBlocks(e, b) && SameBlocks(e, b') by { ThreeParts(e, others, open, k); }
    forall j | 0 <= j < |x| ensures Reaction(x[j].code).Some? { assert x[j] in x; }
    forall j | 0 <= j < |y| ensures Reaction(y[j].code).None? { assert y[j] in y; }
    Rows(x, y, e[k]);
  }

  lemma Rows(x: seq<Chunk>, y: seq<Chunk>, c: Chunk)
    requires (forall j | 0 <= j < |x| :: Reaction(x[j].code).Some?) && Reaction(c.code).Some?
    requires forall j | 0 <= j < |y| :: Reaction(y[j].code).None?
    ensures OpenRowBefore(x + y + [c], |x|, c) && OpenRowLast(x + [c] + y, |x| + 1)
  {
    hide Reaction;
  }

  lemma ThreeParts(e: seq<Chunk>, ks: set<nat>, js: set<nat>, k: nat)
    requires k < |e| && ks !! js && k !in ks + js && forall i: nat | i < |e| :: i in ks + js + {k}
    ensures SameBlocks(e, Pick(e, ks, |e|) + Pick(e, js, |e|) + [e[k]])
    ensures SameBlocks(e, Pick(e, ks, |e|) + [e[k]] + Pick(e, js, |e|))
  {
    hide Pick;
    var n := |e|;
    PickOne(e, k, n);
    PickApart(e, ks, js, n);
    PickApart(e, ks + js, {k}, n);
    PickAll(e, ks + js + {k}, n);
    assert e[..n] == e;
  }

  lemma {:induction false} PickOne(e: seq<Chunk>, k: nat, n: nat)
    requires n <= |e|
    ensures Pick(e, {k}, n) == if k < n then [e[k]] else []
  {
    if n > 0 { PickOne(e, k, n - 1); }
  }

  lemma {:induction false} RowToAnswer(b: seq<Chunk>, p: nat, c: Chunk, i: nat, seen: set<Name>)
    requires Proper(b) && OpenRowBefore(b, p, c) && p <= i < |b| && Answers(c)
    requires forall j | i <= j < |b| :: b[j].name !in seen
    ensures BlockWalk(b, b[i].name, seen) == Answer(c)
    decreases |b| - i
  {
    hide Proper, BlockWalk, Reaction, AsTransfer;
    BlockWalkAt(b, i, seen);
    if i < |b| - 1 {
      forall j | i < j < |b| ensures b[j].name !in seen + {b[i].name} { DistinctNames(b, i, j); }
      RowToAnswer(b, p, c, i + 1, seen + {b[i].name});
    }
  }

  lemma {:induction false} RowToEnd(b: seq<Chunk>, p: nat, i: nat, seen: set<Name>)
    requires Proper(b) && OpenRowLast(b, p) && p <= i < |b|
    requires forall j | i <= j < |b| :: b[j].name !in seen
    ensures BlockWalk(b, b[i].name, seen) == Nowhere
    decreases |b| - i
  {
    hide Proper, BlockWalk, Reaction;
    BlockWalkAt(b, i, seen);
    if i < |b| - 1 {
      forall j | i < j < |b| ensures b[j].name !in seen + {b[i].name} { DistinctNames(b, i, j); }
      RowToEnd(b, p, i + 1, seen + {b[i].name});
    }
  }

  /** Re-layouts of `a` in the two orders, around the answering block `k`. */
  ghost predicate Drift(a: seq<Chunk>, ts: set<nat>, exit: Name, k: nat, b: seq<Chunk>, p: nat, b': seq<Chunk>, p': nat)
  {
    && k < |a| && Answers(a[k]) && Proper(a) && exit !in Names(a)
    && Relayout(a, ts, exit, b) && Proper(b) && OpenRowBefore(b, p, WithJumps(a, ts, exit)[k])
    && Relayout(a, ts, exit, b') && Proper(b') && OpenRowLast(b', p')
  }

  lemma DriftExists(a: seq<Chunk>, ts: set<nat>, exit: Name, k: nat)
    returns (b: seq<Chunk>, p: nat, b': seq<Chunk>, p': nat)
    requires k < |a| && Answers(a[k]) && Proper(a) && exit !in Names(a)
    ensures Drift(a, ts, exit, k, b, p, b', p')
  {
    hide Proper, WithJumps, SameBlocks, OpenRowBefore, OpenRowLast;
    JumpedReaction(a, ts, exit, k);
    b, b', p, p' := TwoOrders(WithJumps(a, ts, exit), k);
    RelayoutProper(a, ts, exit, b);
    RelayoutProper(a, ts, exit, b');
  }

  /** The walk has passed neither an open block nor block `k`. */
  ghost predicate Fresh(a: seq<Chunk>, ts: set<nat>, k: nat, seen: set<Name>) {
    forall i | 0 <= i < |a| && (Open(a, ts, i) || i == k) :: a[i].name !in seen
  }

  /** A walk that meets an open block ends with the answer of block `k` in one order, nowhere in the other. */
  lemma {:induction false} WalksPart(a: seq<Chunk>, ts: set<nat>, exit: Name, k: nat, b: seq<Chunk>, p: nat,
                                     b': seq<Chunk>, p': nat, l: Name, seen: set<Name>)
    requires Drift(a, ts, exit, k, b, p, b', p') && Fresh(a, ts, k, seen)
    requires FirstOpen(a, ts, exit, l, seen).Some?
    ensures BlockWalk(b, l, seen) == Answer(a[k]) && BlockWalk(b', l, seen) == Nowhere
    decreases Names(a) - seen
  {
    hide Proper, Names, Reaction, Relayout, OpenRowBefore, OpenRowLast, AsTransfer, WithJumps;
    if i: nat :| l !in seen && i < |a| && a[i].name == l {
      FirstOpenAt(a, ts, exit, i, seen);
      if Open(a, ts, i) {
        AtOpen(a, ts, exit, k, b, p, b', p', i, seen);
      } else {
        var j := PlaceOf(a, ts, exit, b, i);
        var j' := PlaceOf(a, ts, exit, b', i);
        BlockWalkAt(b, j, seen);
        BlockWalkAt(b', j', seen);
        NameOf(a, i);
        assert l in Names(a) - seen;
        assert i != k by {
          if i == k { var t := Answer(a[k]); }
        }
        StillFresh(a, ts, k, i, seen);
        match Reaction(a[i].code)
        case Some(t) => WalksPart(a, ts, exit, k, b, p, b', p', t.name, seen + {l});
        case None => WalksPart(a, ts, exit, k, b, p, b', p', Next(a, i, exit), seen + {l});
      }
    }
  }

  lemma StillFresh(a: seq<Chunk>, ts: set<nat>, k: nat, i: nat, seen: set<Name>)
    requires Proper(a) && Fresh(a, ts, k, seen) && i < |a| && !Open(a, ts, i) && i != k
    ensures Fresh(a, ts, k, seen + {a[i].name})
  {
    hide Proper, Open;
    forall j | 0 <= j < |a| && (Open(a, ts, j) || j == k) ensures a[j].name !in seen + {a[i].name} {
      DistinctNames(a, i, j);
    }
  }

  lemma AtOpen(a: seq<Chunk>, ts: set<nat>, exit: Name, k: nat, b: seq<Chunk>, p: nat, b': seq<Chunk>, p': nat,
               i: nat, seen: set<Name>)
    requires Drift(a, ts, exit, k, b, p, b', p') && Fresh(a, ts, k, seen) && i < |a| && Open(a, ts, i)
    ensures BlockWalk(b, a[i].name, seen) == Answer(a[k]) && BlockWalk(b', a[i].name, seen) == Nowhere
  {
    hide Proper, Names, Reaction, Relayout, AsTransfer, BlockWalk;
    var c := WithJumps(a, ts, exit)[k];
    JumpedReaction(a, ts, exit, k);
    var j := PlaceOf(a, ts, exit, b, i);
    var j' := PlaceOf(a, ts, exit, b', i);
    forall m | p <= m < |b| ensures b[m].name !in seen {
      var n := BlockAt(a, ts, exit, b, m);
      if m == |b| - 1 { JumpedReaction(a, ts, exit, k); }
    }
    forall m | p' <= m < |b'| ensures b'[m].name !in seen {
      var n := BlockAt(a, ts, exit, b', m);
    }
    RowToAnswer(b, p, c, j, seen);
    RowToEnd(b', p', j', seen);
  }

  /** A walk ends nowhere or with the answer of a block. */
  lemma {:induction false} WalkIsAnswer(chunks: seq<Chunk>, l: Name, seen: set<Name>)
    requires Proper(chunks)
    ensures BlockWalk(chunks, l, seen) == Nowhere || exists c :: Gives(chunks, c, BlockWalk(chunks, l, seen))
    decreases Names(chunks) - seen
  {
    hide Proper, Names, Reaction, AsTransfer, Gives;
    if k: nat :| l !in seen && k < |chunks| && chunks[k].name == l {
      BlockWalkAt(chunks, k, seen);
      NameOf(chunks, k);
      assert l in Names(chunks) - seen;
      match Reaction(chunks[k].code)
      case Some(t) =>
        if t.JumpTo? || t.LabelAt? {
          WalkIsAnswer(chunks, t.name, seen + {l});
        } else if AsTransfer(t) != Nowhere {
          GivesAt(chunks, k, t);
        }
      case None =>
        if k + 1 < |chunks| { WalkIsAnswer(chunks, chunks[k + 1].name, seen + {l}); }
    }
  }

  ghost predicate Gives(chunks: seq<Chunk>, c: Chunk, t: Transfer) {
    c in chunks && Answers(c) && Answer(c) == t
  }

  lemma GivesAt(chunks: seq<Chunk>, k: nat, t: TextLine)
    requires k < |chunks| && Reaction(chunks[k].code) == Some(t) && AsTransfer(t) != Nowhere
    ensures Gives(chunks, chunks[k], AsTransfer(t))
  {}

  /** A re-layout gives no other answers. */
  lemma GivesSame(a: seq<Chunk>, ts: set<nat>, exit: Name, b: seq<Chunk>, c: Chunk, t: Transfer)
    requires Relayout(a, ts, exit, b) && Gives(b, c, t)
    ensures exists d :: Gives(a, d, t)
  {
    hide Relayout;
    var j: nat :| j < |b| && b[j] == c;
    var k := BlockAt(a, ts, exit, b, j);
    assert Gives(a, a[k], t);
  }

  lemma OwnWalkIsAnswer(pre: seq<TextLine>, a: seq<Chunk>, l: Name)
    requires LabelFree(pre) && Proper(a)
    ensures var t := WalkOf(Listing(pre, a), l); t == Nowhere || exists c :: Gives(a, c, t)
  {
    hide WalkOf, Listing, Gives, LabelFree;
    ListingWalk(pre, a, l);
    WalkIsAnswer(a, l, {});
  }

  lemma WalkOfIsAnswer(pre: seq<TextLine>, a: seq<Chunk>, ts: set<nat>, exit: Name, b: seq<Chunk>, l: Name)
    requires LabelFree(pre) && Proper(a) && Relayout(a, ts, exit, b)
    ensures var t := WalkOf(Listing(pre, b), l); t == Nowhere || exists c :: Gives(a, c, t)
  {
    hide WalkOf, Listing, Gives, LabelFree, Relayout, Proper;
    RelayoutProper(a, ts, exit, b);
    OwnWalkIsAnswer(pre, b, l);
    var t := WalkOf(Listing(pre, b), l);
    if c :| Gives(b, c, t) { GivesSame(a, ts, exit, b, c, t); }
  }

  /** What the two orders say of each label. */
  lemma DriftWalks(pre: seq<TextLine>, a: seq<Chunk>, ts: set<nat>, exit: Name, k: nat, b: seq<Chunk>, p: nat,
                   b': seq<Chunk>, p': nat, l: Name)
    requires LabelFree(pre) && Drift(a, ts, exit, k, b, p, b', p')
    ensures if FirstOpen(a, ts, exit, l, {}).Some?
            then WalkOf(Listing(pre, b), l) == Answer(a[k]) && WalkOf(Listing(pre, b'), l) == Nowhere
            else WalkOf(Listing(pre, b), l) == WalkOf(Listing(pre, b'), l)
  {
    hide LabelFree, Proper, Names, FirstOpen, Listing, WalkOf, Relayout, Answer, Answers, OpenRowBefore, OpenRowLast;
    ListingWalk(pre, b, l);
    ListingWalk(pre, b', l);
    if FirstOpen(a, ts, exit, l, {}).Some? {
      WalksPart(a, ts, exit, k, b, p, b', p', l, {});
    } else {
      WalkKept(a, ts, exit, b, l, {});
      WalkKept(a, ts, exit, b', l, {});
    }
  }

  /** Whatever jumps are added, the first transfer of a label is the same in all orders exactly when the walk
      from it meets no open block, or no block of the listing answers. */
  lemma WalkFixedIff(pre: seq<TextLine>, a: seq<Chunk>, ts: set<nat>, exit: Name, l: Name)
    requires LabelFree(pre) && Proper(a) && exit !in Names(a)
    ensures (forall b | Relayout(a, ts, exit, b) :: SameWalk(pre, a, b, l))
       <==> FirstOpen(a, ts, exit, l, {}).None? || forall c | c in a :: !Answers(c)
  {
    hide Relayout, LabelFree, Proper, Names, FirstOpen, Listing, WalkOf, Reaction;
    if FirstOpen(a, ts, exit, l, {}).None? {
      forall b | Relayout(a, ts, exit, b) ensures SameWalk(pre, a, b, l) { RelayoutWalk(pre, a, ts, exit, b, l); }
    } else if k: nat :| k < |a| && Answers(a[k]) {
      WalkDrifts(pre, a, ts, exit, l, k);
    } else {
      forall b | Relayout(a, ts, exit, b) ensures SameWalk(pre, a, b, l) {
        OwnWalkIsAnswer(pre, a, l);
        WalkOfIsAnswer(pre, a, ts, exit, b, l);
      }
    }
  }

  lemma WalkDrifts(pre: seq<TextLine>, a: seq<Chunk>, ts: set<nat>, exit: Name, l: Name, k: nat)
    requires LabelFree(pre) && Proper(a) && exit !in Names(a) && k < |a| && Answers(a[k])
    requires FirstOpen(a, ts, exit, l, {}).Some?
    ensures exists b :: Relayout(a, ts, exit, b) && !SameWalk(pre, a, b, l)
  {
    hide Relayout, LabelFree, Proper, Names, FirstOpen, Listing, WalkOf, Reaction, AsTransfer;
    var b, p, b', p' := DriftExists(a, ts, exit, k);
    DriftWalks(pre, a, ts, exit, k, b, p, b', p', l);
    assert !SameWalk(pre, a, b, l) || !SameWalk(pre, a, b', l);
  }

  /** The block makes a conditional jump to it a guard. */
  ghost predicate Panics(c: Chunk, panics: Name -> bool) {
    Answers(c) && IsGuard(Answer(c), panics)
  }

  /** Whatever jumps are added, the guard-branch total is the same in all orders exactly when no conditional jump
      goes to a label from which the walk meets an open block, or no block panics. */
  lemma GuardsFixedIff(pre: seq<TextLine>, a: seq<Chunk>, ts: set<nat>, exit: Name, panics: Name -> bool)
    requires LabelFree(pre) && Proper(a) && exit !in Names(a)
    ensures (forall b | Relayout(a, ts, exit, b) :: SameGuards(pre, a, b, panics))
       <==> (forall l | CondTo(l) in Listing(pre, a) :: FirstOpen(a, ts, exit, l, {}).None?) ||
            forall c | c in a :: !Panics(c, panics)
  {
    hide Relayout, LabelFree, Proper, Names, FirstOpen, Listing, WalkOf, Reaction, Guards;
    if forall l | CondTo(l) in Listing(pre, a) :: FirstOpen(a, ts, exit, l, {}).None? {
      forall b | Relayout(a, ts, exit, b) ensures SameGuards(pre, a, b, panics) {
        forall l | CondTo(l) in Listing(pre, a) ensures SameWalk(pre, a, b, l) {
          RelayoutWalk(pre, a, ts, exit, b, l);
        }
        GuardsFollowWalks(pre, a, ts, exit, b, panics);
      }
    } else if k: nat :| k < |a| && Panics(a[k], panics) {
      var l :| CondTo(l) in Listing(pre, a) && FirstOpen(a, ts, exit, l, {}).Some?;
      GuardsDrift(pre, a, ts, exit, l, k, panics);
    } else {
      forall b | Relayout(a, ts, exit, b) ensures SameGuards(pre, a, b, panics) {
        forall l ensures !IsGuard(WalkOf(Listing(pre, a), l), panics) && !IsGuard(WalkOf(Listing(pre, b), l), panics) {
          OwnWalkIsAnswer(pre, a, l);
          WalkOfIsAnswer(pre, a, ts, exit, b, l);
        }
        GuardsFollowWalks(pre, a, ts, exit, b, panics);
      }
    }
  }

  /** With all open blocks before the panicking one there are more guards than with all of them at the end. */
  lemma GuardsDrift(pre: seq<TextLine>, a: seq<Chunk>, ts: set<nat>, exit: Name, l: Name, k: nat, panics: Name -> bool)
    requires LabelFree(pre) && Proper(a) && exit !in Names(a) && k < |a| && Panics(a[k], panics)
    requires CondTo(l) in Listing(pre, a) && FirstOpen(a, ts, exit, l, {}).Some?
    ensures exists b :: Relayout(a, ts, exit, b) && !SameGuards(pre, a, b, panics)
  {
    hide Relayout, LabelFree, Proper, Names, FirstOpen, Listing, WalkOf, Reaction, AsTransfer;
    var b, p, b', p' := DriftExists(a, ts, exit, k);
    forall x ensures if FirstOpen(a, ts, exit, x, {}).Some?
            then WalkOf(Listing(pre, b), x) == Answer(a[k]) && WalkOf(Listing(pre, b'), x) == Nowhere
            else WalkOf(Listing(pre, b), x) == WalkOf(Listing(pre, b'), x)
    {
      DriftWalks(pre, a, ts, exit, k, b, p, b', p', x);
    }
    var f := x => IsGuard(WalkOf(Listing(pre, b'), x), panics);
    var g := x => IsGuard(WalkOf(Listing(pre, b), x), panics);
    SameConds(pre, a, ts, exit, b', f);
    SameConds(pre, a, ts, exit, b, g);
    CondsToFewer(Listing(pre, a), f, g, l);
    assert !SameGuards(pre, a, b, panics) || !SameGuards(pre, a, b', panics);
  }
}
