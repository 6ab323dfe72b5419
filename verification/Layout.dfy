/** The guard-branch count of tools/panic_census.py, and its walk read off the labelled blocks of the
    listing instead of the lines. */
module Layout {
  import opened Asm
  import opened GuardWalk

  // ----- the count -----

  /** How many conditional jumps in `ls` go to one of the given targets. */
  function CondsTo(ls: seq<TextLine>, guards: Name -> bool): nat {
    if ls == [] then 0 else
      var t := ls[|ls| - 1];
      CondsTo(ls[..|ls| - 1], guards) + if t.CondTo? && guards(t.name) then 1 else 0
  }

  predicate IsGuard(t: Transfer, panics: Name -> bool) {
    t.Call? && panics(t.op)
  }

  function WalkOf(lines: seq<TextLine>, l: Name): Transfer {
    Walk(lines, LabelLines(lines), l, {})
  }

  /** The number `main` prints as `total`; `panics` is its pattern of panic symbols. */
  function Guards(lines: seq<TextLine>, panics: Name -> bool): nat {
    CondsTo(lines, l => IsGuard(WalkOf(lines, l), panics))
  }

  /** The conditional jumps whose target's first transfer is a call of a panic symbol. */
  ghost function GuardLines(lines: seq<TextLine>, panics: Name -> bool): set<int> {
    set i | 0 <= i < |lines| && lines[i].CondTo? &&
      exists op :: panics(op) && Walk(lines, LabelLines(lines), lines[i].name, {}) == Call(op)
  }

  lemma GuardsCounted(lines: seq<TextLine>, panics: Name -> bool)
    ensures Guards(lines, panics) == |GuardLines(lines, panics)|
  {
    hide CondsTo, Walk, LabelLines;
    var f := l => IsGuard(WalkOf(lines, l), panics);
    CondsCounted(lines, f);
    assert GuardLines(lines, panics) == set i | 0 <= i < |lines| && lines[i].CondTo? && f(lines[i].name);
  }

  lemma {:induction false} CondsCounted(ls: seq<TextLine>, f: Name -> bool)
    ensures CondsTo(ls, f) == |set i | 0 <= i < |ls| && ls[i].CondTo? && f(ls[i].name)|
  {
    var all := set i | 0 <= i < |ls| && ls[i].CondTo? && f(ls[i].name);
    if ls == [] {
      assert all == {};
    } else {
      var n := |ls| - 1;
      var front := ls[..n];
      CondsCounted(front, f);
      var before := set i | 0 <= i < |front| && front[i].CondTo? && f(front[i].name);
      assert all == before + if ls[n].CondTo? && f(ls[n].name) then {n} else {};
    }
  }

  /** The jump goes to a known label from which execution first arrives at a call of a panic symbol. */
  ghost predicate RunsIntoPanic(lines: seq<TextLine>, l: Name, panics: Name -> bool) {
    var at := LabelLines(lines);
    l in at && exists op :: panics(op) && Arrives(lines, at, at[l], Call(op))
  }

  /** Where the walk is execution, the total counts the conditional jumps whose execution runs into a panic. */
  lemma GuardsAreExecuted(lines: seq<TextLine>, panics: Name -> bool)
    requires AllRecorded(lines) && AllClear(lines)
    ensures Guards(lines, panics) ==
            |set i | 0 <= i < |lines| && lines[i].CondTo? && RunsIntoPanic(lines, lines[i].name, panics)|
  {
    hide Guards, Walk, LabelLines, Arrives, AllRecorded, AllClear;
    GuardsCounted(lines, panics);
    forall l ensures RunsIntoPanic(lines, l, panics) <==>
                     exists op :: panics(op) && Walk(lines, LabelLines(lines), l, {}) == Call(op)
    {
      CallIsExecuted(lines, l);
    }
    assert GuardLines(lines, panics) ==
           set i | 0 <= i < |lines| && lines[i].CondTo? && RunsIntoPanic(lines, lines[i].name, panics);
  }

  lemma CallIsExecuted(lines: seq<TextLine>, l: Name)
    requires AllRecorded(lines) && AllClear(lines)
    ensures var at := LabelLines(lines);
            forall op :: Walk(lines, at, l, {}) == Call(op) <==> l in at && Arrives(lines, at, at[l], Call(op))
  {
    hide LabelLines, AllRecorded, AllClear, FallsOnRecorded, PathClear;
    var at := LabelLines(lines);
    if l in at {
      AllRecordedPath(lines, at, l, {});
      AllClearPath(lines, at, l, {});
      WalkIsExecutionIff(lines, l);
      forall op | Arrives(lines, at, at[l], Call(op)) ensures Walk(lines, at, l, {}) == Call(op) {
        AgreesDetermines(lines, at, at[l], Call(op), Walk(lines, at, l, {}));
      }
    }
  }

  method CountGuards(lines: seq<TextLine>, panics: Name -> bool) returns (total: nat)
    ensures total == Guards(lines, panics)
    ensures total == |GuardLines(lines, panics)|
  {
    GuardsCounted(lines, panics);
    var at := Parse(lines);
    var guards := l => IsGuard(WalkOf(lines, l), panics);
    total := 0;
    for i := 0 to |lines|
      invariant total == CondsTo(lines[..i], guards)
    {
      assert lines[..i + 1][..i] == lines[..i];
      if lines[i].CondTo? {
        var t := FirstTransfer(lines, at, lines[i].name, {});
        if t.Call? && panics(t.op) {
          total := total + 1;
        }
      }
    }
    assert lines[..|lines|] == lines;
    CondsToSame(lines, guards, l => IsGuard(WalkOf(lines, l), panics));
  }

  lemma {:induction false} CondsToSame(ls: seq<TextLine>, f: Name -> bool, g: Name -> bool)
    requires forall l :: f(l) == g(l)
    ensures CondsTo(ls, f) == CondsTo(ls, g)
  {
    if ls != [] { CondsToSame(ls[..|ls| - 1], f, g); }
  }

  lemma {:induction false} CondsToSameOn(ls: seq<TextLine>, f: Name -> bool, g: Name -> bool)
    requires forall l | CondTo(l) in ls :: f(l) == g(l)
    ensures CondsTo(ls, f) == CondsTo(ls, g)
  {
    if ls != [] { CondsToSameOn(ls[..|ls| - 1], f, g); }
  }

  lemma {:induction false} CondsToFewer(ls: seq<TextLine>, f: Name -> bool, g: Name -> bool, l: Name)
    requires forall x :: f(x) ==> g(x)
    ensures CondsTo(ls, f) <= CondsTo(ls, g)
    ensures CondTo(l) in ls && !f(l) && g(l) ==> CondsTo(ls, f) < CondsTo(ls, g)
  {
    if ls != [] { CondsToFewer(ls[..|ls| - 1], f, g, l); }
  }

  lemma {:induction false} CondsToJoin(a: seq<TextLine>, b: seq<TextLine>, f: Name -> bool)
    ensures CondsTo(a + b, f) == CondsTo(a, f) + CondsTo(b, f)
  {
    if b == [] {
      assert a + b == a;
    } else {
      assert (a + b)[..|a + b| - 1] == a + b[..|b| - 1];
      CondsToJoin(a, b[..|b| - 1], f);
    }
  }

  // ----- a text as labelled blocks -----

  datatype Chunk = Chunk(name: Name, code: seq<TextLine>)

  /** Code holds no label lines and names are distinct. */
  ghost predicate Proper(chunks: seq<Chunk>) {
    && (forall k, i | 0 <= k < |chunks| && 0 <= i < |chunks[k].code| :: !chunks[k].code[i].LabelAt?)
    && forall j, k | 0 <= j < |chunks| && 0 <= k < |chunks| && chunks[j].name == chunks[k].name :: j == k
  }

  function ChunkLines(c: Chunk): (ls: seq<TextLine>)
    ensures |ls| == 1 + |c.code|
  {
    [LabelAt(c.name)] + c.code
  }

  function Text(chunks: seq<Chunk>): seq<TextLine> {
    if chunks == [] then [] else Text(chunks[..|chunks| - 1]) + ChunkLines(chunks[|chunks| - 1])
  }

  function Names(chunks: seq<Chunk>): set<Name> {
    set c | c in chunks :: c.name
  }

  /** The first line of some code that the walk reacts to. */
  function Reaction(code: seq<TextLine>): Option<TextLine> {
    if code == [] then None else if !Skipped(code[0]) then Some(code[0]) else Reaction(code[1..])
  }

  /** The walk read off the blocks instead of the lines. */
  ghost function BlockWalk(chunks: seq<Chunk>, l: Name, seen: set<Name>): Transfer
    decreases Names(chunks) - seen
  {
    if l in seen || !exists k :: 0 <= k < |chunks| && chunks[k].name == l then Nowhere else
      var k: nat :| k < |chunks| && chunks[k].name == l;
      assert chunks[k] in chunks && l in Names(chunks) - seen;
      match Reaction(chunks[k].code)
      case None => if k + 1 == |chunks| then Nowhere else BlockWalk(chunks, chunks[k + 1].name, seen + {l})
      case Some(t) => if t.JumpTo? || t.LabelAt? then BlockWalk(chunks, t.name, seen + {l}) else AsTransfer(t)
  }

  /** The unfolding of `BlockWalk` at a block whose index is known. */
  lemma BlockWalkAt(chunks: seq<Chunk>, k: nat, seen: set<Name>)
    requires Proper(chunks) && k < |chunks| && chunks[k].name !in seen
    ensures BlockWalk(chunks, chunks[k].name, seen) ==
      match Reaction(chunks[k].code)
      case None =>
        (if k + 1 == |chunks| then Nowhere else BlockWalk(chunks, chunks[k + 1].name, seen + {chunks[k].name}))
      case Some(t) =>
        (if t.JumpTo? || t.LabelAt? then BlockWalk(chunks, t.name, seen + {chunks[k].name}) else AsTransfer(t))
  {}

  lemma BlockWalkNowhere(chunks: seq<Chunk>, l: Name, seen: set<Name>)
    requires l in seen || forall k | 0 <= k < |chunks| :: chunks[k].name != l
    ensures BlockWalk(chunks, l, seen) == Nowhere
  {}

  // ----- where the blocks are in the text -----

  lemma {:induction false} TextPrefix(chunks: seq<Chunk>, k: nat)
    requires k <= |chunks|
    ensures Text(chunks[..k]) <= Text(chunks)
    decreases |chunks| - k
  {
    if k == |chunks| {
      assert chunks[..k] == chunks;
    } else {
      assert chunks[..k + 1][..k] == chunks[..k];
      TextPrefix(chunks, k + 1);
    }
  }

  function StartOf(chunks: seq<Chunk>, k: nat): nat
    requires k <= |chunks|
  {
    |Text(chunks[..k])|
  }

  lemma ChunkAt(chunks: seq<Chunk>, k: nat)
    requires k < |chunks|
    ensures StartOf(chunks, k + 1) == StartOf(chunks, k) + 1 + |chunks[k].code| <= |Text(chunks)|
    ensures Text(chunks)[StartOf(chunks, k)] == LabelAt(chunks[k].name)
    ensures Text(chunks)[StartOf(chunks, k) + 1..StartOf(chunks, k + 1)] == chunks[k].code
  {
    hide Text;
    TextSnoc(chunks, k);
    TextPrefix(chunks, k + 1);
    Infix(Text(chunks), Text(chunks[..k]), ChunkLines(chunks[k]));
  }

  lemma TextSnoc(chunks: seq<Chunk>, k: nat)
    requires k < |chunks|
    ensures Text(chunks[..k + 1]) == Text(chunks[..k]) + ChunkLines(chunks[k])
  {
    assert chunks[..k + 1][..k] == chunks[..k];
  }

  lemma Infix(ls: seq<TextLine>, p: seq<TextLine>, c: seq<TextLine>)
    requires p + c <= ls && |c| > 0
    ensures ls[|p|] == c[0] && ls[|p| + 1..|p| + |c|] == c[1..]
  {
    assert ls[..|p + c|] == p + c;
    assert (p + c)[|p|] == c[0] && (p + c)[|p| + 1..] == c[1..];
    assert ls[|p| + 1..|p| + |c|] == ls[..|p + c|][|p| + 1..];
  }

  lemma StartOfAll(chunks: seq<Chunk>)
    ensures StartOf(chunks, |chunks|) == |Text(chunks)|
  {
    assert chunks[..|chunks|] == chunks;
  }

  lemma CodeLineAt(chunks: seq<Chunk>, k: nat, i: nat)
    requires Proper(chunks) && k < |chunks| && StartOf(chunks, k) < i < StartOf(chunks, k + 1) <= |Text(chunks)|
    ensures !Text(chunks)[i].LabelAt?
  {
    ChunkAt(chunks, k);
    var s := StartOf(chunks, k);
    assert Text(chunks)[i] == Text(chunks)[s + 1..StartOf(chunks, k + 1)][i - s - 1];
  }

  /** Every label line of the text heads one of the blocks. */
  lemma {:induction false} LabelLineIsHead(chunks: seq<Chunk>, n: nat, i: nat) returns (k: nat)
    requires Proper(chunks) && n <= |chunks| && i < StartOf(chunks, n) && StartOf(chunks, n) <= |Text(chunks)|
    requires Text(chunks)[i].LabelAt?
    ensures k < n && i == StartOf(chunks, k)
    decreases n
  {
    assert n > 0 by { assert chunks[..0] == []; }
    ChunkAt(chunks, n - 1);
    var s := StartOf(chunks, n - 1);
    assert i <= s by {
      if i > s { CodeLineAt(chunks, n - 1, i); }
    }
    if i == s {
      k := n - 1;
    } else {
      k := LabelLineIsHead(chunks, n - 1, i);
    }
  }

  lemma LabelOfChunk(chunks: seq<Chunk>, k: nat)
    requires Proper(chunks) && k < |chunks|
    ensures chunks[k].name in LabelLines(Text(chunks)) && LabelLines(Text(chunks))[chunks[k].name] == StartOf(chunks, k)
  {
    ChunkAt(chunks, k);
    StartOfAll(chunks);
    var i := LabelLines(Text(chunks))[chunks[k].name];
    var j := LabelLineIsHead(chunks, |chunks|, i);
    ChunkAt(chunks, j);
  }

  lemma LabelHasChunk(chunks: seq<Chunk>, l: Name) returns (k: nat)
    requires Proper(chunks) && l in LabelLines(Text(chunks))
    ensures k < |chunks| && chunks[k].name == l
  {
    StartOfAll(chunks);
    k := LabelLineIsHead(chunks, |chunks|, LabelLines(Text(chunks))[l]);
    ChunkAt(chunks, k);
  }

  /** Scanning over some code that sits in a text. */
  lemma {:induction false} ScanCode(lines: seq<TextLine>, i: nat, code: seq<TextLine>)
    requires i + |code| <= |lines| && lines[i..i + |code|] == code
    ensures match Reaction(code)
            case None => Scan(lines, i) == Scan(lines, i + |code|)
            case Some(t) => Scan(lines, i) < i + |code| && lines[Scan(lines, i)] == t
    decreases |code|
  {
    if code != [] {
      assert lines[i] == code[0];
      assert lines[i + 1..i + 1 + |code[1..]|] == code[1..];
      if Skipped(code[0]) { ScanCode(lines, i + 1, code[1..]); }
    }
  }

  /** The walk over the lines is the walk over the blocks. */
  lemma {:induction false} WalkIsBlockWalk(chunks: seq<Chunk>, l: Name, seen: set<Name>)
    requires Proper(chunks)
    ensures Walk(Text(chunks), LabelLines(Text(chunks)), l, seen) == BlockWalk(chunks, l, seen)
    decreases Names(chunks) - seen
  {
    hide LabelLines, Text, Proper, Names, Reaction, Scan, AsTransfer, StartOf, Walk, BlockWalk;
    var lines := Text(chunks);
    var at := LabelLines(lines);
    if l in at && l !in seen {
      var k := LabelHasChunk(chunks, l);
      LabelOfChunk(chunks, k);
      ChunkAt(chunks, k);
      BlockWalkAt(chunks, k, seen);
      WalkAt(lines, at, l, seen, Scan(lines, at[l] + 1));
      ScanCode(lines, StartOf(chunks, k) + 1, chunks[k].code);
      NameOf(chunks, k);
      assert l in Names(chunks) - seen;
      match Reaction(chunks[k].code)
      case Some(t) =>
        if t.JumpTo? || t.LabelAt? { WalkIsBlockWalk(chunks, t.name, seen + {l}); }
      case None =>
        if k + 1 == |chunks| {
          StartOfAll(chunks);
        } else {
          ChunkAt(chunks, k + 1);
          WalkIsBlockWalk(chunks, chunks[k + 1].name, seen + {l});
        }
    } else {
      WalkNowhere(lines, at, l, seen);
      if l !in seen { NoChunk(chunks, l); }
      BlockWalkNowhere(chunks, l, seen);
    }
  }

  lemma NameOf(chunks: seq<Chunk>, k: nat)
    requires k < |chunks|
    ensures chunks[k].name in Names(chunks)
  {}

  lemma NoChunk(chunks: seq<Chunk>, l: Name)
    requires Proper(chunks) && l !in LabelLines(Text(chunks))
    ensures forall k | 0 <= k < |chunks| :: chunks[k].name != l
  {
    forall k | 0 <= k < |chunks| ensures chunks[k].name != l {
      LabelOfChunk(chunks, k);
    }
  }

  // ----- lines before the first label -----

  /** The listing as a whole: lines before any label, then the blocks. */
  function Listing(pre: seq<TextLine>, chunks: seq<Chunk>): seq<TextLine> {
    pre + Text(chunks)
  }

  ghost predicate LabelFree(pre: seq<TextLine>) {
    forall i | 0 <= i < |pre| :: !pre[i].LabelAt?
  }

  /** Every text is a listing, and its blocks are proper if no label is repeated. */
  lemma EveryTextIsListing(lines: seq<TextLine>) returns (pre: seq<TextLine>, chunks: seq<Chunk>)
    ensures lines == Listing(pre, chunks) && LabelFree(pre)
    ensures UniqueLabels(lines) ==> Proper(chunks)
  {
    pre, chunks := CutListing(lines);
    if UniqueLabels(lines) {
      forall j, k | 0 <= j < k < |chunks| ensures chunks[j].name != chunks[k].name {
        ChunkAt(chunks, j);
        ChunkAt(chunks, k);
        StartsGrow(chunks, j, k);
        assert lines[|pre| + StartOf(chunks, j)] == LabelAt(chunks[j].name);
        assert lines[|pre| + StartOf(chunks, k)] == LabelAt(chunks[k].name);
      }
    }
  }

  lemma {:induction false} CutListing(lines: seq<TextLine>) returns (pre: seq<TextLine>, chunks: seq<Chunk>)
    ensures lines == pre + Text(chunks) && LabelFree(pre)
    ensures forall k, i | 0 <= k < |chunks| && 0 <= i < |chunks[k].code| :: !chunks[k].code[i].LabelAt?
  {
    pre, chunks := [], [];
    if lines != [] {
      var n := |lines| - 1;
      pre, chunks := CutListing(lines[..n]);
      var t := lines[n];
      assert lines == lines[..n] + [t];
      if !t.LabelAt? && chunks == [] {
        pre := pre + [t];
      } else {
        TextAdd(chunks, t);
        assert pre + Text(chunks) + [t] == pre + Text(AddLine(chunks, t));
        chunks := AddLine(chunks, t);
      }
    }
  }

  /** A label opens a block, any other line belongs to the last one. */
  function AddLine(chunks: seq<Chunk>, t: TextLine): seq<Chunk>
    requires t.LabelAt? || chunks != []
  {
    if t.LabelAt? then chunks + [Chunk(t.name, [])] else
      var m := |chunks| - 1;
      chunks[..m] + [Chunk(chunks[m].name, chunks[m].code + [t])]
  }

  lemma TextAdd(chunks: seq<Chunk>, t: TextLine)
    requires t.LabelAt? || chunks != []
    ensures Text(AddLine(chunks, t)) == Text(chunks) + [t]
  {
    var m := |chunks| - 1;
    var r := AddLine(chunks, t);
    if t.LabelAt? {
      assert r[..|r| - 1] == chunks;
    } else {
      assert r[..|r| - 1] == chunks[..m];
      assert ChunkLines(r[m]) == ChunkLines(chunks[m]) + [t];
    }
  }

  lemma {:induction false} StartsGrow(chunks: seq<Chunk>, j: nat, k: nat)
    requires j < k <= |chunks|
    ensures StartOf(chunks, j) < StartOf(chunks, k)
  {
    ChunkAt(chunks, k - 1);
    if j < k - 1 { StartsGrow(chunks, j, k - 1); }
  }

  /** The same labels, each `d` lines later. */
  ghost predicate ShiftedBy(at: map<Name, nat>, at': map<Name, nat>, d: nat) {
    at.Keys == at'.Keys && forall l | l in at :: at'[l] == d + at[l]
  }

  lemma {:induction false} LabelsBehind(pre: seq<TextLine>, ls: seq<TextLine>)
    requires LabelFree(pre)
    ensures ShiftedBy(LabelLines(ls), LabelLines(pre + ls), |pre|)
  {
    hide *;
    if ls == [] {
      assert pre + ls == pre;
      NoLabels(pre);
      NoneIsFree(ls);
      NoLabels(ls);
      ShiftNone(|pre|);
    } else {
      var n := |ls| - 1;
      var front, t := ls[..n], ls[n];
      var whole := pre + front;
      LabelsBehind(pre, front);
      assert ls == front + [t];
      assert pre + ls == whole + [t];
      LabelLinesSnoc(front, t);
      LabelLinesSnoc(whole, t);
      if t.LabelAt? { ShiftOne(LabelLines(front), LabelLines(whole), |pre|, t.name, n); }
    }
  }

  lemma NoneIsFree(ls: seq<TextLine>)
    requires ls == []
    ensures LabelFree(ls)
  {}

  lemma ShiftNone(d: nat)
    ensures ShiftedBy(map[], map[], d)
  {}

  lemma ShiftOne(at: map<Name, nat>, at': map<Name, nat>, d: nat, l: Name, i: nat)
    requires ShiftedBy(at, at', d)
    ensures ShiftedBy(at[l := i], at'[l := d + i], d)
  {}

  lemma LabelLinesSnoc(ls: seq<TextLine>, t: TextLine)
    ensures LabelLines(ls + [t]) == if t.LabelAt? then LabelLines(ls)[t.name := |ls|] else LabelLines(ls)
  {
    assert (ls + [t])[..|ls|] == ls;
  }

  lemma {:induction false} NoLabels(pre: seq<TextLine>)
    requires LabelFree(pre)
    ensures LabelLines(pre) == map[]
  {
    if pre != [] { NoLabels(pre[..|pre| - 1]); }
  }

  lemma {:induction false} ScanBehind(pre: seq<TextLine>, ls: seq<TextLine>, i: nat)
    requires i <= |ls|
    ensures Scan(pre + ls, |pre| + i) == |pre| + Scan(ls, i)
    decreases |ls| - i
  {
    if i < |ls| { ScanBehind(pre, ls, i + 1); }
  }

  lemma LabelBehind(pre: seq<TextLine>, ls: seq<TextLine>, l: Name)
    requires LabelFree(pre)
    ensures var at, at' := LabelLines(ls), LabelLines(pre + ls);
            (l in at' <==> l in at) && (l in at ==> at'[l] == |pre| + at[l])
  {
    hide LabelLines, LabelFree;
    LabelsBehind(pre, ls);
    assert l in LabelLines(pre + ls) <==> l in LabelLines(ls).Keys;
  }

  lemma {:induction false} WalkBehind(pre: seq<TextLine>, ls: seq<TextLine>, l: Name, seen: set<Name>)
    requires LabelFree(pre)
    ensures Walk(pre + ls, LabelLines(pre + ls), l, seen) == Walk(ls, LabelLines(ls), l, seen)
    decreases LabelLines(ls).Keys - seen
  {
    hide *;
    var at, whole := LabelLines(ls), pre + ls;
    var at' := LabelLines(whole);
    LabelBehind(pre, ls, l);
    if l in at && l !in seen {
      var i := Scan(ls, at[l] + 1);
      ScanBehind(pre, ls, at[l] + 1);
      WalkAt(ls, at, l, seen, i);
      WalkAt(whole, at', l, seen, |pre| + i);
      assert i < |ls| ==> whole[|pre| + i] == ls[i];
      if i < |ls| && (ls[i].LabelAt? || ls[i].JumpTo?) {
        assert l in at.Keys - seen;
        WalkBehind(pre, ls, ls[i].name, seen + {l});
      }
    } else {
      WalkNowhere(ls, at, l, seen);
      WalkNowhere(whole, at', l, seen);
    }
  }

  /** The walk over a whole listing is the walk over its blocks. */
  lemma ListingWalk(pre: seq<TextLine>, chunks: seq<Chunk>, l: Name)
    requires LabelFree(pre) && Proper(chunks)
    ensures WalkOf(Listing(pre, chunks), l) == BlockWalk(chunks, l, {})
  {
    WalkBehind(pre, Text(chunks), l, {});
    WalkIsBlockWalk(chunks, l, {});
  }
}
