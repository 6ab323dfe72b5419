/** `first_transfer` (tools/panic_census.py), which reads off the text where control goes from a label, and
    its agreement with execution. */
module GuardWalk {
  import opened Asm

  type Name = string

  /** A line of the listing under the first pattern it meets, in the order the walk tries them. The last
      two meet no pattern. `Pass` covers blank lines, directives and instructions after which control goes
      on to the next line. `Unseen` is a control transfer that every pattern misses: `callq *%rax`, after
      which control may come back to the next line (`falls`), or `jmpq *%rax`, after which it does not. */
  datatype TextLine =
    | LabelAt(name: Name)
    | JumpTo(name: Name)
    | CallTo(op: Name)
    | CondTo(name: Name)
    | StopAt(op: Name)
    | Unseen(falls: bool)
    | Pass

  /** `Nowhere` is ("end", None). `Unknown` is met by execution only, at an unseen transfer. */
  datatype Transfer = Call(op: Name) | Cond(target: Name) | Stop(op: Name) | Unknown(falls: bool) | Nowhere

  // ----- parse -----

  /** `label_at`; of a repeated label the last line counts. */
  function LabelLines(lines: seq<TextLine>): (at: map<Name, nat>)
    ensures forall l | l in at :: at[l] < |lines| && lines[at[l]] == LabelAt(l)
    ensures forall i | 0 <= i < |lines| && lines[i].LabelAt? :: lines[i].name in at && at[lines[i].name] >= i
  {
    if lines == [] then map[] else
      var n := |lines| - 1;
      var at := LabelLines(lines[..n]);
      if lines[n].LabelAt? then at[lines[n].name := n] else at
  }

  method Parse(lines: seq<TextLine>) returns (at: map<Name, nat>)
    ensures at == LabelLines(lines)
  {
    at := map[];
    for i := 0 to |lines|
      invariant at == LabelLines(lines[..i])
    {
      assert lines[..i + 1][..i] == lines[..i];
      if lines[i].LabelAt? {
        at := at[lines[i].name := i];
      }
    }
    assert lines[..|lines|] == lines;
  }

  // ----- the walk -----

  /** The scan steps over a line that meets no pattern, whether or not it transfers control. */
  predicate Skipped(t: TextLine) {
    t.Pass? || t.Unseen?
  }

  /** The first line at or after `i` that the scan reacts to. */
  function Scan(lines: seq<TextLine>, i: nat): (j: nat)
    requires i <= |lines|
    ensures i <= j <= |lines| && (j < |lines| ==> !Skipped(lines[j]))
    ensures forall k | i <= k < j :: Skipped(lines[k])
    decreases |lines| - i
  {
    if i == |lines| || !Skipped(lines[i]) then i else Scan(lines, i + 1)
  }

  function AsTransfer(t: TextLine): Transfer {
    match t
    case CallTo(op) => Call(op)
    case CondTo(l) => Cond(l)
    case StopAt(op) => Stop(op)
    case Unseen(falls) => Unknown(falls)
    case _ => Nowhere
  }

  function Walk(lines: seq<TextLine>, at: map<Name, nat>, l: Name, seen: set<Name>): Transfer
    requires forall n | n in at :: at[n] < |lines|
    decreases at.Keys - seen
  {
    if l in seen || l !in at then Nowhere else
      var i := Scan(lines, at[l] + 1);
      if i == |lines| then Nowhere
      else if lines[i].LabelAt? || lines[i].JumpTo? then
        assert l in at.Keys - seen;
        Walk(lines, at, lines[i].name, seen + {l})
      else AsTransfer(lines[i])
  }

  /** One turn of the walk, from a label whose next line of interest is known. */
  lemma WalkAt(lines: seq<TextLine>, at: map<Name, nat>, l: Name, seen: set<Name>, i: nat)
    requires (forall n | n in at :: at[n] < |lines|) && l in at && l !in seen && i == Scan(lines, at[l] + 1)
    ensures Walk(lines, at, l, seen) ==
            if i == |lines| then Nowhere
            else if lines[i].LabelAt? || lines[i].JumpTo? then Walk(lines, at, lines[i].name, seen + {l})
            else AsTransfer(lines[i])
  {}

  lemma WalkNowhere(lines: seq<TextLine>, at: map<Name, nat>, l: Name, seen: set<Name>)
    requires (forall n | n in at :: at[n] < |lines|) && (l in seen || l !in at)
    ensures Walk(lines, at, l, seen) == Nowhere
  {}

  /** The function as written: an index scan that recurses at a label or a jump. */
  method FirstTransfer(lines: seq<TextLine>, at: map<Name, nat>, l: Name, seen: set<Name>) returns (t: Transfer)
    requires forall n | n in at :: at[n] < |lines|
    ensures t == Walk(lines, at, l, seen)
    decreases at.Keys - seen
  {
    if l in seen || l !in at {
      return Nowhere;
    }
    assert l in at.Keys - seen;
    var i := at[l] + 1;
    while i < |lines|
      invariant at[l] < i <= |lines| && Scan(lines, at[l] + 1) == Scan(lines, i)
    {
      match lines[i]
      case LabelAt(n) =>
        t := FirstTransfer(lines, at, n, seen + {l});
        return;
      case Pass =>
        i := i + 1;
      case Unseen(_) =>
        i := i + 1;
      case JumpTo(n) =>
        t := FirstTransfer(lines, at, n, seen + {l});
        return;
      case CallTo(op) => return Call(op);
      case CondTo(n) => return Cond(n);
      case StopAt(op) => return Stop(op);
    }
    t := Nowhere;
  }

  // ----- execution, one line at a time -----

  /** One step of execution. It stops at every control transfer that is not a direct jump, seen or not. */
  function Step(lines: seq<TextLine>, at: map<Name, nat>, pc: nat): Option<nat> {
    if pc >= |lines| then None else
      match lines[pc]
      case LabelAt(_) => Some(pc + 1)
      case Pass => Some(pc + 1)
      case JumpTo(l) => if l in at then Some(at[l]) else None
      case _ => None
  }

  function Run(lines: seq<TextLine>, at: map<Name, nat>, pc: nat, k: nat): Option<nat> {
    if k == 0 then Some(pc) else
      var r := Run(lines, at, pc, k - 1);
      if r.None? then None else Step(lines, at, r.value)
  }

  /** Execution from `pc` arrives at a line that transfers control, as `t`. */
  ghost predicate Arrives(lines: seq<TextLine>, at: map<Name, nat>, pc: nat, t: Transfer) {
    exists k: nat :: ArrivesIn(lines, at, pc, t, k)
  }

  /** The line transfers control as `t` says. */
  predicate Does(line: TextLine, t: Transfer) {
    match t
    case Call(op) => line == CallTo(op)
    case Cond(l) => line == CondTo(l)
    case Stop(op) => line == StopAt(op)
    case Unknown(falls) => line == Unseen(falls)
    case Nowhere => false
  }

  ghost predicate ArrivesIn(lines: seq<TextLine>, at: map<Name, nat>, pc: nat, t: Transfer, k: nat) {
    var r := Run(lines, at, pc, k);
    r.Some? && r.value < |lines| && Does(lines[r.value], t)
  }

  ghost predicate NeverArrives(lines: seq<TextLine>, at: map<Name, nat>, pc: nat) {
    forall t :: !Arrives(lines, at, pc, t)
  }

  ghost predicate UniqueLabels(lines: seq<TextLine>) {
    forall i, j | 0 <= i < j < |lines| && lines[i].LabelAt? && lines[j].LabelAt? :: lines[i].name != lines[j].name
  }

  lemma {:induction false} RunStops(lines: seq<TextLine>, at: map<Name, nat>, pc: nat, a: nat, b: nat)
    requires a <= b && Run(lines, at, pc, b).Some?
    ensures Run(lines, at, pc, a).Some?
    ensures a < b ==> Step(lines, at, Run(lines, at, pc, a).value).Some?
    decreases b - a
  {
    if a < b {
      RunStops(lines, at, pc, a + 1, b);
    }
  }

  /** A run that can go no further, short of a transfer, never arrives anywhere. */
  lemma DeadEnd(lines: seq<TextLine>, at: map<Name, nat>, pc: nat, k: nat, i: nat)
    requires Run(lines, at, pc, k) == Some(i) && Step(lines, at, i) == None
    requires i < |lines| ==> lines[i].LabelAt? || lines[i].JumpTo?
    ensures NeverArrives(lines, at, pc)
  {
    forall t, m: nat | ArrivesIn(lines, at, pc, t, m) ensures false {
      if m < k {
        RunStops(lines, at, pc, m, k);
      } else if m > k {
        RunStops(lines, at, pc, k, m);
      }
    }
  }

  lemma {:induction false} RunShift(lines: seq<TextLine>, at: map<Name, nat>, pc: nat, a: nat, b: nat, k: nat)
    requires Run(lines, at, pc, a) == Run(lines, at, pc, b) && Run(lines, at, pc, a).Some?
    ensures Run(lines, at, pc, a + k) == Run(lines, at, pc, b + k)
  {
    if k > 0 { RunShift(lines, at, pc, a, b, k - 1); }
  }

  /** A run that comes back to a place goes on for ever. */
  lemma {:induction false} RunsForever(lines: seq<TextLine>, at: map<Name, nat>, pc: nat, a: nat, b: nat, k: nat)
    requires a < b && Run(lines, at, pc, a) == Run(lines, at, pc, b) && Run(lines, at, pc, b).Some?
    ensures Run(lines, at, pc, k).Some?
    decreases k
  {
    if k <= b {
      RunStops(lines, at, pc, k, b);
    } else {
      RunsForever(lines, at, pc, a, b, k - (b - a));
      RunShift(lines, at, pc, a, b, k - b);
      assert a + (k - b) == k - (b - a) && b + (k - b) == k;
    }
  }

  lemma CycleNeverArrives(lines: seq<TextLine>, at: map<Name, nat>, pc: nat, a: nat, b: nat)
    requires a < b && Run(lines, at, pc, a) == Run(lines, at, pc, b) && Run(lines, at, pc, b).Some?
    ensures NeverArrives(lines, at, pc)
  {
    forall t, m: nat | ArrivesIn(lines, at, pc, t, m) ensures false {
      RunsForever(lines, at, pc, a, b, m + 1);
    }
  }

  lemma {:induction false} RunOverPasses(lines: seq<TextLine>, at: map<Name, nat>, pc: nat, k: nat, i: nat, j: nat)
    requires Run(lines, at, pc, k) == Some(i) && i <= j <= |lines| && forall m | i <= m < j :: lines[m] == Pass
    ensures Run(lines, at, pc, k + (j - i)) == Some(j)
    decreases j - i
  {
    if i < j { RunOverPasses(lines, at, pc, k + 1, i + 1, j); }
  }

  ghost predicate Agrees(lines: seq<TextLine>, at: map<Name, nat>, pc: nat, t: Transfer) {
    if t == Nowhere then NeverArrives(lines, at, pc) else Arrives(lines, at, pc, t)
  }

  /** The run was at the line of label `s` before step `k`. */
  ghost predicate Passed(lines: seq<TextLine>, at: map<Name, nat>, pc: nat, s: Name, k: nat) {
    s in at && exists m: nat :: m < k && Run(lines, at, pc, m) == Some(at[s])
  }

  lemma PassedLater(lines: seq<TextLine>, at: map<Name, nat>, pc: nat, s: Name, k: nat, k': nat)
    requires Passed(lines, at, pc, s, k) && k <= k'
    ensures Passed(lines, at, pc, s, k')
  {}

  lemma PassedAgain(lines: seq<TextLine>, at: map<Name, nat>, pc: nat, l: Name, k: nat)
    requires Passed(lines, at, pc, l, k) && Run(lines, at, pc, k) == Some(at[l])
    ensures NeverArrives(lines, at, pc)
  {
    var m: nat :| m < k && Run(lines, at, pc, m) == Some(at[l]);
    CycleNeverArrives(lines, at, pc, m, k);
  }

  lemma RunOnce(lines: seq<TextLine>, at: map<Name, nat>, pc: nat, k: nat)
    requires Run(lines, at, pc, k).Some?
    ensures Run(lines, at, pc, k + 1) == Step(lines, at, Run(lines, at, pc, k).value)
  {}

  /** The run from the label line `at[l]` to the next line the scan reacts to. */
  lemma ToNextLine(lines: seq<TextLine>, at: map<Name, nat>, pc: nat, l: Name, k: nat) returns (i: nat, k': nat)
    requires at == LabelLines(lines) && l in at && Run(lines, at, pc, k) == Some(at[l])
    requires StretchClear(lines, at[l] + 1)
    ensures i == Scan(lines, at[l] + 1) && k < k' && Run(lines, at, pc, k') == Some(i)
  {
    hide LabelLines, Run;
    i := Scan(lines, at[l] + 1);
    RunOnce(lines, at, pc, k);
    RunOverPasses(lines, at, pc, k + 1, at[l] + 1, i);
    k' := k + 1 + (i - (at[l] + 1));
  }

  /** A label line is where its label is, and a jump to a known label goes there. */
  lemma ToLabel(lines: seq<TextLine>, at: map<Name, nat>, pc: nat, i: nat, k: nat) returns (k': nat)
    requires at == LabelLines(lines) && Run(lines, at, pc, k) == Some(i)
    requires i < |lines| && (lines[i].LabelAt? || lines[i].JumpTo?) && lines[i].name in at
    requires Recorded(lines, at, i)
    ensures k <= k' && Run(lines, at, pc, k') == Some(at[lines[i].name])
  {
    k' := if lines[i].LabelAt? then k else k + 1;
  }

  /** If a label stands at line `i`, that is the line recorded for it. */
  predicate Recorded(lines: seq<TextLine>, at: map<Name, nat>, i: nat) {
    i < |lines| && lines[i].LabelAt? ==> lines[i].name in at && at[lines[i].name] == i
  }

  /** Every label that the walk from `l` falls into is the last of its name. */
  ghost predicate FallsOnRecorded(lines: seq<TextLine>, at: map<Name, nat>, l: Name, seen: set<Name>)
    requires forall n | n in at :: at[n] < |lines|
    decreases at.Keys - seen
  {
    l in seen || l !in at ||
      var i := Scan(lines, at[l] + 1);
      Recorded(lines, at, i) &&
      (i < |lines| && (lines[i].LabelAt? || lines[i].JumpTo?) ==>
        assert l in at.Keys - seen;
        FallsOnRecorded(lines, at, lines[i].name, seen + {l}))
  }

  /** No label falls into an earlier copy of a repeated one. */
  ghost predicate AllRecorded(lines: seq<TextLine>) {
    forall l | l in LabelLines(lines) :: Recorded(lines, LabelLines(lines), Scan(lines, LabelLines(lines)[l] + 1))
  }

  lemma UniqueRecorded(lines: seq<TextLine>)
    requires UniqueLabels(lines)
    ensures AllRecorded(lines)
  {
    hide LabelLines, Scan;
    var at := LabelLines(lines);
    forall i: nat | i < |lines| && lines[i].LabelAt? ensures Recorded(lines, at, i) {
      assert lines[at[lines[i].name]] == lines[i];
    }
  }

  lemma RecordedBehind(lines: seq<TextLine>, l: Name)
    requires AllRecorded(lines) && l in LabelLines(lines)
    ensures Recorded(lines, LabelLines(lines), Scan(lines, LabelLines(lines)[l] + 1))
  {}

  lemma {:induction false} AllRecordedPath(lines: seq<TextLine>, at: map<Name, nat>, l: Name, seen: set<Name>)
    requires AllRecorded(lines) && at == LabelLines(lines)
    ensures FallsOnRecorded(lines, at, l, seen)
    decreases at.Keys - seen
  {
    hide LabelLines, Scan, Recorded, Skipped, AllRecorded;
    if l !in seen && l in at {
      var i := Scan(lines, at[l] + 1);
      assert Recorded(lines, at, i) by { RecordedBehind(lines, l); }
      if i < |lines| && (lines[i].LabelAt? || lines[i].JumpTo?) {
        assert l in at.Keys - seen;
        AllRecordedPath(lines, at, lines[i].name, seen + {l});
      }
    }
  }

  /** No unseen transfer stands between line `i` and the next line the scan reacts to. */
  ghost predicate StretchClear(lines: seq<TextLine>, i: nat)
    requires i <= |lines|
  {
    forall k | i <= k < Scan(lines, i) :: lines[k] == Pass
  }

  /** The walk from `l` steps over no unseen transfer. */
  ghost predicate PathClear(lines: seq<TextLine>, at: map<Name, nat>, l: Name, seen: set<Name>)
    requires forall n | n in at :: at[n] < |lines|
    decreases at.Keys - seen
  {
    l in seen || l !in at ||
      var i := Scan(lines, at[l] + 1);
      StretchClear(lines, at[l] + 1) &&
      (i < |lines| && (lines[i].LabelAt? || lines[i].JumpTo?) ==>
        assert l in at.Keys - seen;
        PathClear(lines, at, lines[i].name, seen + {l}))
  }

  /** How a run from the label `l` relates to the walk from it: they agree if the walk steps over no unseen
      transfer, and otherwise the run ends at one. */
  ghost predicate Told(lines: seq<TextLine>, at: map<Name, nat>, pc: nat, l: Name, seen: set<Name>)
    requires forall n | n in at :: at[n] < |lines|
  {
    if PathClear(lines, at, l, seen) then Agrees(lines, at, pc, Walk(lines, at, l, seen)) else EndsUnseen(lines, at, pc)
  }

  ghost predicate EndsUnseen(lines: seq<TextLine>, at: map<Name, nat>, pc: nat) {
    exists falls :: Arrives(lines, at, pc, Unknown(falls))
  }

  /** A run into a stretch that is not clear ends at its first unseen transfer. */
  lemma RunIntoUnseen(lines: seq<TextLine>, at: map<Name, nat>, pc: nat, l: Name, k: nat)
    requires at == LabelLines(lines) && l in at && Run(lines, at, pc, k) == Some(at[l])
    requires !StretchClear(lines, at[l] + 1)
    ensures EndsUnseen(lines, at, pc)
  {
    hide LabelLines, Run;
    var i := FirstUnseen(lines, at[l] + 1);
    RunOnce(lines, at, pc, k);
    RunOverPasses(lines, at, pc, k + 1, at[l] + 1, i);
    assert ArrivesIn(lines, at, pc, Unknown(lines[i].falls), k + 1 + (i - (at[l] + 1)));
  }

  lemma FirstUnseen(lines: seq<TextLine>, i: nat) returns (j: nat)
    requires i <= |lines| && !StretchClear(lines, i)
    ensures i <= j < |lines| && lines[j].Unseen? && forall k | i <= k < j :: lines[k] == Pass
  {
    j := i;
    while lines[j] == Pass
      invariant i <= j < Scan(lines, i) && forall k | i <= k < j :: lines[k] == Pass
      decreases |lines| - j
    {
      j := j + 1;
    }
  }

  /** The walk continues a run: it is at label `l` after `k` steps and passed the seen labels before. */
  lemma {:induction false} WalkFollowsRun(lines: seq<TextLine>, at: map<Name, nat>, pc: nat, l: Name, seen: set<Name>,
                                          k: nat)
    requires at == LabelLines(lines) && l in at && Run(lines, at, pc, k) == Some(at[l])
    requires FallsOnRecorded(lines, at, l, seen)
    requires forall s | s in seen :: Passed(lines, at, pc, s, k)
    ensures Told(lines, at, pc, l, seen)
    decreases at.Keys - seen
  {
    hide Run, Passed, LabelLines, NeverArrives, Scan, StretchClear, EndsUnseen, Recorded;
    if l in seen {
      PassedAgain(lines, at, pc, l, k);
    } else if !StretchClear(lines, at[l] + 1) {
      RunIntoUnseen(lines, at, pc, l, k);
    } else {
      var i, k' := ToNextLine(lines, at, pc, l, k);
      if i == |lines| {
        DeadEnd(lines, at, pc, k', i);
      } else if lines[i].LabelAt? || lines[i].JumpTo? {
        if lines[i].name !in at {
          UnknownLabel(lines, at, pc, i, k');
          assert PathClear(lines, at, lines[i].name, seen + {l});
          assert Walk(lines, at, lines[i].name, seen + {l}) == Nowhere;
        } else {
          var k'' := ToLabel(lines, at, pc, i, k');
          forall s | s in seen + {l} ensures Passed(lines, at, pc, s, k'') {
            if s == l { NowPassed(lines, at, pc, l, k, k''); } else { PassedLater(lines, at, pc, s, k, k''); }
          }
          assert l in at.Keys - seen;
          WalkFollowsRun(lines, at, pc, lines[i].name, seen + {l}, k'');
        }
      } else {
        assert !Skipped(lines[i]) by { ScanStops(lines, at[l] + 1); }
        assert ArrivesIn(lines, at, pc, AsTransfer(lines[i]), k');
      }
    }
  }

  lemma ScanStops(lines: seq<TextLine>, i: nat)
    requires i <= |lines| && Scan(lines, i) < |lines|
    ensures !Skipped(lines[Scan(lines, i)])
  {}

  lemma NowPassed(lines: seq<TextLine>, at: map<Name, nat>, pc: nat, l: Name, k: nat, k': nat)
    requires l in at && Run(lines, at, pc, k) == Some(at[l]) && k < k'
    ensures Passed(lines, at, pc, l, k')
  {}

  lemma UnknownLabel(lines: seq<TextLine>, at: map<Name, nat>, pc: nat, i: nat, k: nat)
    requires at == LabelLines(lines) && i < |lines| && Run(lines, at, pc, k) == Some(i)
    requires (lines[i].LabelAt? || lines[i].JumpTo?) && lines[i].name !in at
    ensures NeverArrives(lines, at, pc)
  {
    DeadEnd(lines, at, pc, k, i);
  }

  /** Execution arrives at one transfer only, so `Agrees` determines the answer. */
  lemma AgreesDetermines(lines: seq<TextLine>, at: map<Name, nat>, pc: nat, t: Transfer, t': Transfer)
    requires Agrees(lines, at, pc, t) && Agrees(lines, at, pc, t')
    ensures t == t'
  {
    if t != Nowhere && t' != Nowhere {
      var k: nat :| ArrivesIn(lines, at, pc, t, k);
      var k': nat :| ArrivesIn(lines, at, pc, t', k');
      if k < k' { RunStops(lines, at, pc, k, k'); }
      if k' < k { RunStops(lines, at, pc, k', k); }
    }
  }

  /** The walk itself never reports an unseen transfer. */
  lemma {:induction false} WalkNeverUnknown(lines: seq<TextLine>, at: map<Name, nat>, l: Name, seen: set<Name>)
    requires forall n | n in at :: at[n] < |lines|
    ensures !Walk(lines, at, l, seen).Unknown?
    decreases at.Keys - seen
  {
    if l !in seen && l in at {
      var i := Scan(lines, at[l] + 1);
      if i < |lines| && (lines[i].LabelAt? || lines[i].JumpTo?) {
        assert l in at.Keys - seen;
        WalkNeverUnknown(lines, at, lines[i].name, seen + {l});
      }
    }
  }

  /** Where no label it falls into has a later copy, the walk gives the first transfer execution arrives at,
      and ("end", None) when execution loops, leaves the text or jumps to an unknown label, if and only if it
      steps over no unseen transfer on its way. */
  lemma WalkIsExecutionIff(lines: seq<TextLine>, l: Name)
    requires l in LabelLines(lines) && FallsOnRecorded(lines, LabelLines(lines), l, {})
    ensures Agrees(lines, LabelLines(lines), LabelLines(lines)[l], Walk(lines, LabelLines(lines), l, {}))
       <==> PathClear(lines, LabelLines(lines), l, {})
  {
    hide Walk, PathClear, LabelLines, FallsOnRecorded;
    var at := LabelLines(lines);
    WalkFollowsRun(lines, at, at[l], l, {}, 0);
    if !PathClear(lines, at, l, {}) {
      var falls :| Arrives(lines, at, at[l], Unknown(falls));
      WalkNeverUnknown(lines, at, l, {});
      if Agrees(lines, at, at[l], Walk(lines, at, l, {})) {
        AgreesDetermines(lines, at, at[l], Unknown(falls), Walk(lines, at, l, {}));
      }
    }
  }

  /** Behind every label, no unseen transfer comes before the next line the walk reacts to. */
  ghost predicate AllClear(lines: seq<TextLine>) {
    forall l | l in LabelLines(lines) :: StretchClear(lines, LabelLines(lines)[l] + 1)
  }

  lemma {:induction false} AllClearPath(lines: seq<TextLine>, at: map<Name, nat>, l: Name, seen: set<Name>)
    requires AllClear(lines) && at == LabelLines(lines)
    ensures PathClear(lines, at, l, seen)
    decreases at.Keys - seen
  {
    hide LabelLines, Scan, StretchClear;
    if l !in seen && l in at {
      var i := Scan(lines, at[l] + 1);
      if i < |lines| && (lines[i].LabelAt? || lines[i].JumpTo?) {
        assert l in at.Keys - seen;
        AllClearPath(lines, at, lines[i].name, seen + {l});
      }
    }
  }

  ghost predicate AgreesAt(lines: seq<TextLine>, l: Name)
    requires l in LabelLines(lines)
  {
    Agrees(lines, LabelLines(lines), LabelLines(lines)[l], Walk(lines, LabelLines(lines), l, {}))
  }

  /** The walk is right about every label of a text exactly when no label is followed by an unseen transfer
      before the next line of a kind the walk knows. */
  lemma EveryWalkIsExecutionIff(lines: seq<TextLine>)
    requires AllRecorded(lines)
    ensures (forall l | l in LabelLines(lines) :: AgreesAt(lines, l)) <==> AllClear(lines)
  {
    hide Walk, LabelLines, Agrees, AllRecorded, FallsOnRecorded;
    if AllClear(lines) {
      forall l | l in LabelLines(lines) ensures AgreesAt(lines, l) {
        AllClearPath(lines, LabelLines(lines), l, {});
        AllRecordedPath(lines, LabelLines(lines), l, {});
        WalkIsExecutionIff(lines, l);
      }
    } else {
      var l :| l in LabelLines(lines) && !StretchClear(lines, LabelLines(lines)[l] + 1);
      AllRecordedPath(lines, LabelLines(lines), l, {});
      WalkIsExecutionIff(lines, l);
    }
  }

  // ----- where walk and execution part -----

  /** Where a label stands that no later line repeats. */
  lemma {:induction false} LabelOnce(lines: seq<TextLine>, i: nat)
    requires i < |lines| && lines[i].LabelAt?
    requires forall j | i < j < |lines| && lines[j].LabelAt? :: lines[j].name != lines[i].name
    ensures lines[i].name in LabelLines(lines) && LabelLines(lines)[lines[i].name] == i
  {
    hide LabelLines;
    assert lines[LabelLines(lines)[lines[i].name]] == lines[i];
  }

  /** Behind the label at line `i` come an unseen transfer and then line `t`. */
  ghost predicate UnseenThen(lines: seq<TextLine>, i: nat, falls: bool, t: TextLine) {
    i + 2 < |lines| && lines[i].LabelAt? && lines[i + 1] == Unseen(falls) && lines[i + 2] == t
  }

  lemma UnseenScan(lines: seq<TextLine>, i: nat, falls: bool, t: TextLine)
    requires UnseenThen(lines, i, falls, t) && !Skipped(t)
    ensures Scan(lines, i + 1) == i + 2
  {}

  lemma UnseenArrives(lines: seq<TextLine>, at: map<Name, nat>, i: nat, falls: bool, t: TextLine)
    requires UnseenThen(lines, i, falls, t)
    ensures Arrives(lines, at, i, Unknown(falls))
  {
    assert Run(lines, at, i, 0) == Some(i);
    assert Run(lines, at, i, 1) == Some(i + 1);
    assert ArrivesIn(lines, at, i, Unknown(falls), 1);
  }

  /** From the label `a` the walk reports `t` while execution arrives at `u`. */
  ghost predicate Misled(lines: seq<TextLine>, a: Name, t: Transfer, u: Transfer) {
    var at := LabelLines(lines);
    a in at && Walk(lines, at, a, {}) == t && Arrives(lines, at, at[a], u) && t != u
  }

  /** An indirect jump: the walk runs into whichever block stands next, so that the answer for `a` is the
      panic call in one layout and the stop in the other, while execution leaves through the jump in both. */
  lemma UnseenJumpMisleads(a: Name, b: Name, c: Name)
    requires a != b && b != c && a != c
    ensures Misled([LabelAt(a), Unseen(false), LabelAt(b), CallTo("panic"), LabelAt(c), StopAt("ret")],
                   a, Call("panic"), Unknown(false))
    ensures Misled([LabelAt(a), Unseen(false), LabelAt(c), StopAt("ret"), LabelAt(b), CallTo("panic")],
                   a, Stop("ret"), Unknown(false))
  {
    hide Misled;
    FallsIntoNext([LabelAt(a), Unseen(false), LabelAt(b), CallTo("panic"), LabelAt(c), StopAt("ret")]);
    FallsIntoNext([LabelAt(a), Unseen(false), LabelAt(c), StopAt("ret"), LabelAt(b), CallTo("panic")]);
  }

  lemma FallsIntoNext(lines: seq<TextLine>)
    requires |lines| == 6 && lines[1] == Unseen(false) && (lines[3].CallTo? || lines[3].StopAt?) && !lines[5].LabelAt?
    requires lines[0].LabelAt? && lines[2].LabelAt? && lines[4].LabelAt?
    requires lines[0].name != lines[2].name && lines[0].name != lines[4].name && lines[2].name != lines[4].name
    ensures Misled(lines, lines[0].name, AsTransfer(lines[3]), Unknown(false))
  {
    hide LabelLines, Run;
    var at, a, b := LabelLines(lines), lines[0].name, lines[2].name;
    LabelOnce(lines, 0);
    LabelOnce(lines, 2);
    UnseenScan(lines, 0, false, lines[2]);
    UnseenArrives(lines, at, 0, false, lines[2]);
    assert Scan(lines, 3) == 3;
    assert Walk(lines, at, b, {} + {a}) == AsTransfer(lines[3]);
    assert Walk(lines, at, a, {}) == Walk(lines, at, b, {} + {a});
  }

  /** An indirect call is stepped over too: the walk reports what comes behind it. */
  lemma UnseenCallMisleads(a: Name)
    ensures Misled([LabelAt(a), Unseen(true), StopAt("ret")], a, Stop("ret"), Unknown(true))
  {
    hide LabelLines, Run;
    var lines := [LabelAt(a), Unseen(true), StopAt("ret")];
    LabelOnce(lines, 0);
    UnseenScan(lines, 0, true, lines[2]);
    UnseenArrives(lines, LabelLines(lines), 0, true, lines[2]);
  }

  /** A repeated label breaks the agreement: falling into its first copy, the walk goes to its last. */
  lemma RepeatedLabelMisleads(a: Name, b: Name)
    requires a != b
    ensures Misled([LabelAt(a), LabelAt(b), CallTo("f"), LabelAt(b), CallTo("g")], a, Call("g"), Call("f"))
  {
    hide LabelLines;
    var lines := [LabelAt(a), LabelAt(b), CallTo("f"), LabelAt(b), CallTo("g")];
    var at := LabelLines(lines);
    LabelOnce(lines, 0);
    LabelOnce(lines, 3);
    assert Scan(lines, 1) == 1 && Scan(lines, 4) == 4;
    assert Walk(lines, at, b, {} + {a}) == Call("g");
    assert Run(lines, at, 0, 1) == Some(1);
    assert Run(lines, at, 0, 2) == Some(2);
    assert ArrivesIn(lines, at, 0, Call("f"), 2);
  }
}
