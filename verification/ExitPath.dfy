/** `exit_len` (tools/asmcensus/score.py): from the loop's exits to a `ret`. Each search stops at the
    first region it pops that holds a `ret`, so the figure is the length of a real way out but not
    always of the shortest one. */
module ExitPath {
  import opened Asm
  import Dominance
  import opened ShortestWalks
  import opened Prologue

  /** Instructions up to and including the first `ret`. */
  function ToRet(b: seq<Instr>): (k: nat)
    ensures HasRet(b) ==> 0 < k <= |b| && b[k - 1].kind.Ret? && !HasRet(b[..k - 1])
    ensures !HasRet(b) ==> k == |b|
  {
    if b == [] then 0 else if b[0].kind.Ret? then 1 else
      var k := 1 + ToRet(b[1..]);
      assert HasRet(b) <==> HasRet(b[1..]) by {
        if i :| 0 <= i < |b| && b[i].kind.Ret? { assert b[1..][i - 1].kind.Ret?; }
        if i :| 0 <= i < |b[1..]| && b[1..][i].kind.Ret? { assert b[i + 1].kind.Ret?; }
      }
      assert HasRet(b) ==> b[..k - 1][1..] == b[1..][..k - 2];
      assert HasRet(b) ==> forall i | 1 <= i < k - 1 :: b[i] == b[1..][..k - 2][i - 1];
      k
  }

  /** A way out from block `v`: a walk to a region with a `ret` and on to that `ret`. */
  ghost predicate WayOut(c: Flow, v: nat, w: seq<Hop<nat>>, x: nat) {
    x < |c.blocks| && HasRet(c.blocks[x].code) && w in WalksTo(EntryHops(c), v, x)
  }

  ghost predicate NoWayOut(c: Flow, v: nat) {
    forall w: seq<Hop<nat>>, x: nat :: !WayOut(c, v, w, x)
  }

  function OutCost(c: Flow, w: seq<Hop<nat>>, x: nat): nat
    requires x < |c.blocks|
  {
    Cost(w) + ToRet(c.blocks[x].code)
  }

  /** `w` reaches its region no later than any way out reaches its own. */
  ghost predicate Nearest(c: Flow, v: nat, w: seq<Hop<nat>>) {
    forall y: nat, u: seq<Hop<nat>> | WayOut(c, v, u, y) :: Cost(w) <= Cost(u)
  }

  /** Of the regions no further than `w` reaches, `x` has the least index; regions reached over an empty
      region at the last are not compared. */
  ghost predicate FirstOfNearest(c: Flow, v: nat, w: seq<Hop<nat>>, x: nat) {
    forall y: nat, u: seq<Hop<nat>> | WayOut(c, v, u, y) && Cost(u) == Cost(w) && (u == [] || u[|u| - 1].seg != []) ::
      x <= y
  }

  ghost predicate ExitAnswer(c: Flow, v: nat, r: Option<nat>) {
    match r
    case None => NoWayOut(c, v)
    case Some(k) => exists w: seq<Hop<nat>>, x: nat :: IsAnswer(c, v, k, w, x)
  }

  ghost predicate IsAnswer(c: Flow, v: nat, k: nat, w: seq<Hop<nat>>, x: nat) {
    WayOut(c, v, w, x) && Nearest(c, v, w) && FirstOfNearest(c, v, w, x) && k == OutCost(c, w, x)
  }

  ghost predicate NoRetIn(c: Flow, rank: map<nat, nat>) {
    forall x | x in rank :: x < |c.blocks| && !HasRet(c.blocks[x].code)
  }

  lemma RetPopped(c: Flow, v: nat, st: Frontier<nat>, rank: map<nat, nat>, now: nat, d: nat, x: nat)
    requires EntryInv(c, v, st, rank, now) && AllSettled(EntryHops(c), st.dist, rank) && NoRetIn(c, rank)
    requires Pending(d, x) in st.pq && d <= Get(st.dist, x) && FirstIn(st.pq, d, x)
    requires x < |c.blocks| && HasRet(c.blocks[x].code)
    ensures ExitAnswer(c, v, Some(d + ToRet(c.blocks[x].code)))
  {
    hide EntryInv, AllSettled, EntryHops, HasRet, ToRet, FirstIn;
    assert x !in rank;
    assert forall e | e in st.pq :: d <= e.cost by { FirstIsLeast(st.pq, d, x); }
    HeaderPopped(c, v, st, rank, now, d, x);
    var w: seq<Hop<nat>> :| w in WalksTo(EntryHops(c), v, x) && Cost(w) == d;
    PoppedNearest(c, v, st, rank, now, d, x, w);
    assert IsAnswer(c, v, d + ToRet(c.blocks[x].code), w, x);
  }

  lemma FirstIsLeast(pq: set<Pending<nat>>, d: nat, x: nat)
    requires FirstIn(pq, d, x)
    ensures forall e | e in pq :: d <= e.cost
  {}

  lemma PoppedNearest(c: Flow, v: nat, st: Frontier<nat>, rank: map<nat, nat>, now: nat, d: nat, x: nat,
                      w: seq<Hop<nat>>)
    requires EntryInv(c, v, st, rank, now) && AllSettled(EntryHops(c), st.dist, rank) && NoRetIn(c, rank)
    requires Pending(d, x) in st.pq && FirstIn(st.pq, d, x) && Cost(w) == d
    ensures Nearest(c, v, w) && FirstOfNearest(c, v, w, x)
  {
    hide EntryInv, AllSettled, EntryHops, WayOut, NoRetIn;
    forall y: nat, u: seq<Hop<nat>> | WayOut(c, v, u, y) ensures d <= Cost(u) {
      NoEarlierWay(c, v, st, rank, now, u, y);
    }
    forall y: nat, u: seq<Hop<nat>> |
      WayOut(c, v, u, y) && Cost(u) == Cost(w) && (u == [] || u[|u| - 1].seg != [])
      ensures x <= y
    {
      TiedRet(c, v, st, rank, now, d, x, u, y);
    }
  }

  lemma NoEarlierWay(c: Flow, v: nat, st: Frontier<nat>, rank: map<nat, nat>, now: nat, u: seq<Hop<nat>>, y: nat)
    requires EntryInv(c, v, st, rank, now) && AllSettled(EntryHops(c), st.dist, rank) && NoRetIn(c, rank)
    requires WayOut(c, v, u, y)
    ensures exists e :: e in st.pq && e.cost <= Cost(u)
  {
    NoWalkBeats(EntryHops(c), v, st, rank, now, u, y);
  }

  /** A region with a `ret` that is as near as the one popped is pending too, so it has no lower index. */
  lemma TiedRet(c: Flow, v: nat, st: Frontier<nat>, rank: map<nat, nat>, now: nat, d: nat, x: nat,
                u: seq<Hop<nat>>, y: nat)
    requires EntryInv(c, v, st, rank, now) && AllSettled(EntryHops(c), st.dist, rank) && NoRetIn(c, rank)
    requires Pending(d, x) in st.pq && FirstIn(st.pq, d, x)
    requires WayOut(c, v, u, y) && Cost(u) == d && (u == [] || u[|u| - 1].seg != [])
    ensures x <= y
  {
    if u != [] {
      var n := |u| - 1;
      NoWalkBeats(EntryHops(c), v, st, rank, now, u[..n], u[n].src);
      assert Settled(st.dist, u[n]);
    }
    assert Pending(st.dist[y], y) in st.pq;
  }

  lemma NothingPopped(c: Flow, v: nat, st: Frontier<nat>, rank: map<nat, nat>, now: nat)
    requires EntryInv(c, v, st, rank, now) && AllSettled(EntryHops(c), st.dist, rank) && NoRetIn(c, rank) && st.pq == {}
    ensures ExitAnswer(c, v, None)
  {
    hide EntryInv;
    forall w: seq<Hop<nat>>, x: nat ensures !WayOut(c, v, w, x) {
      if WayOut(c, v, w, x) { NoEarlierWay(c, v, st, rank, now, w, x); }
    }
  }

  lemma NoRetNone(c: Flow)
    ensures NoRetIn(c, map[])
  {}

  lemma NoRetGrows(c: Flow, rank: map<nat, nat>, x: nat, k: nat)
    requires NoRetIn(c, rank) && x < |c.blocks| && !HasRet(c.blocks[x].code)
    ensures NoRetIn(c, rank[x := k])
  {}

  ghost predicate FirstIn(pq: set<Pending<nat>>, d: nat, x: nat) {
    forall e | e in pq :: d < e.cost || (d == e.cost && x <= e.at)
  }

  /** `heappop` of pairs (distance, region): among the nearest the least index. */
  method PopFirst(pq: set<Pending<nat>>) returns (d: nat, x: nat, rest: set<Pending<nat>>)
    requires pq != {}
    ensures Pending(d, x) in pq && rest == pq - {Pending(d, x)} && FirstIn(pq, d, x)
  {
    var first :| first in pq;
    d, x := first.cost, first.at;
    var todo := pq - {first};
    while todo != {}
      invariant todo <= pq && Pending(d, x) in pq && FirstIn(pq - todo, d, x)
    {
      var e: Pending<nat> :| e in todo;
      todo := todo - {e};
      if e.cost < d || (e.cost == d && e.at < x) {
        d, x := e.cost, e.at;
      }
    }
    rest := pq - {Pending(d, x)};
  }

  /** The search from one exit `v`. No segment of an expanded region holds a `ret`, so its relaxations
      are those of the prologue search. */
  method ExitFrom(c: Flow, v: nat) returns (r: Option<nat>)
    requires FlowOk(c) && v < |c.blocks|
    ensures ExitAnswer(c, v, r)
  {
    hide EntryInv, AllSettled, NoRetIn, ExitAnswer, EntryHops, HasRet, ToRet, AllTried, Progress;
    EntryStart(c, v);
    var st := Start<nat>(v);
    ghost var rank: map<nat, nat> := map[];
    ghost var now: nat := 0;
    NoRetNone(c);
    while st.pq != {}
      invariant EntryInv(c, v, st, rank, now) && AllSettled(EntryHops(c), st.dist, rank) && NoRetIn(c, rank)
      decreases set u | 0 <= u < |c.blocks| && u !in rank, |st.pq|
    {
      var d, x, rest := PopFirst(st.pq);
      if d > Get(st.dist, x) {
        EntryPopStale(c, v, st, rank, now, d, x);
        st := st.(pq := rest);
      } else {
        EntryPopFresh(c, v, st, rank, now, d, x);
        if HasRet(c.blocks[x].code) {
          RetPopped(c, v, st, rank, now, d, x);
          return Some(d + ToRet(c.blocks[x].code));
        }
        NoRetGrows(c, rank, x, |rank|);
        ghost var rank' := rank[x := |rank|];
        ghost var before := set u | 0 <= u < |c.blocks| && u !in rank;
        assert x in before && x !in (set u | 0 <= u < |c.blocks| && u !in rank');
        st := st.(pq := rest);
        var st1 := EntryExpand(c, v, st, rank', d, x);
        EntryGrows(c, v, st, st1, rank, d, x);
        st, rank, now := st1, rank', d;
      }
    }
    NothingPopped(c, v, st, rank, now);
    return None;
  }

  // ----- all exit edges -----

  /** An edge that leaves the loop. */
  predicate ExitEdge(c: Flow, bs: set<nat>, u: nat, v: nat) {
    u in bs && u < |c.succ| && v in c.succ[u] && v !in bs
  }

  /** The figure is the cost of a real way out over some exit edge; there is none exactly when no exit
      edge has a way out; and no way out over any exit edge is shorter by more than the last stretch,
      from the start of the region where a search stopped to its `ret`. */
  ghost predicate ExitLenOk(c: Flow, bs: set<nat>, r: Option<nat>) {
    && (r.None? ==> forall u: nat, v: nat | ExitEdge(c, bs, u, v) :: NoWayOut(c, v))
    && (r.Some? ==> exists u: nat, v: nat :: ExitEdge(c, bs, u, v) && ExitAnswer(c, v, r))
    && (r.Some? ==> forall u: nat, v: nat | ExitEdge(c, bs, u, v) :: NoBetter(c, v, r.value))
  }

  ghost predicate NoBetter(c: Flow, v: nat, k: nat) {
    NoWayOut(c, v) || exists e: nat :: ExitAnswer(c, v, Some(e)) && k <= e
  }

  method ExitLen(c: Flow, bs: set<nat>) returns (r: Option<nat>)
    requires FlowOk(c) && forall u | u in bs :: u < |c.blocks|
    ensures ExitLenOk(c, bs, r)
  {
    hide ExitAnswer, NoWayOut;
    r := None;
    var us := bs;
    ghost var done: set<(nat, nat)> := {};
    while us != {}
      invariant us <= bs
      invariant BestOf(c, bs, r, done)
      invariant forall u: nat, v: nat | ExitEdge(c, bs, u, v) && u !in us :: (u, v) in done
    {
      var u :| u in us;
      var vs := c.succ[u] - bs;
      while vs != {}
        invariant vs <= c.succ[u] - bs && u in us
        invariant BestOf(c, bs, r, done)
        invariant forall t: nat, v: nat | ExitEdge(c, bs, t, v) && t !in us :: (t, v) in done
        invariant forall v | v in c.succ[u] - bs && v !in vs :: (u, v) in done
      {
        var v :| v in vs;
        var k := ExitFrom(c, v);
        BetterOf(c, bs, r, done, u, v, k);
        if k.Some? && (r.None? || k.value < r.value) {
          r := k;
        }
        done := done + {(u, v)};
        vs := vs - {v};
      }
      us := us - {u};
    }
  }

  ghost predicate BestOf(c: Flow, bs: set<nat>, r: Option<nat>, done: set<(nat, nat)>) {
    && (forall e | e in done :: if r.None? then NoWayOut(c, e.1) else NoBetter(c, e.1, r.value))
    && (r.Some? ==> exists u: nat, v: nat :: ExitEdge(c, bs, u, v) && ExitAnswer(c, v, r))
  }

  lemma BetterOf(c: Flow, bs: set<nat>, r: Option<nat>, done: set<(nat, nat)>, u: nat, v: nat, k: Option<nat>)
    requires BestOf(c, bs, r, done) && ExitEdge(c, bs, u, v) && ExitAnswer(c, v, k)
    ensures BestOf(c, bs, if k.Some? && (r.None? || k.value < r.value) then k else r, done + {(u, v)})
  {
    hide ExitEdge, NoWayOut;
    var r' := if k.Some? && (r.None? || k.value < r.value) then k else r;
    forall e | e in done + {(u, v)} ensures if r'.None? then NoWayOut(c, e.1) else NoBetter(c, e.1, r'.value) {
      if e == (u, v) && k.Some? { assert ExitAnswer(c, v, Some(k.value)); }
    }
  }

  // ----- how far the figure can be off -----

  /** The figure of one search exceeds the way to any region with a `ret` by at most the last stretch, from
      the start of the region where the search stopped. */
  lemma Overshoot(c: Flow, v: nat, k: nat, u: seq<Hop<nat>>, y: nat, t: nat)
    requires ExitAnswer(c, v, Some(k)) && WayOut(c, v, u, y)
    requires forall w: seq<Hop<nat>>, x: nat | WayOut(c, v, w, x) :: ToRet(c.blocks[x].code) <= t
    ensures k <= Cost(u) + t
  {
    var w: seq<Hop<nat>>, x: nat :| IsAnswer(c, v, k, w, x);
  }

  /** A way out of any cost. */
  ghost predicate AnyWayOut(c: Flow, v: nat, w: seq<Hop<nat>>, x: nat) {
    x < |c.blocks| && HasRet(c.blocks[x].code) && Walk(EntryHops(c), v, w, x)
  }

  ghost predicate EarliestRet(c: Flow, v: nat, w: seq<Hop<nat>>) {
    forall u: seq<Hop<nat>>, y: nat | AnyWayOut(c, v, u, y) :: Cost(w) <= Cost(u)
  }

  lemma ShortenWay(c: Flow, v: nat, m: nat, w: seq<Hop<nat>>, x: nat) returns (u: seq<Hop<nat>>)
    requires AnyWayOut(c, v, w, x)
    requires (forall i | 0 <= i < |c.blocks| :: |c.blocks[i].code| <= m) && |c.blocks| * m < UNREACHED
    ensures WayOut(c, v, u, x) && Cost(u) <= Cost(w)
  {
    RetFreeBounded(c, m);
    u := BelowDefault(EntryHops(c), v, w, x, Dominance.Below(|c.blocks|), m);
  }

  /** For code of any real size, one search: none exactly when no walk leads to a `ret`, and otherwise a way
      out to a region no walk with a `ret` at its end reaches sooner. */
  lemma ExitFromIsExact(c: Flow, v: nat, m: nat, r: Option<nat>)
    requires ExitAnswer(c, v, r)
    requires (forall i | 0 <= i < |c.blocks| :: |c.blocks[i].code| <= m) && |c.blocks| * m < UNREACHED
    ensures r.None? <==> forall w: seq<Hop<nat>>, x: nat :: !AnyWayOut(c, v, w, x)
    ensures r.Some? ==> exists w: seq<Hop<nat>>, x: nat ::
              AnyWayOut(c, v, w, x) && EarliestRet(c, v, w) && r.value == OutCost(c, w, x)
  {
    if r.None? {
      forall w: seq<Hop<nat>>, x: nat | AnyWayOut(c, v, w, x) ensures false {
        var u := ShortenWay(c, v, m, w, x);
      }
    } else {
      var w: seq<Hop<nat>>, x: nat :| IsAnswer(c, v, r.value, w, x);
      assert AnyWayOut(c, v, w, x);
      forall u: seq<Hop<nat>>, y: nat | AnyWayOut(c, v, u, y) ensures Cost(w) <= Cost(u) {
        var s := ShortenWay(c, v, m, u, y);
      }
    }
  }

  /** Some way out over some exit edge ends in region `x`. */
  ghost predicate Reached(c: Flow, bs: set<nat>, x: nat) {
    exists u: nat, v: nat, w: seq<Hop<nat>> :: ExitEdge(c, bs, u, v) && AnyWayOut(c, v, w, x)
  }

  /** If no `ret` reached stands further than `t` into its region, the figure is above a way out of any cost by at
      most `t` less that way's own last stretch. */
  lemma ExitLenBound(c: Flow, bs: set<nat>, m: nat, k: nat, t: nat, u: nat, v: nat, w: seq<Hop<nat>>, y: nat)
    requires ExitLenOk(c, bs, Some(k)) && ExitEdge(c, bs, u, v) && AnyWayOut(c, v, w, y)
    requires forall x: nat | x < |c.blocks| && Reached(c, bs, x) :: ToRet(c.blocks[x].code) <= t
    requires (forall i | 0 <= i < |c.blocks| :: |c.blocks[i].code| <= m) && |c.blocks| * m < UNREACHED
    ensures k <= OutCost(c, w, y) + t - ToRet(c.blocks[y].code)
  {
    hide ExitAnswer, HasRet, ToRet, EntryHops;
    var s := ShortenWay(c, v, m, w, y);
    assert NoBetter(c, v, k) && !NoWayOut(c, v);
    var e: nat :| ExitAnswer(c, v, Some(e)) && k <= e;
    forall w': seq<Hop<nat>>, x: nat | WayOut(c, v, w', x) ensures ToRet(c.blocks[x].code) <= t {
      assert AnyWayOut(c, v, w', x);
      assert Reached(c, bs, x);
    }
    Overshoot(c, v, e, s, y, t);
  }

  /** The least cost of all ways out over all exit edges; none exactly when there is no way out. */
  ghost predicate LeastWayOut(c: Flow, bs: set<nat>, r: Option<nat>) {
    && (forall u: nat, v: nat, w: seq<Hop<nat>>, x: nat | ExitEdge(c, bs, u, v) && AnyWayOut(c, v, w, x) ::
          r.Some? && r.value <= OutCost(c, w, x))
    && (r.Some? ==> exists u: nat, v: nat, w: seq<Hop<nat>>, x: nat ::
          ExitEdge(c, bs, u, v) && AnyWayOut(c, v, w, x) && r.value == OutCost(c, w, x))
  }

  /** Where every `ret` reached stands equally far into its region, `exit_len` is the least way out. */
  lemma ExitLenIsExact(c: Flow, bs: set<nat>, m: nat, t: nat, r: Option<nat>)
    requires ExitLenOk(c, bs, r)
    requires forall x: nat | x < |c.blocks| && Reached(c, bs, x) :: ToRet(c.blocks[x].code) == t
    requires (forall i | 0 <= i < |c.blocks| :: |c.blocks[i].code| <= m) && |c.blocks| * m < UNREACHED
    ensures LeastWayOut(c, bs, r)
  {
    hide HasRet, ToRet, EntryHops, ExitEdge;
    forall u: nat, v: nat, w: seq<Hop<nat>>, x: nat | ExitEdge(c, bs, u, v) && AnyWayOut(c, v, w, x)
      ensures r.Some? && r.value <= OutCost(c, w, x)
    {
      var s := ShortenWay(c, v, m, w, x);
      assert !NoWayOut(c, v);
      ExitLenBound(c, bs, m, r.value, t, u, v, w, x);
    }
    if r.Some? {
      var u: nat, v: nat :| ExitEdge(c, bs, u, v) && ExitAnswer(c, v, r);
      var w: seq<Hop<nat>>, x: nat :| IsAnswer(c, v, r.value, w, x);
      assert AnyWayOut(c, v, w, x);
    }
  }
}
