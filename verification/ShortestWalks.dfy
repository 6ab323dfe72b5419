/** The search that verdict3.py, paths2.py, score.py and fillloops.py each write out: Dijkstra with a
    lazy-deletion heap over hops that execute a (possibly empty) instruction segment. This module
    holds what the copies share: walks, one relaxation, and the invariant with its consequences. */
module ShortestWalks {
  import opened Asm

  /** The default of `dist.get`, 1e18. A state is recorded only below it. */
  const UNREACHED: nat := 1_000_000_000_000_000_000

  datatype Hop<S> = Hop(src: S, seg: seq<Instr>, dst: S)

  type Hops<!S(==)> = iset<Hop<S>>

  ghost predicate Walk<S(!new)>(g: Hops<S>, a: S, w: seq<Hop<S>>, b: S) {
    if w == [] then a == b else
      var n := |w| - 1;
      w[n] in g && w[n].dst == b && Walk(g, a, w[..n], w[n].src)
  }

  /** The instructions a walk executes, in order. */
  function Executed<S>(w: seq<Hop<S>>): seq<Instr> {
    if w == [] then [] else Executed(w[..|w| - 1]) + w[|w| - 1].seg
  }

  function Cost<S>(w: seq<Hop<S>>): nat {
    |Executed(w)|
  }

  /** `r` is the least cost over `ws`, and is absent just when `ws` is empty. */
  ghost predicate LeastCost<S(!new)>(ws: iset<seq<Hop<S>>>, r: Option<nat>) {
    match r
    case None => forall w :: w !in ws
    case Some(c) => (exists w :: w in ws && Cost(w) == c) && forall w | w in ws :: c <= Cost(w)
  }

  lemma WalkSnoc<S(!new)>(g: Hops<S>, a: S, w: seq<Hop<S>>, e: Hop<S>)
    requires Walk(g, a, w, e.src) && e in g
    ensures Walk(g, a, w + [e], e.dst) && Executed(w + [e]) == Executed(w) + e.seg
  {
    assert (w + [e])[..|w|] == w;
  }

  lemma {:induction false} WalkPrepend<S(!new)>(g: Hops<S>, e: Hop<S>, w: seq<Hop<S>>, b: S)
    requires e in g && Walk(g, e.dst, w, b)
    ensures Walk(g, e.src, [e] + w, b) && Executed([e] + w) == e.seg + Executed(w)
  {
    if w == [] {
      assert [e] + w == [] + [e];
      WalkSnoc(g, e.src, [], e);
      assert Executed(w) == [];
    } else {
      var n := |w| - 1;
      var front, last := w[..n], w[n];
      assert w == front + [last];
      WalkPrepend(g, e, front, last.src);
      ConcatAssoc([e], front, [last]);
      WalkSnoc(g, e.src, [e] + front, last);
      ConcatAssoc(e.seg, Executed(front), last.seg);
    }
  }

  // ----- walks, hop by hop -----

  /** The hops follow each other from `a` to `b`. */
  ghost predicate Chained<S(!new)>(a: S, w: seq<Hop<S>>, b: S) {
    if w == [] then a == b else
      w[0].src == a && w[|w| - 1].dst == b && forall i, j | 0 <= i && j == i + 1 && j < |w| :: w[j].src == w[i].dst
  }

  lemma {:induction false} WalkIff<S(!new)>(g: Hops<S>, a: S, w: seq<Hop<S>>, b: S)
    ensures Walk(g, a, w, b) <==> Chained(a, w, b) && forall i | 0 <= i < |w| :: w[i] in g
  {
    if w != [] {
      var n := |w| - 1;
      var front := w[..n];
      WalkIff(g, a, front, w[n].src);
      assert forall i | 0 <= i < n :: front[i] == w[i];
      if Chained(a, w, b) && n > 0 { assert w[n].src == w[n - 1].dst; }
    }
  }

  lemma ChainedSnoc<S(!new)>(a: S, w: seq<Hop<S>>, b: S)
    requires |w| > 0
    ensures Chained(a, w, b) <==> Chained(a, w[..|w| - 1], w[|w| - 1].src) && w[|w| - 1].dst == b
  {
    var n := |w| - 1;
    var front := w[..n];
    if Chained(a, front, w[n].src) && w[n].dst == b {
      forall i, j | 0 <= i && j == i + 1 && j < |w| ensures w[j].src == w[i].dst {
        if j < n { assert front[j].src == front[i].dst; }
      }
    }
    if Chained(a, w, b) && n > 0 { assert w[n].src == w[n - 1].dst; }
  }

  /** What a walk executes is what its segments hold. */
  lemma {:induction false} ExecutedIff<S>(w: seq<Hop<S>>, t: Instr)
    ensures t in Executed(w) <==> exists i :: 0 <= i < |w| && t in w[i].seg
  {
    if w != [] {
      var n := |w| - 1;
      ExecutedIff(w[..n], t);
      assert forall i | 0 <= i < n :: w[..n][i] == w[i];
      if i :| 0 <= i < |w| && t in w[i].seg && i < n { assert t in w[..n][i].seg; }
    }
  }

  // ----- the state of a search -----

  /** A heap tuple. */
  datatype Pending<S> = Pending(cost: nat, at: S)

  /** `pq` is the heap: a push is always a new entry (`RelaxKeeps`), so a set loses nothing. */
  datatype Frontier<!S(==)> = Frontier(dist: map<S, nat>, prev: map<S, Hop<S>>, pq: set<Pending<S>>)

  function Get<S(==)>(dist: map<S, nat>, x: S): nat {
    if x in dist then dist[x] else UNREACHED
  }

  function Start<S(==)>(a: S): Frontier<S> {
    Frontier(map[a := 0], map[], {Pending(0, a)})
  }

  /** A hop from a state at distance `d`: a cheaper way to its end is recorded and made pending. */
  function Relax<S(==)>(st: Frontier<S>, d: nat, e: Hop<S>): Frontier<S> {
    var c := d + |e.seg|;
    if c < Get(st.dist, e.dst)
    then Frontier(st.dist[e.dst := c], st.prev[e.dst := e], st.pq + {Pending(c, e.dst)})
    else st
  }

  /** `heappop`: an entry of least cost. Which one, among equals, is left open. */
  method Pop<S(==)>(pq: set<Pending<S>>) returns (d: nat, u: S, rest: set<Pending<S>>)
    requires pq != {}
    ensures Pending(d, u) in pq && rest == pq - {Pending(d, u)}
    ensures forall e | e in pq :: d <= e.cost
  {
    var first :| first in pq;
    d, u := first.cost, first.at;
    var todo := pq - {first};
    while todo != {}
      invariant todo <= pq && Pending(d, u) in pq
      invariant forall e | e in pq - todo :: d <= e.cost
    {
      var e :| e in todo;
      todo := todo - {e};
      if e.cost < d {
        d, u := e.cost, e.at;
      }
    }
    rest := pq - {Pending(d, u)};
  }

  /** `rank` numbers the states already expanded, in the order of their expansion; `now` is the
      distance of the last pop. */
  ghost predicate Inv<S(!new)>(g: Hops<S>, a: S, st: Frontier<S>, rank: map<S, nat>, now: nat) {
    DistInv(a, st, rank) && TreeInv(g, a, st, rank) && HeapInv(st, rank) && AtDistance(st, rank, now)
  }

  ghost predicate DistInv<S(!new)>(a: S, st: Frontier<S>, rank: map<S, nat>) {
    && a in st.dist && st.dist[a] == 0
    && (forall x | x in st.dist :: st.dist[x] < UNREACHED)
    && (forall x | x in rank :: x in st.dist && rank[x] < |rank|)
  }

  ghost predicate TreeInv<S(!new)>(g: Hops<S>, a: S, st: Frontier<S>, rank: map<S, nat>) {
    forall x | x in st.dist && x != a :: TreeHop(g, st, rank, x)
  }

  /** `prev[x]` is a hop of the graph from an earlier expanded state that accounts for dist[x]. */
  ghost predicate TreeHop<S(!new)>(g: Hops<S>, st: Frontier<S>, rank: map<S, nat>, x: S) {
    && x in st.dist && x in st.prev && st.prev[x] in g && st.prev[x].dst == x
    && st.prev[x].src in rank && st.prev[x].src in st.dist
    && st.dist[x] == st.dist[st.prev[x].src] + |st.prev[x].seg|
    && (x in rank ==> rank[st.prev[x].src] < rank[x])
  }

  /** Every recorded, unexpanded state is pending at its distance; an entry for an expanded state is
      stale. */
  ghost predicate HeapInv<S(!new)>(st: Frontier<S>, rank: map<S, nat>) {
    && (forall e | e in st.pq ::
          e.at in st.dist && st.dist[e.at] <= e.cost && (e.at in rank ==> st.dist[e.at] < e.cost))
    && (forall x | x in st.dist && x !in rank :: Pending(st.dist[x], x) in st.pq)
  }

  /** Expanded states are no dearer than `now`, pending entries no cheaper. */
  ghost predicate AtDistance<S(!new)>(st: Frontier<S>, rank: map<S, nat>, now: nat) {
    && (forall q | q in st.pq :: now <= q.cost)
    && (forall x | x in rank && x in st.dist :: st.dist[x] <= now)
  }

  ghost predicate Settled<S(!new)>(dist: map<S, nat>, e: Hop<S>) {
    e.src in dist && dist[e.src] + |e.seg| < UNREACHED ==>
      e.dst in dist && dist[e.dst] <= dist[e.src] + |e.seg|
  }

  ghost predicate AllSettled<S(!new)>(g: Hops<S>, dist: map<S, nat>, rank: map<S, nat>) {
    forall e | e in g && e.src in rank :: Settled(dist, e)
  }

  /** Distances only fall, and never for an expanded state. */
  ghost predicate Progress<S(!new)>(st: Frontier<S>, st': Frontier<S>, rank: map<S, nat>) {
    && (forall x | x in st.dist :: x in st'.dist && st'.dist[x] <= st.dist[x])
    && (forall x | x in rank && x in st.dist :: x in st'.dist && st'.dist[x] == st.dist[x])
  }

  lemma StartInv<S(!new)>(g: Hops<S>, a: S)
    ensures Inv(g, a, Start(a), map[], 0)
  {}

  lemma PopFresh<S(!new)>(g: Hops<S>, a: S, st: Frontier<S>, rank: map<S, nat>, now: nat, d: nat, u: S)
    requires Inv(g, a, st, rank, now) && Pending(d, u) in st.pq && d <= Get(st.dist, u)
    requires forall e | e in st.pq :: d <= e.cost
    ensures u !in rank && u in st.dist && st.dist[u] == d
    ensures var st' := st.(pq := st.pq - {Pending(d, u)});
            var rank' := rank[u := |rank|];
            Inv(g, a, st', rank', d)
  {
    var st' := st.(pq := st.pq - {Pending(d, u)});
    var rank' := rank[u := |rank|];
    PopFreshHeap(st, rank, now, d, u);
    RankSize(rank, u);
    PopFreshTree(g, a, st, st', rank, u);
  }

  lemma PopFreshHeap<S(!new)>(st: Frontier<S>, rank: map<S, nat>, now: nat, d: nat, u: S)
    requires HeapInv(st, rank) && AtDistance(st, rank, now) && Pending(d, u) in st.pq && d <= Get(st.dist, u)
    requires forall e | e in st.pq :: d <= e.cost
    ensures u !in rank && u in st.dist && st.dist[u] == d
    ensures var st' := st.(pq := st.pq - {Pending(d, u)});
            HeapInv(st', rank[u := |rank|]) && AtDistance(st', rank[u := |rank|], d)
  {}

  lemma PopFreshTree<S(!new)>(g: Hops<S>, a: S, st: Frontier<S>, st': Frontier<S>, rank: map<S, nat>, u: S)
    requires TreeInv(g, a, st, rank) && DistInv(a, st, rank) && st'.dist == st.dist && st'.prev == st.prev
    requires u !in rank
    ensures TreeInv(g, a, st', rank[u := |rank|])
  {
    forall x | x in st.dist && x != a ensures TreeHop(g, st', rank[u := |rank|], x) {
      assert TreeHop(g, st, rank, x);
    }
  }

  lemma RankSize<S(!new)>(rank: map<S, nat>, u: S)
    requires u !in rank
    ensures |rank[u := |rank|]| == |rank| + 1
  {
    var r := rank[u := |rank|];
    assert r.Keys == rank.Keys + {u};
    assert |r.Keys| == |r| && |rank.Keys| == |rank|;
  }

  lemma PopStale<S(!new)>(g: Hops<S>, a: S, st: Frontier<S>, rank: map<S, nat>, now: nat, d: nat, u: S)
    requires Inv(g, a, st, rank, now) && Pending(d, u) in st.pq && d > Get(st.dist, u)
    ensures Inv(g, a, st.(pq := st.pq - {Pending(d, u)}), rank, now)
  {
    var st' := st.(pq := st.pq - {Pending(d, u)});
    forall x | x in st.dist && x != a ensures TreeHop(g, st', rank, x) {
      assert TreeHop(g, st, rank, x);
    }
  }

  /** A relaxation that changes anything concerns an unexpanded state and pushes a new entry. */
  lemma RelaxKeeps<S(!new)>(g: Hops<S>, a: S, st: Frontier<S>, rank: map<S, nat>, d: nat, e: Hop<S>)
    requires Inv(g, a, st, rank, d)
    requires e in g && e.src in rank && d == Get(st.dist, e.src)
    ensures var st' := Relax(st, d, e);
            && Inv(g, a, st', rank, d)
            && Progress(st, st', rank) && Settled(st'.dist, e)
            && (st' != st ==> e.dst !in rank && Pending(d + |e.seg|, e.dst) !in st.pq)
  {
    RelaxHeap(st, rank, d, e);
    RelaxTree(g, a, st, rank, d, e);
  }

  lemma RelaxHeap<S(!new)>(st: Frontier<S>, rank: map<S, nat>, d: nat, e: Hop<S>)
    requires HeapInv(st, rank) && AtDistance(st, rank, d) && d == Get(st.dist, e.src)
    requires forall x | x in rank :: x in st.dist
    ensures var st' := Relax(st, d, e);
            && HeapInv(st', rank) && AtDistance(st', rank, d) && Progress(st, st', rank)
            && (st' != st ==> e.dst !in rank && Pending(d + |e.seg|, e.dst) !in st.pq)
  {
    if d + |e.seg| < Get(st.dist, e.dst) {
      PushHeap(st, Relax(st, d, e), rank, d, d + |e.seg|, e.dst);
    } else {
      assert Relax(st, d, e) == st;
    }
  }

  lemma PushHeap<S(!new)>(st: Frontier<S>, st': Frontier<S>, rank: map<S, nat>, d: nat, c: nat, v: S)
    requires HeapInv(st, rank) && AtDistance(st, rank, d)
    requires forall x | x in rank :: x in st.dist
    requires d <= c < Get(st.dist, v) && st'.dist == st.dist[v := c] && st'.pq == st.pq + {Pending(c, v)}
    ensures v !in rank && Pending(c, v) !in st.pq
    ensures HeapInv(st', rank) && AtDistance(st', rank, d) && Progress(st, st', rank)
  {}

  lemma RelaxTree<S(!new)>(g: Hops<S>, a: S, st: Frontier<S>, rank: map<S, nat>, d: nat, e: Hop<S>)
    requires TreeInv(g, a, st, rank) && DistInv(a, st, rank) && AtDistance(st, rank, d)
    requires e in g && e.src in rank && d == Get(st.dist, e.src)
    ensures TreeInv(g, a, Relax(st, d, e), rank)
  {
    var st' := Relax(st, d, e);
    forall x | x in st'.dist && x != a ensures TreeHop(g, st', rank, x) {
      assert x != e.dst ==> TreeHop(g, st, rank, x);
    }
  }

  lemma SettledPersists<S(!new)>(st: Frontier<S>, st': Frontier<S>, rank: map<S, nat>, e: Hop<S>)
    requires Progress(st, st', rank) && e.src in rank && e.src in st.dist && Settled(st.dist, e)
    ensures Settled(st'.dist, e)
  {}

  lemma ProgressTwice<S(!new)>(st: Frontier<S>, st1: Frontier<S>, st2: Frontier<S>, rank: map<S, nat>)
    requires Progress(st, st1, rank) && Progress(st1, st2, rank)
    ensures Progress(st, st2, rank)
  {}

  /** Expanding one more node settles all hops again. */
  lemma OneMoreSettled<S(!new)>(g: Hops<S>, st: Frontier<S>, st': Frontier<S>, rank: map<S, nat>, u: S, k: nat)
    requires AllSettled(g, st.dist, rank) && Progress(st, st', rank[u := k])
    requires forall x | x in rank :: x in st.dist
    requires forall e | e in g && e.src == u :: Settled(st'.dist, e)
    ensures AllSettled(g, st'.dist, rank[u := k])
  {
    forall e | e in g && e.src in rank[u := k] ensures Settled(st'.dist, e) {
      if e.src != u {
        assert Settled(st.dist, e);
        SettledPersists(st, st', rank[u := k], e);
      }
    }
  }

  /** The recorded distances are costs of walks. */
  lemma {:induction false} TreeWalk<S(!new)>(g: Hops<S>, a: S, st: Frontier<S>, rank: map<S, nat>, now: nat, x: S)
    returns (w: seq<Hop<S>>)
    requires Inv(g, a, st, rank, now) && x in rank
    ensures Walk(g, a, w, x) && x in st.dist && Cost(w) == st.dist[x]
    decreases rank[x]
  {
    if x == a {
      w := [];
    } else {
      assert TreeHop(g, st, rank, x);
      var e := st.prev[x];
      w := TreeWalk(g, a, st, rank, now, e.src);
      WalkSnoc(g, a, w, e);
      w := w + [e];
    }
  }

  /** No walk beats the search: its end is expanded and no dearer, or a pending entry is. */
  lemma {:induction false} NoWalkBeats<S(!new)>(g: Hops<S>, a: S, st: Frontier<S>, rank: map<S, nat>, now: nat,
                                                w: seq<Hop<S>>, b: S)
    requires Inv(g, a, st, rank, now) && AllSettled(g, st.dist, rank)
    requires Walk(g, a, w, b) && Cost(w) < UNREACHED
    ensures (b in rank && Get(st.dist, b) <= Cost(w)) || exists e :: e in st.pq && e.cost <= Cost(w)
    decreases |w|
  {
    if w == [] {
      if a !in rank { assert Pending(st.dist[a], a) in st.pq; }
    } else {
      var n := |w| - 1;
      NoWalkBeats(g, a, st, rank, now, w[..n], w[n].src);
      if w[n].src in rank && st.dist[w[n].src] <= Cost(w[..n]) {
        assert Settled(st.dist, w[n]);
        if b !in rank { assert Pending(st.dist[b], b) in st.pq; }
      }
    }
  }

  // ----- few states leave no room for the 1e18 default to matter -----

  lemma {:induction false} DistinctFit<S>(s: seq<S>, all: set<S>)
    requires forall x | x in s :: x in all
    requires forall i, j | 0 <= i < j < |s| :: s[i] != s[j]
    ensures |s| <= |all|
  {
    if s != [] {
      var n := |s| - 1;
      forall x | x in s[..n] ensures x in all - {s[n]} {}
      DistinctFit(s[..n], all - {s[n]});
    }
  }

  ghost predicate Stays<S(!new)>(w: seq<Hop<S>>, all: set<S>) {
    forall i | 0 <= i < |w| :: w[i].dst in all
  }

  lemma {:induction false} WalkPrefix<S(!new)>(g: Hops<S>, a: S, w: seq<Hop<S>>, b: S, i: nat)
    requires Walk(g, a, w, b) && i < |w|
    ensures Walk(g, a, w[..i + 1], w[i].dst)
  {
    var n := |w| - 1;
    if i == n {
      assert w[..i + 1] == w;
    } else {
      WalkPrefix(g, a, w[..n], w[n].src, i);
      assert w[..n][..i + 1] == w[..i + 1];
    }
  }

  lemma {:induction false} WalkReplacePrefix<S(!new)>(g: Hops<S>, a: S, w: seq<Hop<S>>, b: S, i: nat, p: seq<Hop<S>>)
    requires Walk(g, a, w, b) && i < |w| && Walk(g, a, p, w[i].dst) && Cost(p) <= Cost(w[..i + 1])
    ensures Walk(g, a, p + w[i + 1..], b) && Cost(p + w[i + 1..]) <= Cost(w)
  {
    var n := |w| - 1;
    if i == n {
      assert w[..i + 1] == w && p + w[i + 1..] == p;
    } else {
      assert w[..n][..i + 1] == w[..i + 1] && w[..n][i + 1..] == w[i + 1..n];
      WalkReplacePrefix(g, a, w[..n], w[n].src, i, p);
      var tail := w[i + 1..n];
      assert w[i + 1..] == tail + [w[n]];
      assert p + (tail + [w[n]]) == (p + tail) + [w[n]];
      WalkSnoc(g, a, p + tail, w[n]);
    }
  }

  /** Cutting out repeats: some walk no dearer makes at most one hop per state. */
  lemma {:induction false} ShortWalk<S(!new)>(g: Hops<S>, a: S, w: seq<Hop<S>>, b: S, all: set<S>)
    returns (v: seq<Hop<S>>)
    requires Walk(g, a, w, b) && Stays(w, all)
    ensures Walk(g, a, v, b) && Cost(v) <= Cost(w) && |v| <= |all| && Stays(v, all)
    decreases |w|
  {
    if |w| <= |all| {
      v := w;
    } else {
      var s := seq(|w|, i requires 0 <= i < |w| => w[i].dst);
      if forall i, j | 0 <= i < j < |s| :: s[i] != s[j] {
        DistinctFit(s, all);
        assert false;
        v := w;
      } else {
        var i, j :| 0 <= i < j < |s| && s[i] == s[j];
        WalkPrefix(g, a, w, b, i);
        CostPrefix(w, i + 1, j + 1);
        WalkReplacePrefix(g, a, w, b, j, w[..i + 1]);
        v := ShortWalk(g, a, w[..i + 1] + w[j + 1..], b, all);
      }
    }
  }

  lemma {:induction false} CostPrefix<S(!new)>(w: seq<Hop<S>>, i: nat, j: nat)
    requires i <= j <= |w|
    ensures Cost(w[..i]) <= Cost(w[..j])
    decreases j
  {
    if i < j {
      assert w[..j][..j - 1] == w[..j - 1];
      CostPrefix(w, i, j - 1);
    }
  }

  lemma {:induction false} CostBound<S(!new)>(w: seq<Hop<S>>, m: nat)
    requires forall i | 0 <= i < |w| :: |w[i].seg| <= m
    ensures Cost(w) <= |w| * m
  {
    if w != [] {
      CostBound(w[..|w| - 1], m);
    }
  }

  ghost predicate Bounded<S(!new)>(g: Hops<S>, all: set<S>, m: nat) {
    forall e | e in g :: e.dst in all && |e.seg| <= m
  }

  lemma {:induction false} HopsInGraph<S(!new)>(g: Hops<S>, a: S, w: seq<Hop<S>>, b: S)
    requires Walk(g, a, w, b)
    ensures forall i | 0 <= i < |w| :: w[i] in g
  {
    if w != [] {
      var n := |w| - 1;
      HopsInGraph(g, a, w[..n], w[n].src);
      assert forall i | 0 <= i < n :: w[i] == w[..n][i];
    }
  }

  /** A walk of any cost has one no dearer below the default, as long as one segment per state is. */
  lemma BelowDefault<S(!new)>(g: Hops<S>, a: S, w: seq<Hop<S>>, b: S, all: set<S>, m: nat) returns (v: seq<Hop<S>>)
    requires Walk(g, a, w, b) && Bounded(g, all, m) && |all| * m < UNREACHED
    ensures Walk(g, a, v, b) && Cost(v) <= Cost(w) && Cost(v) < UNREACHED
  {
    HopsInGraph(g, a, w, b);
    v := ShortWalk(g, a, w, b, all);
    HopsInGraph(g, a, v, b);
    CostBound(v, m);
    MulMonotone(|v|, |all|, m);
  }

  lemma MulMonotone(a: nat, b: nat, m: nat)
    requires a <= b
    ensures a * m <= b * m
  {}
}
