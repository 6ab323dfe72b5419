/** `drop_test_mods` (tools/unsafe_census.py): the bodies of `#[cfg(test)] mod` items blanked in place.
    The header matches found by the pattern are an input. */
module TestMods {
  import opened Asm

  type Source = seq<char>

  /** A match of the header pattern: from `#[cfg(test)]` up to and including the opening brace. */
  datatype Head = Head(start: nat, end: nat)

  /** What `finditer` yields: matches in order, without overlap, each ending in a brace. */
  ghost predicate Matches(s: Source, heads: seq<Head>) {
    && (forall i | 0 <= i < |heads| :: heads[i].start < heads[i].end <= |s| && s[heads[i].end - 1] == '{')
    && forall i, j | 0 <= i < j < |heads| :: heads[i].end <= heads[j].start
  }

  /** No header closes a brace it did not open; most hold none but the last. */
  ghost predicate HeadsOk(s: Source, heads: seq<Head>) {
    Matches(s, heads) && forall i | 0 <= i < |heads| :: OpensFirst(s, heads[i])
  }

  ghost predicate OpensFirst(s: Source, h: Head)
    requires h.start < h.end <= |s|
  {
    forall k | h.start <= k < h.end :: Depth(s, h.start, k) >= 0
  }

  /** The braces left open by a header before its last. */
  function Excess(s: Source, h: Head): int
    requires h.start < h.end <= |s|
  {
    Depth(s, h.start, h.end - 1)
  }

  ghost predicate HeadsBalanced(s: Source, heads: seq<Head>) {
    HeadsOk(s, heads) && forall i | 0 <= i < |heads| :: Excess(s, heads[i]) == 0
  }

  /** From depth `d` at `j`, where the depth first returns to 0. */
  function CloseFrom(s: Source, j: nat, d: nat): (c: Option<nat>)
    requires d > 0
    ensures c.Some? ==> j <= c.value < |s| && s[c.value] == '}'
    decreases |s| - j
  {
    if j >= |s| then None
    else if s[j] == '{' then CloseFrom(s, j + 1, d + 1)
    else if s[j] == '}' then (if d == 1 then Some(j) else CloseFrom(s, j + 1, d - 1))
    else CloseFrom(s, j + 1, d)
  }

  /** The brace that closes a header's opening brace. */
  function Close(s: Source, h: Head): (c: Option<nat>)
    ensures c.Some? ==> h.end <= c.value < |s|
  {
    CloseFrom(s, h.end, 1)
  }

  function Erase(o: Source, lo: nat, hi: nat): (r: Source)
    ensures |r| == |o|
  {
    seq(|o|, k requires 0 <= k < |o| => if lo <= k < hi && o[k] != '\n' then ' ' else o[k])
  }

  function Drop(s: Source, heads: seq<Head>): (o: Source)
    ensures |o| == |s|
  {
    if heads == [] then s else
      var n := |heads| - 1;
      var o := Drop(s, heads[..n]);
      match Close(s, heads[n])
      case None => o
      case Some(c) => Erase(o, heads[n].start, c + 1)
  }

  // ----- the loops -----

  method FindClose(s: Source, h: Head) returns (c: Option<nat>)
    requires 0 < h.end <= |s| && s[h.end - 1] == '{'
    ensures c == Close(s, h) && FirstReturn(s, h.end, 1, c)
  {
    CloseFirst(s, h.end, 1);
    var depth := 0;
    for j := h.end - 1 to |s|
      invariant if j == h.end - 1 then depth == 0 else depth > 0 && CloseFrom(s, j, depth) == Close(s, h)
    {
      if s[j] == '{' {
        depth := depth + 1;
      } else if s[j] == '}' {
        depth := depth - 1;
        if depth == 0 {
          return Some(j);
        }
      }
    }
    c := None;
  }

  method EraseInPlace(out: array<char>, lo: nat, hi: nat)
    requires lo <= hi <= out.Length
    modifies out
    ensures out[..] == Erase(old(out[..]), lo, hi)
  {
    for k := lo to hi
      invariant forall m | 0 <= m < k :: out[m] == Erase(old(out[..]), lo, hi)[m]
      invariant forall m | k <= m < out.Length :: out[m] == old(out[m])
    {
      if out[k] != '\n' {
        out[k] := ' ';
      }
    }
  }

  method DropTestMods(s: Source, heads: seq<Head>) returns (r: Source)
    requires Matches(s, heads)
    ensures r == Drop(s, heads) && Blanked(s, heads, r)
  {
    var out := new char[|s|](i requires 0 <= i < |s| => s[i]);
    assert out[..] == s;
    for i := 0 to |heads|
      invariant out[..] == Drop(s, heads[..i])
    {
      assert heads[..i + 1][..i] == heads[..i];
      var c := FindClose(s, heads[i]);
      if c.Some? {
        EraseInPlace(out, heads[i].start, c.value + 1);
      }
    }
    assert heads[..|heads|] == heads;
    r := out[..];
    DropIsBlanked(s, heads);
  }

  // ----- what is erased -----

  ghost predicate ErasedAt(s: Source, heads: seq<Head>, k: nat) {
    exists i :: 0 <= i < |heads| && ErasedBy(s, heads[i], k)
  }

  predicate ErasedBy(s: Source, h: Head, k: nat) {
    Close(s, h).Some? && h.start <= k <= Close(s, h).value
  }

  /** Exactly the closed modules are blanked, each from its attribute to its closing brace; newlines and
      everything else stay. A module that is never closed stays too. */
  lemma {:induction false} DropAt(s: Source, heads: seq<Head>, k: nat)
    requires k < |s|
    ensures Drop(s, heads)[k] == if ErasedAt(s, heads, k) && s[k] != '\n' then ' ' else s[k]
  {
    if heads != [] {
      var n := |heads| - 1;
      DropAt(s, heads[..n], k);
      assert forall i | 0 <= i < n :: heads[..n][i] == heads[i];
      if ErasedAt(s, heads, k) && !ErasedBy(s, heads[n], k) {
        var i :| 0 <= i < |heads| && ErasedBy(s, heads[i], k);
        assert ErasedBy(s, heads[..n][i], k);
      }
      if ErasedAt(s, heads[..n], k) {
        var i :| 0 <= i < n && ErasedBy(s, heads[..n][i], k);
        assert ErasedBy(s, heads[i], k);
      }
    }
  }

  /** Position `k` lies between the start of a match and the brace where the depth its last brace opens first
      returns to 0. */
  ghost predicate InClosedModule(s: Source, heads: seq<Head>, k: nat) {
    exists i, c: nat ::
      0 <= i < |heads| && heads[i].end <= |s| && FirstReturn(s, heads[i].end, 1, Some(c)) && heads[i].start <= k <= c
  }

  /** The closed modules are blank but for their newlines, and nothing else has changed. */
  ghost predicate Blanked(s: Source, heads: seq<Head>, r: Source) {
    |r| == |s| && forall k: nat | k < |s| :: r[k] == if InClosedModule(s, heads, k) && s[k] != '\n' then ' ' else s[k]
  }

  lemma DropIsBlanked(s: Source, heads: seq<Head>)
    requires Matches(s, heads)
    ensures Blanked(s, heads, Drop(s, heads))
  {
    hide Drop, Close, FirstReturn;
    forall k: nat | k < |s| ensures ErasedAt(s, heads, k) <==> InClosedModule(s, heads, k) {
      if i :| 0 <= i < |heads| && ErasedBy(s, heads[i], k) {
        CloseIff(s, heads[i]);
        assert FirstReturn(s, heads[i].end, 1, Close(s, heads[i]));
      }
      if i, c: nat :|
        0 <= i < |heads| && heads[i].end <= |s| && FirstReturn(s, heads[i].end, 1, Some(c)) && heads[i].start <= k <= c
      {
        CloseIff(s, heads[i]);
        assert ErasedBy(s, heads[i], k);
      }
      DropAt(s, heads, k);
    }
    forall k: nat | k < |s| { DropAt(s, heads, k); }
  }

  // ----- brace depth -----

  function Brace(c: char): int {
    if c == '{' then 1 else if c == '}' then -1 else 0
  }

  /** Opening minus closing braces in `t[i..j]`. */
  function Depth(t: Source, i: nat, j: nat): int
    requires i <= j <= |t|
    decreases j
  {
    if i == j then 0 else Depth(t, i, j - 1) + Brace(t[j - 1])
  }

  lemma {:induction false} DepthJoin(t: Source, i: nat, m: nat, j: nat)
    requires i <= m <= j <= |t|
    ensures Depth(t, i, j) == Depth(t, i, m) + Depth(t, m, j)
    decreases j
  {
    if m < j { DepthJoin(t, i, m, j - 1); }
  }

  lemma {:induction false} DepthSame(a: Source, b: Source, i: nat, j: nat)
    requires |a| == |b| && i <= j <= |a| && forall k | i <= k < j :: Brace(a[k]) == Brace(b[k])
    ensures Depth(a, i, j) == Depth(b, i, j)
    decreases j
  {
    if i < j { DepthSame(a, b, i, j - 1); }
  }

  lemma {:induction false} DepthZero(t: Source, i: nat, j: nat)
    requires i <= j <= |t| && forall k | i <= k < j :: Brace(t[k]) == 0
    ensures Depth(t, i, j) == 0
    decreases j
  {
    if i < j { DepthZero(t, i, j - 1); }
  }

  /** Where the depth, `d` at `j`, first returns to 0; nowhere if `c` is absent. */
  ghost predicate FirstReturn(s: Source, j: nat, d: nat, c: Option<nat>)
    requires j <= |s|
  {
    match c
    case None => forall k | j <= k <= |s| :: d + Depth(s, j, k) > 0
    case Some(c) => j <= c < |s| && d + Depth(s, j, c + 1) == 0 && forall k | j <= k <= c :: d + Depth(s, j, k) > 0
  }

  lemma {:induction false} CloseFirst(s: Source, j: nat, d: nat)
    requires d > 0 && j <= |s|
    ensures FirstReturn(s, j, d, CloseFrom(s, j, d))
    decreases |s| - j
  {
    if j < |s| {
      forall k | j < k <= |s| ensures Depth(s, j, k) == Brace(s[j]) + Depth(s, j + 1, k) {
        DepthJoin(s, j, j + 1, k);
        assert Depth(s, j, j) == 0;
      }
      if d + Brace(s[j]) > 0 { CloseFirst(s, j + 1, d + Brace(s[j])); }
    }
  }

  lemma FirstReturnUnique(s: Source, j: nat, d: nat, c: Option<nat>, c': Option<nat>)
    requires j <= |s| && FirstReturn(s, j, d, c) && FirstReturn(s, j, d, c')
    ensures c == c'
  {}

  /** The brace found closes the header's: counted from there the depth is 0 behind it and positive at every
      place before. None is found exactly when the depth never returns to 0. */
  lemma CloseIff(s: Source, h: Head)
    requires 0 < h.end <= |s| && s[h.end - 1] == '{'
    ensures forall c :: Close(s, h) == c <==> FirstReturn(s, h.end, 1, c)
    ensures Close(s, h).None? <==> NeverReturns(s, h.end - 1)
    ensures Close(s, h).Some? ==> Depth(s, h.end - 1, Close(s, h).value + 1) == 0
  {
    hide CloseFrom;
    CloseFirst(s, h.end, 1);
    forall c | FirstReturn(s, h.end, 1, c) ensures Close(s, h) == c {
      FirstReturnUnique(s, h.end, 1, c, Close(s, h));
    }
    var open := h.end - 1;
    forall k | open < k <= |s| ensures Depth(s, open, k) == 1 + Depth(s, h.end, k) {
      DepthJoin(s, open, h.end, k);
      assert Depth(s, open, open) == 0;
    }
    if Close(s, h).Some? { assert !NeverReturns(s, open) by { assert Depth(s, open, Close(s, h).value + 1) == 0; } }
  }

  /** Behind the brace at `open` the depth counted from it is never 0. */
  ghost predicate NeverReturns(s: Source, open: nat) {
    forall k | open < k <= |s| :: Depth(s, open, k) != 0
  }

  lemma CloseBalances(s: Source, j: nat, d: nat)
    requires d > 0 && CloseFrom(s, j, d).Some?
    ensures Depth(s, j, CloseFrom(s, j, d).value + 1) + d == 0
  {
    CloseFirst(s, j, d);
  }

  /** A module, from its attribute to its closing brace, leaves open what its header does. */
  lemma ModuleExcess(s: Source, h: Head)
    requires h.start < h.end <= |s| && s[h.end - 1] == '{' && Close(s, h).Some?
    ensures Depth(s, h.start, Close(s, h).value + 1) == Excess(s, h)
  {
    var c := Close(s, h).value;
    CloseBalances(s, h.end, 1);
    DepthJoin(s, h.start, h.end, c + 1);
  }

  // ----- modules nest or are apart -----

  lemma {:induction false} ShallowerClosesFirst(s: Source, j: nat, d: nat, e: nat)
    requires 0 < e < d && CloseFrom(s, j, d).Some?
    ensures CloseFrom(s, j, e).Some? && CloseFrom(s, j, e).value < CloseFrom(s, j, d).value
    decreases |s| - j
  {
    if s[j] == '{' {
      ShallowerClosesFirst(s, j + 1, d + 1, e + 1);
    } else if s[j] == '}' {
      if e > 1 { ShallowerClosesFirst(s, j + 1, d - 1, e - 1); }
    } else {
      ShallowerClosesFirst(s, j + 1, d, e);
    }
  }

  /** The scan at a later position, as long as the depth stays positive on the way. */
  lemma CloseShift(s: Source, j: nat, d: nat, m: nat)
    requires d > 0 && j <= m <= |s| && forall k | j <= k <= m :: d + Depth(s, j, k) > 0
    ensures CloseFrom(s, m, d + Depth(s, j, m)) == CloseFrom(s, j, d)
  {
    hide CloseFrom;
    var e := d + Depth(s, j, m);
    CloseFirst(s, j, d);
    CloseFirst(s, m, e);
    forall k | m <= k <= |s| ensures d + Depth(s, j, k) == e + Depth(s, m, k) { DepthJoin(s, j, m, k); }
    FirstReturnUnique(s, j, d, CloseFrom(s, j, d), CloseFrom(s, m, e));
  }

  /** A header inside a closed module closes inside it. */
  lemma Nested(s: Source, heads: seq<Head>, a: nat, b: nat)
    requires HeadsOk(s, heads) && a < b < |heads| && Close(s, heads[a]).Some?
    requires heads[b].start <= Close(s, heads[a]).value
    ensures Close(s, heads[b]).Some? && Close(s, heads[b]).value < Close(s, heads[a]).value
  {
    var from, start, open := heads[a].end, heads[b].start, heads[b].end - 1;
    CloseFirst(s, from, 1);
    assert OpensFirst(s, heads[b]);
    forall k | from <= k <= open ensures 1 + Depth(s, from, k) > 0 {
      if k > start { DepthJoin(s, from, start, k); }
    }
    CloseShift(s, from, 1, open);
    ShallowerClosesFirst(s, open + 1, 2 + Depth(s, from, open), 1);
  }

  // ----- depth of what is kept -----

  ghost predicate Blank(o: Source, lo: nat, hi: nat) {
    hi <= |o| && forall k | lo <= k < hi :: o[k] == ' ' || o[k] == '\n'
  }

  /** The part handled so far ends at `r`: nothing is touched from there on, and if anything was erased
      then the module of some header, closing at `r`, is blank. */
  ghost predicate HandledTo(s: Source, heads: seq<Head>, n: nat, r: nat) {
    && n <= |heads| && r <= |s|
    && (forall k | r <= k < |s| :: Drop(s, heads[..n])[k] == s[k])
    && (forall a | 0 <= a < n && Close(s, heads[a]).Some? :: Close(s, heads[a]).value < r)
    && (r > 0 ==> exists a :: 0 <= a < n && ClosesAt(s, heads, n, a, r))
  }

  ghost predicate ClosesAt(s: Source, heads: seq<Head>, n: nat, a: nat, r: nat)
    requires a < |heads| && n <= |heads|
  {
    Close(s, heads[a]) == Some(r - 1) && Blank(Drop(s, heads[..n]), heads[a].start, r)
  }

  lemma EraseBlank(o: Source, lo: nat, hi: nat)
    requires Blank(o, lo, hi)
    ensures Erase(o, lo, hi) == o
  {}

  /** Erasing an untouched stretch takes its depth away behind it. */
  lemma EraseUntouched(s: Source, o: Source, lo: nat, hi: nat, k: nat)
    requires |o| == |s| && lo <= hi <= |s| && k <= |s| && (k <= lo || k >= hi)
    requires forall m | lo <= m < hi :: o[m] == s[m]
    ensures Depth(Erase(o, lo, hi), 0, k) == Depth(o, 0, k) - if k < hi then 0 else Depth(s, lo, hi)
  {
    var e := Erase(o, lo, hi);
    if k >= hi {
      EraseOutside(o, lo, hi, k);
      DepthJoin(o, 0, lo, k);
      DepthJoin(o, lo, hi, k);
      DepthSame(s, o, lo, hi);
    } else {
      DepthSame(e, o, 0, k);
    }
  }

  lemma DropStep(s: Source, heads: seq<Head>, n: nat)
    requires n < |heads|
    ensures Drop(s, heads[..n + 1]) ==
      if Close(s, heads[n]).None? then Drop(s, heads[..n])
      else Erase(Drop(s, heads[..n]), heads[n].start, Close(s, heads[n]).value + 1)
  {
    assert heads[..n + 1][..n] == heads[..n];
  }

  /** A header that changes nothing, because its module never closes or is blank already. */
  lemma NothingNew(s: Source, heads: seq<Head>, n: nat, r: nat)
    requires n < |heads| && HandledTo(s, heads, n, r) && Drop(s, heads[..n + 1]) == Drop(s, heads[..n])
    requires Close(s, heads[n]).Some? ==> Close(s, heads[n]).value < r
    ensures HandledTo(s, heads, n + 1, r)
  {
    hide Drop, Close;
    if r > 0 {
      var a :| 0 <= a < n && ClosesAt(s, heads, n, a, r);
      assert ClosesAt(s, heads, n + 1, a, r);
    }
  }

  lemma InsideBlank(s: Source, heads: seq<Head>, n: nat, r: nat)
    requires HeadsOk(s, heads) && n < |heads| && HandledTo(s, heads, n, r)
    requires Close(s, heads[n]).Some? && heads[n].start < r
    ensures Drop(s, heads[..n + 1]) == Drop(s, heads[..n])
    ensures Close(s, heads[n]).value < r && !Outer(s, heads, n)
  {
    hide Drop, Close, HeadsOk, Erase;
    var a :| 0 <= a < n && ClosesAt(s, heads, n, a, r);
    Nested(s, heads, a, n);
    HeadOrder(s, heads, a, n);
    DropStep(s, heads, n);
    EraseBlank(Drop(s, heads[..n]), heads[n].start, Close(s, heads[n]).value + 1);
  }

  lemma HeadOrder(s: Source, heads: seq<Head>, a: nat, b: nat)
    requires HeadsOk(s, heads) && a < b < |heads|
    ensures heads[a].start < heads[b].start
  {}

  lemma Untouched(s: Source, heads: seq<Head>, n: nat, r: nat)
    requires HeadsOk(s, heads) && n < |heads| && HandledTo(s, heads, n, r) && r <= heads[n].start
    requires Close(s, heads[n]).Some?
    ensures HandledTo(s, heads, n + 1, Close(s, heads[n]).value + 1)
  {
    hide Drop, Close;
    DropStep(s, heads, n);
    var r' := Close(s, heads[n]).value + 1;
    forall k | r' <= k < |s| ensures Drop(s, heads[..n + 1])[k] == s[k] {
      assert Drop(s, heads[..n])[k] == s[k];
    }
    assert ClosesAt(s, heads, n + 1, n, r');
  }

  /** Module `n` is closed and not inside an earlier closed one. */
  ghost predicate Outer(s: Source, heads: seq<Head>, n: nat)
    requires n < |heads|
  {
    Close(s, heads[n]).Some? && forall a | 0 <= a < n :: !ErasedBy(s, heads[a], heads[n].start)
  }

  lemma BehindAll(s: Source, heads: seq<Head>, n: nat, r: nat)
    requires n < |heads| && HandledTo(s, heads, n, r) && r <= heads[n].start && Close(s, heads[n]).Some?
    ensures Outer(s, heads, n)
  {
    hide Drop, Close;
  }

  /** What the first `n` headers, erased with their modules, take from the depth at `k`. */
  ghost function Lost(s: Source, heads: seq<Head>, n: nat, k: nat): int
    requires n <= |heads| && HeadsOk(s, heads)
  {
    if n == 0 then 0 else
      Lost(s, heads, n - 1, k) +
        if Outer(s, heads, n - 1) && Close(s, heads[n - 1]).value < k then Excess(s, heads[n - 1]) else 0
  }

  /** One more header: outside its module, the depth changes by what its braces leave open. */
  lemma OneMore(s: Source, heads: seq<Head>, n: nat, r: nat, k: nat) returns (r': nat)
    requires HeadsOk(s, heads) && n < |heads| && HandledTo(s, heads, n, r) && k <= |s|
    requires !ErasedBy(s, heads[n], k) || k == |s|
    ensures HandledTo(s, heads, n + 1, r')
    ensures Depth(Drop(s, heads[..n + 1]), 0, k) == Depth(Drop(s, heads[..n]), 0, k) -
            if Outer(s, heads, n) && Close(s, heads[n]).value < k then Excess(s, heads[n]) else 0
  {
    hide Drop, Erase, Close, Excess;
    DropStep(s, heads, n);
    r' := r;
    if Close(s, heads[n]).None? {
      NothingNew(s, heads, n, r);
    } else if heads[n].start < r {
      InsideBlank(s, heads, n, r);
      NothingNew(s, heads, n, r);
    } else {
      BehindAll(s, heads, n, r);
      Untouched(s, heads, n, r);
      ModuleExcess(s, heads[n]);
      r' := Close(s, heads[n]).value + 1;
      EraseUntouched(s, Drop(s, heads[..n]), heads[n].start, r', k);
    }
  }

  lemma {:induction false} DropChangesDepth(s: Source, heads: seq<Head>, n: nat, k: nat) returns (r: nat)
    requires HeadsOk(s, heads) && n <= |heads| && k <= |s|
    requires k == |s| || !ErasedAt(s, heads, k)
    ensures HandledTo(s, heads, n, r)
    ensures Depth(Drop(s, heads[..n]), 0, k) == Depth(s, 0, k) - Lost(s, heads, n, k)
  {
    hide Outer, Excess;
    if n == 0 {
      assert heads[..0] == [];
      r := 0;
    } else {
      var r0 := DropChangesDepth(s, heads, n - 1, k);
      r := OneMore(s, heads, n - 1, r0, k);
    }
  }

  lemma {:induction false} LostNothingIff(s: Source, heads: seq<Head>, n: nat, k: nat)
    requires n <= |heads| && HeadsOk(s, heads)
    ensures Lost(s, heads, n, k) >= 0
    ensures Lost(s, heads, n, k) == 0 <==>
            forall i | 0 <= i < n && Outer(s, heads, i) && Close(s, heads[i]).value < k :: Excess(s, heads[i]) == 0
  {
    hide Outer, Close;
    if n > 0 {
      LostNothingIff(s, heads, n - 1, k);
      assert OpensFirst(s, heads[n - 1]);
    }
  }

  /** Outside the erased modules, and for the text as a whole, the brace depth is unchanged if and only if the
      header of every outermost closed module before it closes what it opens. */
  lemma DepthKeptIff(s: Source, heads: seq<Head>, k: nat)
    requires HeadsOk(s, heads) && k <= |s| && (k == |s| || !ErasedAt(s, heads, k))
    ensures Depth(Drop(s, heads), 0, k) == Depth(s, 0, k) <==>
            forall i | 0 <= i < |heads| && Outer(s, heads, i) && Close(s, heads[i]).value < k ::
              Excess(s, heads[i]) == 0
  {
    hide Outer, Excess, Close, Drop, Lost;
    var r := DropChangesDepth(s, heads, |heads|, k);
    LostNothingIff(s, heads, |heads|, k);
    assert heads[..|heads|] == heads;
  }

  /** A kept character stays where it was, at the brace depth it had; also with nested modules and with
      modules that are never closed. */
  lemma KeptCharactersKeepDepth(s: Source, heads: seq<Head>, k: nat)
    requires HeadsBalanced(s, heads) && k < |s| && !ErasedAt(s, heads, k)
    ensures Drop(s, heads)[k] == s[k] && Depth(Drop(s, heads), 0, k) == Depth(s, 0, k)
  {
    DropAt(s, heads, k);
    DepthKeptIff(s, heads, k);
  }

  /** The text as a whole stays as balanced as it was. */
  lemma WholeDepthKept(s: Source, heads: seq<Head>)
    requires HeadsBalanced(s, heads)
    ensures Depth(Drop(s, heads), 0, |s|) == Depth(s, 0, |s|)
  {
    DepthKeptIff(s, heads, |s|);
  }

  /** One module alone: behind it the depth is unchanged if and only if the braces of its header cancel out,
      even if the header closes braces it did not open. */
  lemma OneHeaderIff(s: Source, h: Head, k: nat)
    requires Matches(s, [h]) && Close(s, h).Some? && Close(s, h).value < k <= |s|
    ensures Depth(Drop(s, [h]), 0, k) == Depth(s, 0, k) <==> Excess(s, h) == 0
  {
    hide Close, Erase, Excess;
    assert [h][0] == h && [h][..0] == [];
    var lo, hi := h.start, Close(s, h).value + 1;
    assert Drop(s, [h]) == Erase(s, lo, hi);
    ModuleExcess(s, h);
    EraseUntouched(s, s, lo, hi, k);
  }

  lemma EraseOutside(s: Source, lo: nat, hi: nat, k: nat)
    requires lo <= hi <= k <= |s|
    ensures Depth(Erase(s, lo, hi), 0, k) == Depth(s, 0, lo) + Depth(s, hi, k)
  {
    var e := Erase(s, lo, hi);
    DepthJoin(e, 0, lo, k);
    DepthJoin(e, lo, hi, k);
    DepthSame(e, s, 0, lo);
    DepthSame(e, s, hi, k);
    DepthZero(e, lo, hi);
  }
}
