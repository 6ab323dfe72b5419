/** `strip` (tools/unsafe_census.py): comments and string and character literals of a Rust source
    replaced by blanks of the same length. `alnum` stands for Python's `str.isalnum`. */
module Strip {

  import opened Tokens

  predicate Starts(src: Text, i: nat, pat: Text) {
    i + |pat| <= |src| && src[i..i + |pat|] == pat
  }

  /** `src.find(pat, i)`, the length of `src` standing for "not found". */
  function Find(src: Text, i: nat, pat: Text): (j: nat)
    ensures i <= |src| ==> i <= j <= |src|
    ensures i < |src| && pat != [] && !Starts(src, i, pat) ==> i < j
    ensures j < |src| ==> Starts(src, j, pat)
    decreases |src| - i
  {
    if i >= |src| then |src| else if Starts(src, i, pat) then i else Find(src, i + 1, pat)
  }

  function Min(a: nat, b: nat): nat {
    if a < b then a else b
  }

  // ----- where each kind of token ends -----

  /** Nested block comments. */
  function CommentEnd(src: Text, j: nat, depth: nat): (e: nat)
    requires j <= |src|
    ensures j <= e <= |src|
    decreases |src| - j
  {
    if j == |src| || depth == 0 then j
    else if Pair(src, j, '/', '*') then CommentEnd(src, j + 2, depth + 1)
    else if Pair(src, j, '*', '/') then CommentEnd(src, j + 2, depth - 1)
    else CommentEnd(src, j + 1, depth)
  }

  /** A block comment ends where as many comments have been closed as opened for the first time, else at the
      end of the text. */
  lemma {:induction false} CommentEndsWhenClosed(src: Text, j: nat, depth: nat)
    requires j <= |src|
    ensures FirstClosed(src, j, depth, CommentEnd(src, j, depth))
    decreases |src| - j
  {
    if j < |src| && depth > 0 {
      var k := PastToken(src, j);
      var d := depth + if Pair(src, j, '/', '*') then 1 else if Pair(src, j, '*', '/') then -1 else 0;
      CommentEndsWhenClosed(src, k, d);
      var e := CommentEnd(src, k, d);
      assert CommentEnd(src, j, depth) == e;
      forall p | j <= p <= e && Between(src, j, p)
        ensures p == j || (k <= p && Between(src, k, p) && depth + Nesting(src, j, p) == d + Nesting(src, k, p))
      {
        if p != j { BetweenLater(src, k, p); }
      }
    }
  }

  lemma {:induction false} BetweenLater(src: Text, j: nat, p: nat)
    requires j <= |src| && Between(src, j, p)
    ensures j <= p <= |src|
    decreases |src| - j
  {
    if j != p { BetweenLater(src, PastToken(src, j), p); }
  }

  method CommentScan(src: Text, i: nat) returns (j: nat)
    requires Pair(src, i, '/', '*')
    ensures j == CommentEnd(src, i + 2, 1) && FirstClosed(src, i + 2, 1, j)
  {
    CommentEndsWhenClosed(src, i + 2, 1);
    var depth := 1;
    j := i + 2;
    while j < |src| && depth != 0
      invariant j <= |src| && depth >= 0
      invariant CommentEnd(src, i + 2, 1) == CommentEnd(src, j, depth)
      decreases |src| - j
    {
      if Pair(src, j, '/', '*') {
        depth, j := depth + 1, j + 2;
      } else if Pair(src, j, '*', '/') {
        depth, j := depth - 1, j + 2;
      } else {
        j := j + 1;
      }
    }
  }

  /** The closing quote, skipping the character after a backslash; cut off at the end of the text. */
  function StringEnd(src: Text, j: nat): (e: nat)
    ensures j <= |src| ==> j <= e <= |src|
    ensures j < |src| ==> e > j
    decreases |src| - j
  {
    if j >= |src| then |src|
    else if src[j] == '"' then j + 1
    else StringEnd(src, j + if src[j] == '\\' then 2 else 1)
  }

  /** A string ends behind the first quote with an even run of backslashes before it. */
  lemma StringEndsAtFirstQuote(src: Text, lo: nat)
    requires lo <= |src|
    ensures FirstQuote(src, lo, StringEnd(src, lo))
  {
    FirstQuoteFrom(src, lo, lo);
  }

  lemma {:induction false} FirstQuoteFrom(src: Text, lo: nat, j: nat)
    requires lo <= j && lo <= |src|
    requires forall k | lo <= k < j :: !Unescaped(src, lo, k)
    requires j <= |src| ==> Slashes(src, lo, j) % 2 == 0
    ensures FirstQuote(src, lo, StringEnd(src, j))
    decreases |src| - j
  {
    if j < |src| && src[j] != '"' {
      assert !Unescaped(src, lo, j);
      assert src[j] == '\\' ==> !Unescaped(src, lo, j + 1);
      FirstQuoteFrom(src, lo, j + if src[j] == '\\' then 2 else 1);
    }
  }

  method StringScan(src: Text, i: nat) returns (e: nat)
    requires i < |src|
    ensures e == StringEnd(src, i + 1) && FirstQuote(src, i + 1, e)
  {
    StringEndsAtFirstQuote(src, i + 1);
    var j := i + 1;
    while j < |src| && src[j] != '"'
      invariant StringEnd(src, i + 1) == StringEnd(src, j)
      decreases |src| - j
    {
      j := j + if src[j] == '\\' then 2 else 1;
    }
    e := Min(j + 1, |src|);
  }

  function Hashes(src: Text, k: nat, limit: nat): (q: nat)
    ensures q >= k && forall m | k <= m < q :: m < |src| && src[m] == '#'
    decreases limit - k
  {
    if k < limit && k < |src| && src[k] == '#' then Hashes(src, k + 1, limit) else k
  }

  /** The index of the opening quote of a raw string at `i` (`b?r(#*)"` within eight characters), or
      `i` when there is none. */
  function RawOpen(src: Text, i: nat): (q: nat)
    requires i < |src|
    ensures q != i ==> i < q < |src| && src[q] == '"' && (src[i] == 'r' || src[i] == 'b')
  {
    var r := if src[i] == 'b' then i + 1 else i;
    if r < |src| && src[r] == 'r' then
      var q := Hashes(src, r + 1, i + 8);
      if q < i + 8 && q < |src| && src[q] == '"' then q else i
    else i
  }

  /** The closing delimiter: a quote and as many hashes as the opening has. */
  function RawDelimiter(src: Text, i: nat): (end: Text)
    requires i < |src| && RawOpen(src, i) != i
    ensures |end| > 0
  {
    ['"'] + seq(RawOpen(src, i) - (if src[i] == 'b' then i + 2 else i + 1), _ => '#')
  }

  function RawEnd(src: Text, i: nat): (e: nat)
    requires i < |src| && RawOpen(src, i) != i
    ensures i + 1 < e <= |src|
  {
    var end := RawDelimiter(src, i);
    var j := Find(src, RawOpen(src, i) + 1, end);
    if j == |src| then |src| else j + |end|
  }

  /** A raw string ends with the first closing delimiter after its opening quote; without one it runs
      to the end of the text. */
  lemma RawEndsAtFirstDelimiter(src: Text, i: nat)
    requires i < |src| && RawOpen(src, i) != i
    ensures var q, end, e := RawOpen(src, i), RawDelimiter(src, i), RawEnd(src, i);
      (e == |src| && forall k | q < k < |src| :: !Starts(src, k, end))
      || (q < e - |end| && Starts(src, e - |end|, end) && forall k | q < k < e - |end| :: !Starts(src, k, end))
  {
    NoneBefore(src, RawOpen(src, i) + 1, RawDelimiter(src, i));
  }

  lemma {:induction false} NoneBefore(src: Text, i: nat, pat: Text)
    ensures forall k | i <= k < Find(src, i, pat) && k < |src| :: !Starts(src, k, pat)
    decreases |src| - i
  {
    if i < |src| && !Starts(src, i, pat) { NoneBefore(src, i + 1, pat); }
  }

  predicate IsHex(c: char) {
    '0' <= c <= '9' || 'a' <= c <= 'f' || 'A' <= c <= 'F'
  }

  function HexRun(src: Text, k: nat): (q: nat)
    ensures q >= k && forall m | k <= m < q :: m < |src| && IsHex(src[m])
    decreases |src| - k
  {
    if k < |src| && IsHex(src[k]) then HexRun(src, k + 1) else k
  }

  /** The length of a character literal at `i`, 0 if there is none: `'\x'`, `'\xHH'`, `'\u{H..}'` in
      at most twelve characters, or a single character between quotes. */
  function CharLit(src: Text, i: nat): (len: nat)
    requires i < |src|
    ensures len != 0 ==> len >= 3 && i + len <= |src| && src[i] == '\''
  {
    if src[i] != '\'' then 0
    else if i + 3 < |src| && src[i + 1] == '\\' && src[i + 2] != '\n' && src[i + 3] == '\'' then 4
    else if i + 5 < |src| && src[i + 1] == '\\' && src[i + 2] == 'x' && IsHex(src[i + 3]) && IsHex(src[i + 4])
      && src[i + 5] == '\'' then 6
    else if i + 4 < |src| && src[i + 1] == '\\' && src[i + 2] == 'u' && src[i + 3] == '{' then
      var q := HexRun(src, i + 4);
      if q > i + 4 && q + 1 < |src| && q + 1 < i + 12 && src[q] == '}' && src[q + 1] == '\'' then q + 2 - i else 0
    else if i + 2 < |src| && src[i + 1] != '\\' && src[i + 1] != '\'' && src[i + 2] == '\'' then 3
    else 0
  }

  // ----- the lexer -----

  /** What the main loop does at a position: copy the character, or blank up to `end`; a character
      literal is blanked without looking for newlines. */
  datatype Tok = Copy | Blank(end: nat, keepsNewlines: bool)

  predicate RawAllowed(src: Text, i: nat, alnum: char -> bool)
    requires i <= |src|
  {
    i == 0 || !(alnum(src[i - 1]) || src[i - 1] == '_')
  }

  function TokAt(src: Text, i: nat, alnum: char -> bool): (t: Tok)
    requires i < |src|
    ensures t.Blank? ==> i < t.end <= |src| && src[i] != '\n' && src[i] != ' '
    ensures t.Blank? && t.end == i + 1 ==> t.end == |src|
    ensures t.Copy? ==> src[i] != '"' && CharLit(src, i) == 0 && !Pair(src, i, '/', '/') && !Pair(src, i, '/', '*')
  {
    if Pair(src, i, '/', '/') then Blank(LineEnd(src, i), true)
    else if Pair(src, i, '/', '*') then Blank(CommentEnd(src, i + 2, 1), true)
    else if RawOpen(src, i) != i && RawAllowed(src, i, alnum) then Blank(RawEnd(src, i), true)
    else if src[i] == '"' then Blank(StringEnd(src, i + 1), true)
    else if CharLit(src, i) != 0 then Blank(i + CharLit(src, i), false)
    else Copy
  }

  /** `src.find('\n', i)`, or the length of `src`. */
  function LineEnd(src: Text, i: nat): (e: nat)
    requires i <= |src|
    ensures i <= e <= |src| && forall k | i <= k < e :: src[k] != '\n'
    ensures e < |src| ==> src[e] == '\n'
    decreases |src| - i
  {
    if i == |src| || src[i] == '\n' then i else LineEnd(src, i + 1)
  }

  function Blanks(part: Text, keep: bool): (b: Text)
    ensures |b| == |part|
  {
    seq(|part|, k requires 0 <= k < |part| => if keep && part[k] == '\n' then '\n' else ' ')
  }

  function StripFrom(src: Text, i: nat, alnum: char -> bool): (out: Text)
    requires i <= |src|
    ensures |out| == |src| - i
    decreases |src| - i
  {
    if i == |src| then [] else
      match TokAt(src, i, alnum)
      case Copy => [src[i]] + StripFrom(src, i + 1, alnum)
      case Blank(e, keep) => Blanks(src[i..e], keep) + StripFrom(src, e, alnum)
  }

  /** The text the main loop emits at a position, and where it goes on. */
  function Piece(src: Text, i: nat, alnum: char -> bool): (p: Text)
    requires i < |src|
    ensures p != []
  {
    match TokAt(src, i, alnum)
    case Copy => [src[i]]
    case Blank(e, keep) => Blanks(src[i..e], keep)
  }

  function Next(src: Text, i: nat, alnum: char -> bool): (j: nat)
    requires i < |src|
    ensures i < j <= |src|
  {
    match TokAt(src, i, alnum)
    case Copy => i + 1
    case Blank(e, _) => e
  }

  /** One turn of the main loop. */
  method EmitPiece(src: Text, i: nat, alnum: char -> bool) returns (piece: Text, j: nat)
    requires i < |src|
    ensures piece == Piece(src, i, alnum) && j == Next(src, i, alnum)
  {
    if Pair(src, i, '/', '/') {
      j := LineEnd(src, i);
      piece := seq(j - i, _ => ' ');
    } else if Pair(src, i, '/', '*') {
      j := CommentScan(src, i);
      piece := Blanks(src[i..j], true);
    } else if RawOpen(src, i) != i && RawAllowed(src, i, alnum) {
      j := RawEnd(src, i);
      piece := Blanks(src[i..j], true);
    } else if src[i] == '"' {
      j := StringScan(src, i);
      piece := Blanks(src[i..j], true);
    } else if CharLit(src, i) != 0 {
      piece := seq(CharLit(src, i), _ => ' ');
      j := i + CharLit(src, i);
    } else {
      piece := [src[i]];
      j := i + 1;
    }
  }

  /** The tokenizer loop. Its output has the length of its input, whatever the input. */
  method StripSource(src: Text, alnum: char -> bool) returns (out: Text)
    ensures out == StripFrom(src, 0, alnum)
    ensures |out| == |src| && Lexed(src, out, alnum)
  {
    hide StripFrom, Piece, Next, Lexed;
    StripIsLexed(src, StripFrom(src, 0, alnum), alnum);
    out := [];
    var i := 0;
    while i < |src|
      invariant i <= |src| && out + StripFrom(src, i, alnum) == StripFrom(src, 0, alnum)
      decreases |src| - i
    {
      StripStep(src, i, alnum);
      var piece, j := EmitPiece(src, i, alnum);
      assert out + (piece + StripFrom(src, j, alnum)) == (out + piece) + StripFrom(src, j, alnum);
      out := out + piece;
      i := j;
    }
    assert StripFrom(src, |src|, alnum) == [];
  }

  lemma StripStep(src: Text, i: nat, alnum: char -> bool)
    requires i < |src|
    ensures StripFrom(src, i, alnum) == Piece(src, i, alnum) + StripFrom(src, Next(src, i, alnum), alnum)
  {}

  // ----- positions the main loop visits -----

  ghost predicate Visited(src: Text, i: nat, t: nat, alnum: char -> bool)
    requires i <= |src|
    decreases |src| - i
  {
    t == i || (i < |src| && Visited(src, Next(src, i, alnum), t, alnum))
  }

  /** What stands in the output at position `k` when the loop turn at `t` covers it. */
  ghost function OutChar(src: Text, t: nat, k: nat, alnum: char -> bool): char
    requires t < |src| && t <= k < Next(src, t, alnum)
  {
    PieceLength(src, t, alnum);
    Piece(src, t, alnum)[k - t]
  }

  lemma {:induction false} OutputAtVisit(src: Text, i: nat, t: nat, k: nat, alnum: char -> bool)
    requires i <= t < |src| && Visited(src, i, t, alnum) && t <= k < Next(src, t, alnum)
    ensures StripFrom(src, i, alnum)[k - i] == OutChar(src, t, k, alnum)
    decreases |src| - i
  {
    hide StripFrom, Piece, Next;
    StripStep(src, i, alnum);
    PieceLength(src, i, alnum);
    if t != i {
      VisitedLater(src, Next(src, i, alnum), t, alnum);
      OutputAtVisit(src, Next(src, i, alnum), t, k, alnum);
    }
  }

  lemma PieceLength(src: Text, i: nat, alnum: char -> bool)
    requires i < |src|
    ensures |Piece(src, i, alnum)| == Next(src, i, alnum) - i
  {}

  lemma {:induction false} VisitedLater(src: Text, i: nat, t: nat, alnum: char -> bool)
    requires i <= |src| && Visited(src, i, t, alnum)
    ensures i <= t <= |src|
    decreases |src| - i
  {
    if t != i { VisitedLater(src, Next(src, i, alnum), t, alnum); }
  }

  lemma {:induction false} VisitedNext(src: Text, i: nat, t: nat, alnum: char -> bool)
    requires i <= t < |src| && Visited(src, i, t, alnum)
    ensures Visited(src, i, Next(src, t, alnum), alnum)
    decreases |src| - i
  {
    if t != i {
      VisitedLater(src, Next(src, i, alnum), t, alnum);
      VisitedNext(src, Next(src, i, alnum), t, alnum);
    }
  }

  /** Every position is covered by the turn at some visited one. */
  lemma {:induction false} Covered(src: Text, i: nat, k: nat, alnum: char -> bool) returns (t: nat)
    requires i <= k < |src|
    ensures t <= k < Next(src, t, alnum) && i <= t && Visited(src, i, t, alnum)
    decreases |src| - i
  {
    if k < Next(src, i, alnum) {
      t := i;
    } else {
      t := Covered(src, Next(src, i, alnum), k, alnum);
    }
  }

  // ----- the tokens -----

  lemma SameHex(c: char)
    ensures IsHex(c) <==> HexDigit(c)
  {
    var s := "0123456789abcdefABCDEF";
    if '0' <= c <= '9' { assert s[c as int - '0' as int] == c; }
    if 'a' <= c <= 'f' { assert s[10 + (c as int - 'a' as int)] == c; }
    if 'A' <= c <= 'F' { assert s[16 + (c as int - 'A' as int)] == c; }
  }

  lemma {:induction false} HexRunEnds(src: Text, k: nat, q: nat)
    requires k <= q < |src| && (forall m | k <= m < q :: IsHex(src[m])) && !IsHex(src[q])
    ensures HexRun(src, k) == q
    decreases q - k
  {
    if k < q { HexRunEnds(src, k + 1, q); }
  }

  /** What stands between the first and the last character. */
  lemma InnerChars(src: Text, i: nat, e: nat)
    requires i + 2 <= e <= |src|
    ensures var m := src[i..e][1..e - i - 1]; |m| == e - i - 2 && forall k | 0 <= k < |m| :: m[k] == src[i + 1 + k]
  {
    var m := src[i..e][1..e - i - 1];
    forall k | 0 <= k < |m| ensures m[k] == src[i + 1 + k] {
      assert m[k] == src[i..e][1 + k];
    }
  }

  /** The word of a character literal found. */
  lemma CharLitReads(src: Text, i: nat)
    requires i < |src| && CharLit(src, i) != 0
    ensures CharLiteral(src, i, i + CharLit(src, i))
  {
    hide HexDigit, IsHex;
    var n := CharLit(src, i);
    var w := src[i..i + n];
    var m := w[1..n - 1];
    InnerChars(src, i, i + n);
    assert CharBody(m) by {
      if n == 3 {
        assert m[0] == src[i + 1];
      } else if n == 4 {
        assert m[0] == src[i + 1] && m[1] == src[i + 2];
      } else if n == 6 && src[i + 2] == 'x' {
        assert m[0] == src[i + 1] && m[1] == src[i + 2] && m[2] == src[i + 3] && m[3] == src[i + 4];
        SameHex(m[2]);
        SameHex(m[3]);
      } else {
        BracesRead(src, i, m);
      }
    }
    assert w[0] == src[i] && w[n - 1] == src[i + n - 1];
  }

  lemma BracesRead(src: Text, i: nat, m: Text)
    requires i + 4 < |src| && CharLit(src, i) > 4 && src[i + 2] == 'u' && |m| == CharLit(src, i) - 2
    requires forall k | 0 <= k < |m| :: m[k] == src[i + 1 + k]
    ensures CharBody(m)
  {
    hide HexDigit;
    var q := HexRun(src, i + 4);
    assert |m| == q - i && m[0] == src[i + 1] && m[1] == src[i + 2] && m[2] == src[i + 3] && m[|m| - 1] == src[q];
    forall k | 3 <= k < |m| - 1 ensures HexDigit(m[k]) {
      assert m[k] == src[i + 1 + k];
      SameHex(m[k]);
    }
  }

  /** Every word of a character literal is found, so there is at most one. */
  lemma CharLitFound(src: Text, i: nat, e: nat)
    requires CharLiteral(src, i, e)
    ensures e > i && CharLit(src, i) == e - i
  {
    hide HexDigit;
    var n := e - i;
    var m := src[i..e][1..n - 1];
    InnerChars(src, i, e);
    assert src[i] == '\'' && src[e - 1] == '\'';
    if n == 6 && m[1] == 'x' {
      SameHex(m[2]);
      SameHex(m[3]);
    } else if n >= 7 {
      BracesFound(src, i, e);
    }
  }

  lemma BracesFound(src: Text, i: nat, e: nat)
    requires CharLiteral(src, i, e) && e - i >= 7
    ensures CharLit(src, i) == e - i
  {
    hide HexDigit;
    var n := e - i;
    var m := src[i..e][1..n - 1];
    InnerChars(src, i, e);
    assert src[i] == '\'' && src[e - 1] == '\'' && src[e - 2] == m[n - 3] == '}';
    forall j | i + 4 <= j < e - 2 ensures IsHex(src[j]) {
      assert src[j] == m[j - i - 1];
      SameHex(src[j]);
    }
    HexRunEnds(src, i + 4, e - 2);
  }

  lemma {:induction false} HashesEnd(src: Text, k: nat, limit: nat, q: nat)
    requires k <= q < |src| && q <= limit && (forall m | k <= m < q :: src[m] == '#') && src[q] != '#'
    ensures Hashes(src, k, limit) == q
    decreases q - k
  {
    if k < q { HashesEnd(src, k + 1, limit, q); }
  }

  lemma RawOpenFound(src: Text, i: nat, bytes: bool, hashes: nat)
    requires var p := RawPrefix(bytes, hashes); |p| <= 8 && Reads(src, i, p)
    ensures i < |src| && RawOpen(src, i) == i + |RawPrefix(bytes, hashes)| - 1 > i
    ensures RawDelimiter(src, i) == RawSuffix(hashes)
  {
    var p := RawPrefix(bytes, hashes);
    var r := if bytes then i + 1 else i;
    assert forall k | 0 <= k < |p| :: src[i + k] == p[k];
    assert src[i] == p[0] && src[r] == p[r - i] == 'r';
    var q := i + |p| - 1;
    assert src[q] == p[|p| - 1] == '"';
    forall m | r + 1 <= m < q ensures src[m] == '#' { assert src[m] == p[m - i]; }
    HashesEnd(src, r + 1, i + 8, q);
  }

  lemma RawOpenReads(src: Text, i: nat) returns (bytes: bool, hashes: nat)
    requires i < |src| && RawOpen(src, i) != i
    ensures |RawPrefix(bytes, hashes)| <= 8 && Reads(src, i, RawPrefix(bytes, hashes))
  {
    bytes := src[i] == 'b';
    var r := if bytes then i + 1 else i;
    var q := RawOpen(src, i);
    assert q == Hashes(src, r + 1, i + 8);
    hashes := q - r - 1;
    var p := RawPrefix(bytes, hashes);
    forall k | 0 <= k < |p| ensures src[i + k] == p[k] {}
  }

  lemma SameStart(src: Text, i: nat, w: Text)
    ensures Starts(src, i, w) <==> Reads(src, i, w)
  {
    if Starts(src, i, w) {
      forall k | 0 <= k < |w| ensures src[i + k] == w[k] { assert src[i..i + |w|][k] == w[k]; }
    }
    if Reads(src, i, w) { assert src[i..i + |w|] == w; }
  }

  lemma RawEndIsFirst(src: Text, i: nat, bytes: bool, hashes: nat)
    requires var p := RawPrefix(bytes, hashes); |p| <= 8 && Reads(src, i, p)
    ensures i < |src| && RawOpen(src, i) != i && RawOf(src, i, RawEnd(src, i), bytes, hashes)
  {
    RawOpenFound(src, i, bytes, hashes);
    RawEndsAtFirstDelimiter(src, i);
    forall k ensures Starts(src, k, RawSuffix(hashes)) <==> Reads(src, k, RawSuffix(hashes)) {
      SameStart(src, k, RawSuffix(hashes));
    }
  }

  lemma FirstEndUnique(src: Text, lo: nat, w: Text, e: nat, e': nat)
    requires FirstEnd(src, lo, w, e) && FirstEnd(src, lo, w, e')
    ensures e == e'
  {}

  /** A raw string is found where one stands, and nowhere else. */
  lemma RawIff(src: Text, i: nat, e: nat, alnum: char -> bool)
    requires i < |src|
    ensures RawLiteral(src, i, e, alnum) <==> RawOpen(src, i) != i && RawAllowed(src, i, alnum) && e == RawEnd(src, i)
  {
    if bytes, hashes: nat :| RawOf(src, i, e, bytes, hashes) {
      RawEndIsFirst(src, i, bytes, hashes);
      FirstEndUnique(src, i + |RawPrefix(bytes, hashes)|, RawSuffix(hashes), e, RawEnd(src, i));
    }
    if RawOpen(src, i) != i {
      var bytes, hashes := RawOpenReads(src, i);
      RawEndIsFirst(src, i, bytes, hashes);
    }
  }

  lemma FirstQuoteUnique(src: Text, lo: nat, e: nat, e': nat)
    requires lo <= |src| && FirstQuote(src, lo, e) && FirstQuote(src, lo, e')
    ensures e == e'
  {}

  lemma StringIff(src: Text, i: nat, e: nat)
    requires i < |src|
    ensures StringLiteral(src, i, e) <==> src[i] == '"' && e == StringEnd(src, i + 1)
  {
    assert Reads(src, i, "\"") <==> src[i] == '"' by { assert "\""[0] == '"'; }
    StringEndsAtFirstQuote(src, i + 1);
    if FirstQuote(src, i + 1, e) { FirstQuoteUnique(src, i + 1, e, StringEnd(src, i + 1)); }
  }

  lemma PairReads(src: Text, i: nat, w: Text)
    requires |w| == 2
    ensures Reads(src, i, w) <==> Pair(src, i, w[0], w[1])
  {
    if Reads(src, i, w) { assert src[i + 0] == w[0] && src[i + 1] == w[1]; }
  }

  lemma FirstClosedUnique(src: Text, j: nat, depth: nat, e: nat, e': nat)
    requires j <= |src| && FirstClosed(src, j, depth, e) && FirstClosed(src, j, depth, e')
    ensures e == e'
  {}

  lemma BlockIff(src: Text, i: nat, e: nat)
    requires i < |src|
    ensures BlockComment(src, i, e) <==> Pair(src, i, '/', '*') && e == CommentEnd(src, i + 2, 1)
  {
    PairReads(src, i, "/*");
    if Pair(src, i, '/', '*') {
      CommentEndsWhenClosed(src, i + 2, 1);
      if FirstClosed(src, i + 2, 1, e) { FirstClosedUnique(src, i + 2, 1, e, CommentEnd(src, i + 2, 1)); }
    }
  }

  lemma LineIff(src: Text, i: nat, e: nat)
    requires i < |src|
    ensures LineComment(src, i, e) <==> Pair(src, i, '/', '/') && e == LineEnd(src, i)
  {
    PairReads(src, i, "//");
  }

  /** The lexer blanks exactly the tokens: at each position the one that stands there, if any. */
  lemma TokIff(src: Text, i: nat, alnum: char -> bool)
    requires i < |src|
    ensures var t := TokAt(src, i, alnum);
            && (forall e: nat :: IsToken(src, i, e, alnum) <==> t.Blank? && e == t.end)
            && (t.Blank? ==> (t.keepsNewlines <==> src[i] != '\''))
  {
    hide LineComment, BlockComment, StringLiteral, RawLiteral, CharLiteral, CharLit, CommentEnd, StringEnd, RawEnd;
    hide RawOpen, LineEnd;
    if CharLit(src, i) != 0 { CharLitReads(src, i); }
    forall e: nat ensures IsToken(src, i, e, alnum) <==> TokAt(src, i, alnum).Blank? && e == TokAt(src, i, alnum).end {
      LineIff(src, i, e);
      BlockIff(src, i, e);
      StringIff(src, i, e);
      RawIff(src, i, e, alnum);
      if CharLiteral(src, i, e) { CharLitFound(src, i, e); }
    }
  }

  lemma TurnAt(src: Text, i: nat, alnum: char -> bool)
    requires i < |src| && Visited(src, 0, i, alnum)
    ensures Turn(src, StripFrom(src, 0, alnum), i, Next(src, i, alnum), alnum)
  {
    hide StripFrom, Visited, IsToken, OutChar;
    TokIff(src, i, alnum);
    var e := Next(src, i, alnum);
    forall k | i <= k < e ensures StripFrom(src, 0, alnum)[k] == OutChar(src, i, k, alnum) {
      OutputAtVisit(src, 0, i, k, alnum);
    }
    CharsOut(src, i, alnum);
    assert TokAt(src, i, alnum).Blank? ==> IsToken(src, i, e, alnum);
    assert Blanked(src, StripFrom(src, 0, alnum), i, e) || TokAt(src, i, alnum).Copy?;
  }

  lemma CharsOut(src: Text, i: nat, alnum: char -> bool)
    requires i < |src|
    ensures forall k | i <= k < Next(src, i, alnum) :: OutChar(src, i, k, alnum) ==
              if TokAt(src, i, alnum).Copy? then src[k]
              else if TokAt(src, i, alnum).keepsNewlines && src[k] == '\n' then '\n' else ' '
  {
    hide TokAt;
  }

  lemma {:induction false} CutsFrom(src: Text, i: nat, alnum: char -> bool) returns (cuts: seq<nat>)
    requires i <= |src| && Visited(src, 0, i, alnum)
    ensures Cuts(src, StripFrom(src, 0, alnum), i, cuts, alnum)
    decreases |src| - i
  {
    hide StripFrom, Visited, Next, Turn;
    if i == |src| {
      cuts := [i];
    } else {
      TurnAt(src, i, alnum);
      VisitedNext(src, 0, i, alnum);
      var rest := CutsFrom(src, Next(src, i, alnum), alnum);
      cuts := [i] + rest;
      forall a, b | 0 <= a && b == a + 1 && b < |cuts|
        ensures Turn(src, StripFrom(src, 0, alnum), cuts[a], cuts[b], alnum)
      {
        if a > 0 { assert cuts[a] == rest[a - 1] && cuts[b] == rest[b - 1]; }
      }
    }
  }

  lemma TurnIsNext(src: Text, out: Text, i: nat, e: nat, alnum: char -> bool)
    requires Turn(src, out, i, e, alnum)
    ensures e == Next(src, i, alnum) && out[i..e] == Piece(src, i, alnum)
  {
    hide IsToken;
    TokIff(src, i, alnum);
    PieceLength(src, i, alnum);
    if TokAt(src, i, alnum).Blank? { assert IsToken(src, i, TokAt(src, i, alnum).end, alnum); }
  }

  lemma {:induction false} CutsDetermine(src: Text, out: Text, lo: nat, cuts: seq<nat>, alnum: char -> bool)
    requires |src| == |out| && lo <= |src| && Cuts(src, out, lo, cuts, alnum)
    ensures out[lo..] == StripFrom(src, lo, alnum)
    decreases |cuts|
  {
    hide StripFrom, Turn, Piece, Next;
    if |cuts| == 1 {
      assert StripFrom(src, lo, alnum) == [];
    } else {
      var e := cuts[1];
      assert Turn(src, out, cuts[0], cuts[1], alnum);
      TurnIsNext(src, out, lo, e, alnum);
      StripStep(src, lo, alnum);
      forall a, b | 0 <= a && b == a + 1 && b < |cuts[1..]|
        ensures Turn(src, out, cuts[1..][a], cuts[1..][b], alnum)
      {
        assert Turn(src, out, cuts[a + 1], cuts[b + 1], alnum);
      }
      CutsDetermine(src, out, e, cuts[1..], alnum);
      assert out[lo..] == out[lo..e] + out[e..];
    }
  }

  /** The output is that of the tokens, and the only one. */
  lemma StripIsLexed(src: Text, out: Text, alnum: char -> bool)
    ensures Lexed(src, out, alnum) <==> out == StripFrom(src, 0, alnum)
  {
    var cuts := CutsFrom(src, 0, alnum);
    if Lexed(src, out, alnum) {
      var cuts' :| Cuts(src, out, 0, cuts', alnum);
      CutsDetermine(src, out, 0, cuts', alnum);
      assert out[0..] == out;
    }
  }

  // ----- newlines -----

  /** A raw newline between two single quotes. */
  predicate QuotedNewline(src: Text, t: nat) {
    t + 2 < |src| && src[t] == '\'' && src[t + 1] == '\n' && src[t + 2] == '\''
  }

  lemma CharLitNewline(src: Text, t: nat, k: nat)
    requires t < |src| && CharLit(src, t) != 0 && t <= k < t + CharLit(src, t) && src[k] == '\n'
    ensures QuotedNewline(src, t)
  {}

  /** A turn changes newlines only at a quoted newline. */
  lemma TurnKeepsNewlines(src: Text, t: nat, k: nat, alnum: char -> bool)
    requires t < |src| && t <= k < Next(src, t, alnum)
    ensures OutChar(src, t, k, alnum) == '\n' ==> src[k] == '\n'
    ensures src[k] == '\n' && OutChar(src, t, k, alnum) != '\n' ==> QuotedNewline(src, t)
  {
    hide CharLit, StringEnd, CommentEnd, RawOpen, RawEnd, LineEnd, RawAllowed, QuotedNewline;
    if TokAt(src, t, alnum).Blank? && !TokAt(src, t, alnum).keepsNewlines && src[k] == '\n' {
      CharLitNewline(src, t, k);
    }
  }

  lemma QuotedNewlineIsLost(src: Text, t: nat, alnum: char -> bool)
    requires QuotedNewline(src, t)
    ensures t + 1 < Next(src, t, alnum) && OutChar(src, t, t + 1, alnum) != '\n'
  {
    assert CharLit(src, t) == 3;
    assert TokAt(src, t, alnum) == Blank(t + 3, false);
  }

  ghost predicate NewlinesKept(src: Text, out: Text)
    requires |src| == |out|
  {
    forall k | 0 <= k < |src| :: out[k] == '\n' <==> src[k] == '\n'
  }

  ghost predicate NoQuotedNewlineMet(src: Text, alnum: char -> bool) {
    forall t | 0 <= t < |src| && Visited(src, 0, t, alnum) :: !QuotedNewline(src, t)
  }

  lemma NewlineKeptAt(src: Text, k: nat, alnum: char -> bool)
    requires k < |src| && NoQuotedNewlineMet(src, alnum)
    ensures StripFrom(src, 0, alnum)[k] == '\n' <==> src[k] == '\n'
  {
    hide StripFrom, QuotedNewline, OutChar;
    var t := Covered(src, 0, k, alnum);
    OutputAtVisit(src, 0, t, k, alnum);
    TurnKeepsNewlines(src, t, k, alnum);
  }

  /** Newlines keep their places exactly when the loop meets no raw newline between two single quotes. */
  lemma NewlinesKeptIff(src: Text, alnum: char -> bool)
    ensures NewlinesKept(src, StripFrom(src, 0, alnum)) <==> NoQuotedNewlineMet(src, alnum)
  {
    hide StripFrom, Visited, OutChar;
    if NoQuotedNewlineMet(src, alnum) {
      forall k | 0 <= k < |src| ensures StripFrom(src, 0, alnum)[k] == '\n' <==> src[k] == '\n' {
        NewlineKeptAt(src, k, alnum);
      }
    }
    forall t | 0 <= t < |src| && Visited(src, 0, t, alnum) && QuotedNewline(src, t)
      ensures !NewlinesKept(src, StripFrom(src, 0, alnum))
    {
      QuotedNewlineIsLost(src, t, alnum);
      OutputAtVisit(src, 0, t, t + 1, alnum);
    }
  }

  /** A text without such a newline anywhere keeps them all. */
  lemma NewlinesKeptWithout(src: Text, alnum: char -> bool)
    requires forall t | 0 <= t < |src| :: !QuotedNewline(src, t)
    ensures NewlinesKept(src, StripFrom(src, 0, alnum))
  {
    NewlinesKeptIff(src, alnum);
  }

  /** The shortest text that loses one. */
  lemma QuotedNewlineMisleads(alnum: char -> bool)
    ensures !NewlinesKept("'\n'", StripFrom("'\n'", 0, alnum))
  {
    assert Visited("'\n'", 0, 0, alnum) && QuotedNewline("'\n'", 0);
    NewlinesKeptIff("'\n'", alnum);
  }

  // ----- idempotence -----

  /** An output character other than a blank or a newline was copied. */
  lemma NonBlankWasCopied(src: Text, k: nat, alnum: char -> bool)
    requires k < |src| && StripFrom(src, 0, alnum)[k] != ' ' && StripFrom(src, 0, alnum)[k] != '\n'
    ensures Visited(src, 0, k, alnum) && TokAt(src, k, alnum).Copy? && StripFrom(src, 0, alnum)[k] == src[k]
    ensures Visited(src, 0, k + 1, alnum)
  {
    hide StripFrom, OutChar, Visited;
    var t := Covered(src, 0, k, alnum);
    OutputAtVisit(src, 0, t, k, alnum);
    TurnCopiesOrBlanks(src, t, k, alnum);
    VisitedNext(src, 0, t, alnum);
  }

  lemma TurnCopiesOrBlanks(src: Text, t: nat, k: nat, alnum: char -> bool)
    requires t < |src| && t <= k < Next(src, t, alnum)
    ensures (TokAt(src, t, alnum).Copy? && k == t && OutChar(src, t, k, alnum) == src[k])
         || OutChar(src, t, k, alnum) == ' ' || OutChar(src, t, k, alnum) == '\n'
  {}

  /** At a visited position the output differs from the source only if a token starts there. */
  lemma VisitedCopy(src: Text, k: nat, alnum: char -> bool)
    requires k < |src| && Visited(src, 0, k, alnum) && TokAt(src, k, alnum).Copy?
    ensures StripFrom(src, 0, alnum)[k] == src[k]
  {
    OutputAtVisit(src, 0, k, k, alnum);
  }

  /** No token starts in the output of the lexer. */
  lemma NoTokenInOutput(src: Text, i: nat, alnum: char -> bool)
    requires i < |src|
    ensures TokAt(StripFrom(src, 0, alnum), i, alnum).Copy?
  {
    NoCommentInOutput(src, i, alnum);
    NoRawInOutput(src, i, alnum);
    NoQuoteInOutput(src, i, alnum);
    NoCharLitInOutput(src, i, alnum);
  }

  lemma NoCommentInOutput(src: Text, i: nat, alnum: char -> bool)
    requires i < |src|
    ensures !Pair(StripFrom(src, 0, alnum), i, '/', '/') && !Pair(StripFrom(src, 0, alnum), i, '/', '*')
  {
    var out := StripFrom(src, 0, alnum);
    if Pair(out, i, '/', '/') || Pair(out, i, '/', '*') {
      NonBlankWasCopied(src, i, alnum);
      NonBlankWasCopied(src, i + 1, alnum);
    }
  }

  lemma NoQuoteInOutput(src: Text, i: nat, alnum: char -> bool)
    requires i < |src|
    ensures StripFrom(src, 0, alnum)[i] != '"'
  {
    if StripFrom(src, 0, alnum)[i] == '"' { NonBlankWasCopied(src, i, alnum); }
  }

  lemma NoRawInOutput(src: Text, i: nat, alnum: char -> bool)
    requires i < |src|
    ensures RawOpen(StripFrom(src, 0, alnum), i) == i
  {
    var q := RawOpen(StripFrom(src, 0, alnum), i);
    if q != i { NoQuoteInOutput(src, q, alnum); }
  }

  lemma NoCharLitInOutput(src: Text, i: nat, alnum: char -> bool)
    requires i < |src|
    ensures CharLit(StripFrom(src, 0, alnum), i) == 0
  {
    hide StripFrom, TokAt, Next, Visited;
    var out := StripFrom(src, 0, alnum);
    var len := CharLit(out, i);
    if len != 0 {
      NonBlankWasCopied(src, i, alnum);
      CopyIsNoCharLit(src, i, alnum);
      if len == 4 && i + 3 < |src| && out[i + 1] == '\\' && out[i + 3] == '\'' && out[i + 2] != '\n' {
        NonBlankWasCopied(src, i + 1, alnum);
        NonBlankWasCopied(src, i + 3, alnum);
        if src[i + 2] == '\n' { NewlineIsCopied(src, i + 2, alnum); }
      } else if len == 3 && out[i + 1] != '\\' {
        NonBlankWasCopied(src, i + 2, alnum);
        OneCharBetweenQuotes(src, i, alnum);
      } else {
        LiteralOfNonBlanks(src, i, alnum, len);
      }
    }
  }

  lemma CopyIsNoCharLit(src: Text, i: nat, alnum: char -> bool)
    requires i < |src| && TokAt(src, i, alnum).Copy?
    ensures CharLit(src, i) == 0
  {}

  lemma NewlineIsCopied(src: Text, k: nat, alnum: char -> bool)
    requires k < |src| && Visited(src, 0, k, alnum) && src[k] == '\n'
    ensures StripFrom(src, 0, alnum)[k] == '\n'
  {
    VisitedCopy(src, k, alnum);
  }

  /** A copied quote, one character and a copied quote in the output would be a literal in the source. */
  lemma OneCharBetweenQuotes(src: Text, i: nat, alnum: char -> bool)
    requires i + 2 < |src| && src[i] == '\'' && src[i + 2] == '\'' && CharLit(src, i) == 0
    requires Visited(src, 0, i + 1, alnum)
    requires StripFrom(src, 0, alnum)[i + 1] != '\'' && StripFrom(src, 0, alnum)[i + 1] != '\\'
    ensures StripFrom(src, 0, alnum)[i + 2] != '\''
  {
    hide StripFrom, Visited;
    assert src[i + 1] == '\\' || src[i + 1] == '\'';
    if TokAt(src, i + 1, alnum).Copy? {
      VisitedCopy(src, i + 1, alnum);
    } else {
      OutputAtVisit(src, 0, i + 1, i + 2, alnum);
    }
  }

  /** The longer literals hold no blank, so they were copied whole. */
  lemma LiteralOfNonBlanks(src: Text, i: nat, alnum: char -> bool, len: nat)
    requires i < |src| && len == CharLit(StripFrom(src, 0, alnum), i) && len > 4
    ensures CharLit(src, i) == len
  {
    hide StripFrom, TokAt, Next, Visited;
    var out := StripFrom(src, 0, alnum);
    forall k | i <= k < i + len ensures out[k] == src[k] {
      LiteralHasNoBlank(out, i, k);
      NonBlankWasCopied(src, k, alnum);
    }
    SameLiteral(out, src, i);
  }

  lemma LiteralHasNoBlank(out: Text, i: nat, k: nat)
    requires i < |out| && CharLit(out, i) > 4 && i <= k < i + CharLit(out, i)
    ensures out[k] != ' ' && out[k] != '\n'
  {}

  lemma SameHexRun(a: Text, b: Text, k: nat, e: nat)
    requires |a| == |b| && k <= e < |a| && (forall m | k <= m <= e :: a[m] == b[m])
    requires HexRun(a, k) == e
    ensures HexRun(b, k) == e
    decreases e - k
  {
    if k < e { SameHexRun(a, b, k + 1, e); }
  }

  lemma SameLiteral(a: Text, b: Text, i: nat)
    requires |a| == |b| && i < |a| && CharLit(a, i) > 4
    requires forall k | i <= k < i + CharLit(a, i) :: a[k] == b[k]
    ensures CharLit(b, i) == CharLit(a, i)
  {
    if a[i + 2] == 'u' { SameHexRun(a, b, i + 4, HexRun(a, i + 4)); }
  }

  lemma {:induction false} CopiesAll(out: Text, i: nat, alnum: char -> bool)
    requires i <= |out| && forall k | 0 <= k < |out| :: TokAt(out, k, alnum).Copy?
    ensures StripFrom(out, i, alnum) == out[i..]
    decreases |out| - i
  {
    if i < |out| {
      CopiesAll(out, i + 1, alnum);
      assert out[i..] == [out[i]] + out[i + 1..];
    }
  }

  /** Stripping twice is stripping once. */
  lemma StripIdempotent(src: Text, alnum: char -> bool)
    ensures StripFrom(StripFrom(src, 0, alnum), 0, alnum) == StripFrom(src, 0, alnum)
  {
    var out := StripFrom(src, 0, alnum);
    forall k | 0 <= k < |out| ensures TokAt(out, k, alnum).Copy? {
      NoTokenInOutput(src, k, alnum);
    }
    CopiesAll(out, 0, alnum);
  }
}
