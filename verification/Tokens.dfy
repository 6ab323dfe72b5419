/** The tokens of a Rust source that `strip` (tools/unsafe_census.py) blanks, and what its output is, stated
    without its loops. `alnum` stands for Python's `str.isalnum`. */
module Tokens {

  type Text = seq<char>

  predicate Reads(src: Text, i: nat, w: Text) {
    i + |w| <= |src| && forall k | 0 <= k < |w| :: src[i + k] == w[k]
  }

  function Repeat(c: char, n: nat): (r: Text)
    ensures |r| == n && forall k | 0 <= k < n :: r[k] == c
  {
    seq(n, _ => c)
  }

  // ----- comments -----

  ghost predicate LineComment(src: Text, i: nat, e: nat) {
    && Reads(src, i, "//") && i <= e <= |src|
    && (forall k | i <= k < e :: src[k] != '\n') && (e < |src| ==> src[e] == '\n')
  }

  /** `src.startswith` of a two-character pattern. */
  predicate Pair(src: Text, i: nat, a: char, b: char) {
    i + 1 < |src| && src[i] == a && src[i + 1] == b
  }

  /** The comment tokens from `j` on do not overlap: a scan goes on behind each token it meets. */
  function PastToken(src: Text, j: nat): (k: nat)
    requires j < |src|
    ensures j < k <= |src|
  {
    if Pair(src, j, '/', '*') || Pair(src, j, '*', '/') then j + 2 else j + 1
  }

  /** `p` is not inside a token met from `j` on. */
  predicate Between(src: Text, j: nat, p: nat)
    requires j <= |src|
    decreases |src| - j
  {
    j == p || (j < p && j < |src| && Between(src, PastToken(src, j), p))
  }

  /** Opened minus closed comments from `j` up to `p`. */
  function Nesting(src: Text, j: nat, p: nat): int
    requires j <= |src|
    decreases |src| - j
  {
    if j >= p || j == |src| then 0 else
      Nesting(src, PastToken(src, j), p) +
        if Pair(src, j, '/', '*') then 1 else if Pair(src, j, '*', '/') then -1 else 0
  }

  /** Opened `depth` deep at `j`, a comment is first closed at `e`, or never and `e` is the end. */
  ghost predicate FirstClosed(src: Text, j: nat, depth: nat, e: nat)
    requires j <= |src|
  {
    && j <= e <= |src| && Between(src, j, e)
    && (forall p | j <= p < e && Between(src, j, p) :: depth + Nesting(src, j, p) > 0)
    && depth + Nesting(src, j, e) >= 0
    && (e < |src| ==> depth + Nesting(src, j, e) == 0)
  }

  ghost predicate BlockComment(src: Text, i: nat, e: nat) {
    Reads(src, i, "/*") && FirstClosed(src, i + 2, 1, e)
  }

  // ----- strings -----

  /** The length of the run of backslashes in `src[lo..k]` that ends at `k`. */
  function Slashes(src: Text, lo: nat, k: nat): nat
    requires lo <= k <= |src|
  {
    if k > lo && src[k - 1] == '\\' then 1 + Slashes(src, lo, k - 1) else 0
  }

  /** A quote behind an even number of backslashes. */
  predicate Unescaped(src: Text, lo: nat, k: nat) {
    lo <= k < |src| && src[k] == '"' && Slashes(src, lo, k) % 2 == 0
  }

  /** A string opened before `lo` ends at `e`: behind its first unescaped quote, else with the text. */
  ghost predicate FirstQuote(src: Text, lo: nat, e: nat) {
    (e == |src| && forall k | lo <= k < |src| :: !Unescaped(src, lo, k))
    || (lo < e && Unescaped(src, lo, e - 1) && forall k | lo <= k < e - 1 :: !Unescaped(src, lo, k))
  }

  ghost predicate StringLiteral(src: Text, i: nat, e: nat) {
    Reads(src, i, "\"") && FirstQuote(src, i + 1, e)
  }

  /** `r`, or `br` for bytes, then hashes and a quote. */
  function RawPrefix(bytes: bool, hashes: nat): (p: Text)
    ensures |p| == hashes + if bytes then 3 else 2
  {
    (if bytes then "br" else "r") + Repeat('#', hashes) + "\""
  }

  function RawSuffix(hashes: nat): Text {
    "\"" + Repeat('#', hashes)
  }

  /** The first `w` at or behind `lo` ends at `e`; without one `e` is the end of the text. */
  ghost predicate FirstEnd(src: Text, lo: nat, w: Text, e: nat) {
    || (e == |src| && forall k: nat | lo <= k :: !Reads(src, k, w))
    || (lo + |w| <= e && Reads(src, e - |w|, w) && forall k: nat | lo <= k < e - |w| :: !Reads(src, k, w))
  }

  /** A raw string, opened by at most eight characters and not inside a word. */
  ghost predicate RawLiteral(src: Text, i: nat, e: nat, alnum: char -> bool) {
    && (0 < i <= |src| ==> !alnum(src[i - 1]) && src[i - 1] != '_')
    && exists bytes, hashes: nat :: RawOf(src, i, e, bytes, hashes)
  }

  ghost predicate RawOf(src: Text, i: nat, e: nat, bytes: bool, hashes: nat) {
    var p := RawPrefix(bytes, hashes);
    |p| <= 8 && Reads(src, i, p) && FirstEnd(src, i + |p|, RawSuffix(hashes), e)
  }

  // ----- character literals -----

  predicate HexDigit(c: char) {
    c in "0123456789abcdefABCDEF"
  }

  /** Between the quotes: a plain character, an escaped one, two hexadecimal digits behind `\x`, or at least one
      in braces behind `\u`. */
  predicate CharBody(m: Text) {
    || (|m| == 1 && m[0] != '\\' && m[0] != '\'')
    || (|m| == 2 && m[0] == '\\' && m[1] != '\n')
    || (|m| == 4 && m[0] == '\\' && m[1] == 'x' && HexDigit(m[2]) && HexDigit(m[3]))
    || (|m| >= 5 && m[0] == '\\' && m[1] == 'u' && m[2] == '{' && m[|m| - 1] == '}'
        && forall k | 3 <= k < |m| - 1 :: HexDigit(m[k]))
  }

  predicate CharWord(w: Text) {
    3 <= |w| <= 12 && w[0] == '\'' && w[|w| - 1] == '\'' && CharBody(w[1..|w| - 1])
  }

  ghost predicate CharLiteral(src: Text, i: nat, e: nat) {
    i < e <= |src| && CharWord(src[i..e])
  }

  // ----- the output -----

  ghost predicate IsToken(src: Text, i: nat, e: nat, alnum: char -> bool) {
    || LineComment(src, i, e) || BlockComment(src, i, e) || StringLiteral(src, i, e)
    || RawLiteral(src, i, e, alnum) || CharLiteral(src, i, e)
  }

  /** Blank from `i` to `e`, newlines kept except in a character literal. */
  ghost predicate Blanked(src: Text, out: Text, i: nat, e: nat)
    requires |src| == |out| && i < e <= |src|
  {
    forall k | i <= k < e :: out[k] == if src[k] == '\n' && src[i] != '\'' then '\n' else ' '
  }

  /** One piece of the source and of the output: a token blanked, or where none starts a character copied. */
  ghost predicate Turn(src: Text, out: Text, i: nat, e: nat, alnum: char -> bool) {
    && i < e <= |src| == |out|
    && if exists t :: IsToken(src, i, t, alnum) then IsToken(src, i, e, alnum) && Blanked(src, out, i, e)
       else e == i + 1 && out[i] == src[i]
  }

  ghost predicate Cuts(src: Text, out: Text, lo: nat, cuts: seq<nat>, alnum: char -> bool) {
    && |cuts| > 0 && cuts[0] == lo && cuts[|cuts| - 1] == |src|
    && forall i, j | 0 <= i && j == i + 1 && j < |cuts| :: Turn(src, out, cuts[i], cuts[j], alnum)
  }

  /** The source falls into such pieces from left to right, and the output is theirs. */
  ghost predicate Lexed(src: Text, out: Text, alnum: char -> bool) {
    |src| == |out| && exists cuts :: Cuts(src, out, 0, cuts, alnum)
  }
}
