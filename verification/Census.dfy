/** The text the unsafe census searches (tools/unsafe_census.py, `census`): the source stripped, then
    without its test modules. A match is reported at a line of the raw file. */
module Census {
  import Strip
  import Tokens
  import TestMods

  /** `code.count('\n', 0, k)` */
  function LineOf(t: seq<char>, k: nat): nat
    requires k <= |t|
  {
    if k == 0 then 0 else LineOf(t, k - 1) + if t[k - 1] == '\n' then 1 else 0
  }

  lemma {:induction false} LineIsCounted(t: seq<char>, k: nat)
    requires k <= |t|
    ensures LineOf(t, k) == |set i | 0 <= i < k && t[i] == '\n'|
  {
    var all := set i | 0 <= i < k && t[i] == '\n';
    if k == 0 {
      assert all == {};
    } else {
      LineIsCounted(t, k - 1);
      var before := set i | 0 <= i < k - 1 && t[i] == '\n';
      assert all == before + if t[k - 1] == '\n' then {k - 1} else {};
    }
  }

  lemma {:induction false} SameLines(a: seq<char>, b: seq<char>, k: nat)
    requires k <= |a| == |b| && forall i | 0 <= i < k :: a[i] == '\n' <==> b[i] == '\n'
    ensures LineOf(a, k) == LineOf(b, k)
  {
    if k > 0 { SameLines(a, b, k - 1); }
  }

  /** Every position of the searched text is on the line it has in the raw file, whatever modules are
      dropped, as long as the lexer meets no raw newline between two single quotes. */
  lemma LinesAgree(raw: seq<char>, alnum: char -> bool, heads: seq<TestMods.Head>, k: nat)
    requires k <= |raw| && Strip.NoQuotedNewlineMet(raw, alnum)
    ensures LineOf(TestMods.Drop(Strip.StripFrom(raw, 0, alnum), heads), k) ==
            |set i | 0 <= i < k && raw[i] == '\n'|
  {
    LineIsCounted(raw, k);
    var code := Strip.StripFrom(raw, 0, alnum);
    var kept := TestMods.Drop(code, heads);
    Strip.NewlinesKeptIff(raw, alnum);
    forall i | 0 <= i < k ensures kept[i] == '\n' <==> raw[i] == '\n' {
      TestMods.DropAt(code, heads, i);
    }
    SameLines(kept, raw, k);
  }

  /** What the census counts over is code: a character of the searched text that is not blank was
      copied by the lexer from the same place, outside every closed test module. */
  lemma OnlyLiveCodeIsSearched(raw: seq<char>, alnum: char -> bool, heads: seq<TestMods.Head>, k: nat)
    requires k < |raw|
    requires var kept := TestMods.Drop(Strip.StripFrom(raw, 0, alnum), heads); kept[k] != ' ' && kept[k] != '\n'
    ensures TestMods.Drop(Strip.StripFrom(raw, 0, alnum), heads)[k] == raw[k]
    ensures Strip.Visited(raw, 0, k, alnum) && forall e: nat :: !Tokens.IsToken(raw, k, e, alnum)
    ensures !TestMods.ErasedAt(Strip.StripFrom(raw, 0, alnum), heads, k)
  {
    var code := Strip.StripFrom(raw, 0, alnum);
    TestMods.DropAt(code, heads, k);
    Strip.NonBlankWasCopied(raw, k, alnum);
    Strip.TokIff(raw, k, alnum);
  }
}
