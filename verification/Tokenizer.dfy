/**
 The query tokenizer of compute_mock.cpp, and the rewriting that relies on it:
 `avg_query` and `having_query` edit a token list, join it with spaces and parse
 the result again.
 */
module Tokenizer {

  predicate IsSpace(c: char) {
    c == ' ' || '\t' <= c <= '\r'
  }

  predicate IsParen(c: char) {
    c == '(' || c == ')'
  }

  predicate IsOperator(c: char) {
    c == '>' || c == '<' || c == '=' || c == '!'
  }

  predicate IsPlain(c: char) {
    !IsSpace(c) && !IsParen(c) && !IsOperator(c)
  }

  /** Length of the run of plain characters at the front. */
  function RunLength(s: string): (n: nat)
    ensures n <= |s|
  {
    if s == "" || !IsPlain(s[0]) then 0 else 1 + RunLength(s[1..])
  }

  /** How many characters the scanner consumes next. */
  function Width(s: string): (n: nat)
    requires s != ""
    ensures 0 < n <= |s|
  {
    if IsPlain(s[0]) then RunLength(s)
    else if IsOperator(s[0]) && |s| > 1 && s[1] == '=' then 2
    else 1
  }

  /** The tokens of a query: everything consumed except white space. */
  function Tokens(s: string): seq<string>
    decreases |s|
  {
    if s == "" then []
    else (if IsSpace(s[0]) then [] else [s[..Width(s)]]) + Tokens(s[Width(s)..])
  }

  /** Blank, tab, line feed, vertical tab, form feed, carriage return. */
  predicate IsBlank(c: char) {
    c as int == 32 || 9 <= c as int <= 13
  }

  function Shown(c: char): string {
    if IsBlank(c) then "" else [c]
  }

  /** The characters of `s` that are not blank. */
  function Visible(s: string): string {
    if s == "" then "" else Shown(s[0]) + Visible(s[1..])
  }

  function Glued(t: seq<string>): string {
    if t == [] then "" else t[0] + Glued(t[1..])
  }

  lemma {:induction false} VisibleConcat(a: string, b: string)
    ensures Visible(a + b) == Visible(a) + Visible(b)
  {
    hide Shown;
    if a == "" {
      assert a + b == b;
    } else {
      VisibleConcat(a[1..], b);
      assert (a + b)[1..] == a[1..] + b;
      assert Visible(a + b) == Shown(a[0]) + (Visible(a[1..]) + Visible(b));
    }
  }

  lemma {:induction false} RunVisible(s: string, n: nat)
    requires n <= RunLength(s)
    ensures Visible(s[..n]) == s[..n]
  {
    if n > 0 {
      RunVisible(s[1..], n - 1);
      assert s[..n][1..] == s[1..][..n - 1] && s[..n] == [s[0]] + s[1..][..n - 1];
    }
  }

  /** Nothing but white space is lost and nothing is added: the tokens put together are the visible text. */
  lemma {:induction false} TokensKeepText(s: string)
    ensures Glued(Tokens(s)) == Visible(s)
    decreases |s|
  {
    if s != "" {
      var w := Width(s);
      TokensKeepText(s[w..]);
      assert s == s[..w] + s[w..];
      VisibleConcat(s[..w], s[w..]);
      if IsSpace(s[0]) {
        assert s[..1] == [s[0]] && s[..1][1..] == "";
        assert [] + Tokens(s[w..]) == Tokens(s[w..]);
      } else {
        TokenVisible(s);
        assert ([s[..w]] + Tokens(s[w..]))[1..] == Tokens(s[w..]);
      }
    }
  }

  lemma TokenVisible(s: string)
    requires s != "" && !IsSpace(s[0])
    ensures Visible(s[..Width(s)]) == s[..Width(s)]
  {
    if IsPlain(s[0]) {
      RunVisible(s, RunLength(s));
    } else if Width(s) == 2 {
      assert s[..2] == [s[0], '='] && s[..2][1..] == "=" && "="[1..] == "";
    } else {
      assert s[..1] == [s[0]] && s[..1][1..] == "";
    }
  }

  /** A character that ends a word. */
  predicate EndsWord(c: char) {
    IsBlank(c) || c in {'(', ')', '>', '<', '=', '!'}
  }

  lemma {:induction false} RunIs(s: string)
    ensures forall i | 0 <= i < RunLength(s) :: !EndsWord(s[i])
    ensures RunLength(s) < |s| ==> EndsWord(s[RunLength(s)])
  {
    if s != "" && IsPlain(s[0]) {
      RunIs(s[1..]);
      assert forall i | 1 <= i < RunLength(s) :: s[i] == s[1..][i - 1];
    }
  }

  /**
   Blanks are skipped; a parenthesis is a token; an operator character is one, with the
   equals sign behind it if there is one; anything else is a word up to the next of these.
   */
  lemma FirstToken(s: string) returns (w: nat)
    requires s != ""
    ensures IsBlank(s[0]) ==> Tokens(s) == Tokens(s[1..])
    ensures !IsBlank(s[0]) ==> 0 < w <= |s| && Tokens(s) == [s[..w]] + Tokens(s[w..])
    ensures s[0] in {'(', ')'} ==> w == 1
    ensures s[0] in {'>', '<', '=', '!'} ==> w == if |s| > 1 && s[1] == '=' then 2 else 1
    ensures !EndsWord(s[0]) ==> (forall i | 0 <= i < w :: !EndsWord(s[i])) && (w < |s| ==> EndsWord(s[w]))
  {
    hide RunLength;
    w := Width(s);
    RunIs(s);
    if IsSpace(s[0]) {
      assert [] + Tokens(s[1..]) == Tokens(s[1..]);
    }
  }

  /** The scanning loop. */
  method Tokenize(s: string) returns (t: seq<string>)
    ensures t == Tokens(s)
  {
    hide Tokens;
    t := [];
    var i := 0;
    NoTokens();
    assert s[0..] == s;
    while i < |s|
      invariant i <= |s| && t + Tokens(s[i..]) == Tokens(s)
    {
      NextToken(s, i);
      var c := s[i];
      if IsSpace(c) {
        i := i + 1;
      } else if IsParen(c) {
        t := t + [[c]];
        i := i + 1;
      } else if IsOperator(c) {
        if i + 1 < |s| && s[i + 1] == '=' {
          t := t + [s[i..i + 2]];
          i := i + 2;
        } else {
          t := t + [[c]];
          i := i + 1;
        }
      } else {
        var j := EndOfRun(s, i);
        t := t + [s[i..j]];
        i := j;
      }
    }
    assert s[|s|..] == "";
  }

  /** The end of a run of plain characters. */
  method EndOfRun(s: string, i: nat) returns (j: nat)
    requires i <= |s|
    ensures j == i + RunLength(s[i..])
  {
    j := i;
    while j < |s| && IsPlain(s[j])
      invariant i <= j <= |s| && RunLength(s[i..]) == j - i + RunLength(s[j..])
    {
      assert s[j..][1..] == s[j + 1..];
      j := j + 1;
    }
  }

  lemma NoTokens()
    ensures Tokens("") == []
  {
  }

  lemma NextToken(s: string, i: nat)
    requires i < |s|
    ensures var w := Width(s[i..]);
      && Tokens(s[i..]) == (if IsSpace(s[i]) then [] else [s[i..i + w]]) + Tokens(s[i + w..])
      && s[i..i + 1] == [s[i]]
  {
    hide Width, IsSpace;
    var rest := s[i..];
    var w := Width(rest);
    assert rest[w..] == s[i + w..] && rest[..w] == s[i..i + w];
  }

  // ---- what a token is -----------------------------------------------------

  predicate IsToken(t: string) {
    if t == "" then false
    else if IsParen(t[0]) then |t| == 1
    else if IsOperator(t[0]) then |t| == 1 || (|t| == 2 && t[1] == '=')
    else forall i | 0 <= i < |t| :: IsPlain(t[i])
  }

  lemma {:induction false} RunIsPlain(s: string)
    ensures forall i | 0 <= i < RunLength(s) :: IsPlain(s[i])
    ensures RunLength(s) < |s| ==> !IsPlain(s[RunLength(s)])
  {
    if s != "" && IsPlain(s[0]) {
      RunIsPlain(s[1..]);
      forall i | 0 <= i < RunLength(s)
        ensures IsPlain(s[i])
      {
        assert i > 0 ==> s[i] == s[1..][i - 1];
      }
    }
  }

  /** Everything the tokenizer emits is a token. */
  lemma {:induction false} EmitsTokens(s: string)
    ensures forall t | t in Tokens(s) :: IsToken(t)
    decreases |s|
  {
    if s != "" {
      RunIsPlain(s);
      EmitsTokens(s[Width(s)..]);
    }
  }

  // ---- joining with spaces -------------------------------------------------

  /** Each token with a space before it. */
  function Spaced(ts: seq<string>): string {
    if ts == [] then "" else " " + ts[0] + Spaced(ts[1..])
  }

  function Joined(ts: seq<string>): string {
    if ts == [] then "" else ts[0] + Spaced(ts[1..])
  }

  /** The rewriting loop: a space before every token but the first. */
  method Join(ts: seq<string>) returns (out: string)
    ensures out == Joined(ts)
  {
    out := "";
    for i := 0 to |ts|
      invariant i == 0 ==> out == ""
      invariant i > 0 ==> out + Spaced(ts[i..]) == Joined(ts)
    {
      if i > 0 {
        out := out + " ";
      }
      out := out + ts[i];
      assert ts[i..][1..] == ts[i + 1..];
    }
    assert ts[|ts|..] == [];
  }

  lemma {:induction false} RunStops(t: string, rest: string)
    requires (forall i | 0 <= i < |t| :: IsPlain(t[i])) && (rest == "" || IsSpace(rest[0]))
    ensures RunLength(t + rest) == |t|
  {
    if t != "" {
      RunStops(t[1..], rest);
      assert (t + rest)[1..] == t[1..] + rest;
    } else {
      assert t + rest == rest;
    }
  }

  /** A token followed by a space or the end is read back whole. */
  lemma TokenFirst(t: string, rest: string)
    requires IsToken(t) && (rest == "" || IsSpace(rest[0]))
    ensures Tokens(t + rest) == [t] + Tokens(rest)
  {
    var s := t + rest;
    assert s[..|t|] == t && s[|t|..] == rest;
    if IsPlain(t[0]) {
      RunStops(t, rest);
    }
  }

  lemma {:induction false} SpacedBack(ts: seq<string>)
    requires forall t | t in ts :: IsToken(t)
    ensures Tokens(Spaced(ts)) == ts
    ensures Spaced(ts) == "" || IsSpace(Spaced(ts)[0])
  {
    hide IsToken, Tokens, Spaced;
    SpacedStep(ts);
    if ts != [] {
      SpacedBack(ts[1..]);
      TokenFirst(ts[0], Spaced(ts[1..]));
      SpaceSkipped(ts[0] + Spaced(ts[1..]));
      assert ts == [ts[0]] + ts[1..];
    } else {
      NoTokens();
    }
  }

  lemma SpacedStep(ts: seq<string>)
    ensures Spaced(ts) == if ts == [] then "" else " " + (ts[0] + Spaced(ts[1..]))
  {
    if ts != [] {
      assert " " + ts[0] + Spaced(ts[1..]) == " " + (ts[0] + Spaced(ts[1..]));
    }
  }

  lemma SpaceSkipped(s: string)
    ensures Tokens(" " + s) == Tokens(s)
  {
    assert (" " + s)[1..] == s;
  }

  /** Any list of tokens survives being joined with spaces and tokenized again. */
  lemma Retokenize(ts: seq<string>)
    requires forall t | t in ts :: IsToken(t)
    ensures Tokens(Joined(ts)) == ts
  {
    if ts != [] {
      SpacedBack(ts[1..]);
      TokenFirst(ts[0], Spaced(ts[1..]));
      assert ts == [ts[0]] + ts[1..];
    }
  }

  /** So a query, any prefix of it, and a query with one keyword replaced all re-parse to the intended tokens. */
  lemma RewriteSafe(s: string, k: nat, word: string)
    requires IsToken(word) && k < |Tokens(s)|
    ensures Tokens(Joined(Tokens(s))) == Tokens(s)
    ensures Tokens(Joined(Tokens(s)[..k])) == Tokens(s)[..k]
    ensures Tokens(Joined(Tokens(s)[k := word])) == Tokens(s)[k := word]
  {
    hide Tokens, Joined, IsToken;
    EmitsTokens(s);
    var ts := Tokens(s);
    Retokenize(ts);
    Retokenize(ts[..k]);
    Retokenize(ts[k := word]);
  }
}
