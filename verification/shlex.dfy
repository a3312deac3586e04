/**
 * `shlex.split(s)` as used by the sanitiser: the POSIX-mode lexer with
 * whitespace splitting on and comments off. It is a state machine over the
 * characters of s; its only failures ("No closing quotation", "No escaped
 * character") are detected at the end of the input.
 */
module Shlex {
  import opened Wrappers

  /** shlex's default whitespace: space, tab, carriage return, newline. */
  predicate IsShellSpace(c: char) {
    c == ' ' || c == '\t' || c == '\r' || c == '\n'
  }

  predicate IsQuote(c: char) {
    c == '\'' || c == '"'
  }

  /** No quote and no backslash anywhere: nothing for the lexer to interpret. */
  predicate Unquoted(s: string) {
    forall k | 0 <= k < |s| :: !IsQuote(s[k]) && s[k] != '\\'
  }

  predicate AllShellSpace(s: string) {
    forall k | 0 <= k < |s| :: IsShellSpace(s[k])
  }

  /** Where the lexer is: between words, inside an unquoted part of a word,
      inside a quoted part, or just after a backslash (in a double-quoted part or not). */
  datatype Mode = Between | InWord | InQuote(quote: char) | AfterEscape(inDouble: bool)

  /** The lexer's state: its mode, the word being built, the words finished so far. */
  datatype Lexer = Lexer(mode: Mode, token: string, tokens: seq<string>)

  const Start := Lexer(Between, [], [])

  /** One character of input. */
  function Step(l: Lexer, c: char): Lexer {
    match l.mode
    case Between =>
      if IsShellSpace(c) then l
      else if c == '\\' then Lexer(AfterEscape(false), [], l.tokens)
      else if IsQuote(c) then Lexer(InQuote(c), [], l.tokens)
      else Lexer(InWord, [c], l.tokens)
    case InWord =>
      if IsShellSpace(c) then Lexer(Between, [], l.tokens + [l.token])
      else if c == '\\' then Lexer(AfterEscape(false), l.token, l.tokens)
      else if IsQuote(c) then Lexer(InQuote(c), l.token, l.tokens)
      else Lexer(InWord, l.token + [c], l.tokens)
    case InQuote(q) =>
      if c == q then Lexer(InWord, l.token, l.tokens)
      else if q == '"' && c == '\\' then Lexer(AfterEscape(true), l.token, l.tokens)
      else Lexer(l.mode, l.token + [c], l.tokens)
    case AfterEscape(inDouble) =>
      if !inDouble then Lexer(InWord, l.token + [c], l.tokens)
      // inside double quotes a backslash escapes only '"' and itself, and is kept otherwise
      else if c == '"' || c == '\\' then Lexer(InQuote('"'), l.token + [c], l.tokens)
      else Lexer(InQuote('"'), l.token + ['\\', c], l.tokens)
  }

  /** Feeds the characters of s, left to right. */
  function Run(l: Lexer, s: string): Lexer
    decreases |s|
  {
    if s == [] then l else Run(Step(l, s[0]), s[1..])
  }

  /** End of input: an open quote or a dangling backslash is an error. */
  function Finish(l: Lexer): Option<seq<string>> {
    match l.mode
    case Between => Some(l.tokens)
    case InWord => Some(l.tokens + [l.token])
    case InQuote(_) => None
    case AfterEscape(_) => None
  }

  /** `shlex.split(s)`; None stands for the ValueError it raises. */
  function Tokenize(s: string): Option<seq<string>> {
    Finish(Run(Start, s))
  }

  /** Feeding a + b is feeding a, then b. */
  lemma {:induction false} RunAppend(l: Lexer, a: string, b: string)
    ensures Run(l, a + b) == Run(Run(l, a), b)
    decreases |a|
  {
    if a == [] {
      assert a + b == b;
    } else {
      assert (a + b)[0] == a[0];
      assert (a + b)[1..] == a[1..] + b;
      RunAppend(Step(l, a[0]), a[1..], b);
    }
  }

  /** Length of the leading run of non-whitespace characters. */
  function WordLength(s: string): (n: nat)
    ensures n <= |s|
    ensures forall k | 0 <= k < n :: !IsShellSpace(s[k])
    ensures n == |s| || IsShellSpace(s[n])
    decreases |s|
  {
    if s == [] || IsShellSpace(s[0]) then 0 else 1 + WordLength(s[1..])
  }

  /** The maximal runs of non-whitespace characters, in order: what a command line
      without quoting splits into. */
  function Words(s: string): (ws: seq<string>)
    ensures forall w <- ws :: w != [] && forall k | 0 <= k < |w| :: !IsShellSpace(w[k])
    decreases |s|
  {
    if s == [] then []
    else if IsShellSpace(s[0]) then Words(s[1..])
    else
      var n := WordLength(s);
      assert forall k | 0 <= k < n :: s[..n][k] == s[k];
      [s[..n]] + Words(s[n..])
  }

  /** A leading whitespace character ends no word and is skipped. */
  lemma WordsAfterSpace(s: string)
    requires s != [] && IsShellSpace(s[0])
    ensures WordLength(s) == 0 && s[..0] == [] && s[0..] == s
    ensures Words(s) == Words(s[1..])
  {
  }

  /** A leading non-whitespace character belongs to the first word. */
  lemma WordsAfterChar(s: string)
    requires s != [] && !IsShellSpace(s[0])
    ensures WordLength(s) == 1 + WordLength(s[1..])
    ensures s[..WordLength(s)] == [s[0]] + s[1..][..WordLength(s[1..])]
    ensures s[WordLength(s)..] == s[1..][WordLength(s[1..])..]
  {
  }

  /** Feeding a non-empty input is feeding its first character, then the rest. */
  lemma RunCons(l: Lexer, s: string)
    requires s != []
    ensures Run(l, s) == Run(Step(l, s[0]), s[1..])
  {
  }

  /** Unquoted text after a word in progress: the word runs to the next whitespace. */
  lemma {:induction false} InWordPlain(t: string, ts: seq<string>, s: string)
    requires Unquoted(s)
    ensures Finish(Run(Lexer(InWord, t, ts), s))
         == Some(ts + [t + s[..WordLength(s)]] + Words(s[WordLength(s)..]))
    decreases |s|, 1
  {
    var l := Lexer(InWord, t, ts);
    if s == [] {
      assert t + s[..0] == t;
      assert Words(s[0..]) == [];
      assert ts + [t] + [] == ts + [t];
    } else if IsShellSpace(s[0]) {
      RunCons(l, s);
      assert Step(l, s[0]) == Lexer(Between, [], ts + [t]);
      BetweenPlain(ts + [t], s[1..]);
      WordsAfterSpace(s);
      assert t + [] == t;
    } else {
      InWordChar(t, ts, s);
    }
  }

  /** A word in progress takes in a following non-whitespace character. */
  lemma {:induction false} InWordChar(t: string, ts: seq<string>, s: string)
    requires Unquoted(s) && s != [] && !IsShellSpace(s[0])
    ensures Finish(Run(Lexer(InWord, t, ts), s))
         == Some(ts + [t + s[..WordLength(s)]] + Words(s[WordLength(s)..]))
    decreases |s|, 0
  {
    var l := Lexer(InWord, t, ts);
    RunCons(l, s);
    assert Step(l, s[0]) == Lexer(InWord, t + [s[0]], ts);
    InWordPlain(t + [s[0]], ts, s[1..]);
    WordsAfterChar(s);
    assert (t + [s[0]]) + s[1..][..WordLength(s[1..])] == t + ([s[0]] + s[1..][..WordLength(s[1..])]);
  }

  /** Unquoted text between words splits into its Words. */
  lemma {:induction false} BetweenPlain(ts: seq<string>, s: string)
    requires Unquoted(s)
    ensures Finish(Run(Lexer(Between, [], ts), s)) == Some(ts + Words(s))
    decreases |s|, 2
  {
    var l := Lexer(Between, [], ts);
    if s == [] {
      assert ts + [] == ts;
    } else if IsShellSpace(s[0]) {
      RunCons(l, s);
      assert Step(l, s[0]) == l;
      BetweenPlain(ts, s[1..]);
      WordsAfterSpace(s);
    } else {
      RunCons(l, s);
      assert Step(l, s[0]) == Lexer(InWord, [s[0]], ts);
      InWordPlain([s[0]], ts, s[1..]);
      WordsAfterChar(s);
      WordsFirst(s);
      assert ts + [s[..WordLength(s)]] + Words(s[WordLength(s)..])
          == ts + ([s[..WordLength(s)]] + Words(s[WordLength(s)..]));
    }
  }

  /** Text starting with a non-whitespace character starts with its first word. */
  lemma WordsFirst(s: string)
    requires s != [] && !IsShellSpace(s[0])
    ensures Words(s) == [s[..WordLength(s)]] + Words(s[WordLength(s)..])
  {
  }

  /** Without quotes or backslashes, `shlex.split` is plain whitespace splitting and never fails. */
  lemma TokenizeUnquoted(s: string)
    requires Unquoted(s)
    ensures Tokenize(s) == Some(Words(s))
  {
    BetweenPlain([], s);
    assert [] + Words(s) == Words(s);
  }

  /** A plain first word followed by whitespace (or nothing) is the first token. */
  lemma TokenizeLeadingWord(w: string, rest: string)
    requires w != [] && Unquoted(w + rest)
    requires forall k | 0 <= k < |w| :: !IsShellSpace(w[k])
    requires rest == [] || IsShellSpace(rest[0])
    ensures Tokenize(w + rest) == Some([w] + Words(rest))
  {
    var s := w + rest;
    TokenizeUnquoted(s);
    LeadingWordLength(w, rest);
    assert s[0] == w[0];
    assert s[..|w|] == w;
    assert s[|w|..] == rest;
    assert Words(s) == [w] + Words(rest);
  }

  lemma {:induction false} LeadingWordLength(w: string, rest: string)
    requires forall k | 0 <= k < |w| :: !IsShellSpace(w[k])
    requires rest == [] || IsShellSpace(rest[0])
    ensures WordLength(w + rest) == |w|
    decreases |w|
  {
    if w == [] {
      assert w + rest == rest;
    } else {
      assert (w + rest)[1..] == w[1..] + rest;
      LeadingWordLength(w[1..], rest);
    }
  }

  /** Once a word has been started, the lexer ends in an error or with at least one token. */
  predicate Started(l: Lexer) {
    |l.tokens| > 0 || !l.mode.Between?
  }

  lemma {:induction false} RunStarted(l: Lexer, s: string)
    requires Started(l)
    ensures Started(Run(l, s))
    decreases |s|
  {
    if s != [] {
      assert Started(Step(l, s[0]));
      RunStarted(Step(l, s[0]), s[1..]);
    }
  }

  /** From between words with nothing collected, the result is the empty token list
      exactly when the rest of the input is whitespace. */
  lemma {:induction false} BlankFromStart(s: string)
    ensures Finish(Run(Start, s)) == Some([]) <==> AllShellSpace(s)
    decreases |s|
  {
    if s != [] {
      if IsShellSpace(s[0]) {
        assert Step(Start, s[0]) == Start;
        BlankFromStart(s[1..]);
        assert AllShellSpace(s) <==> AllShellSpace(s[1..]) by {
          if AllShellSpace(s[1..]) {
            forall k | 0 <= k < |s| ensures IsShellSpace(s[k]) {
              if k > 0 { assert s[k] == s[1..][k - 1]; }
            }
          }
        }
      } else {
        assert Started(Step(Start, s[0]));
        RunStarted(Step(Start, s[0]), s[1..]);
      }
    }
  }

  /** `shlex.split` yields no tokens exactly for whitespace-only text. */
  lemma TokenizeBlank(s: string)
    ensures Tokenize(s) == Some([]) <==> AllShellSpace(s)
  {
    BlankFromStart(s);
  }

  /** Inside an open quote q, input without q leaves the quote open. */
  lemma {:induction false} QuoteStaysOpen(l: Lexer, q: char, b: string)
    requires IsQuote(q)
    requires l.mode == InQuote(q) || (q == '"' && l.mode == AfterEscape(true))
    requires forall k | 0 <= k < |b| :: b[k] != q
    ensures Run(l, b).mode == InQuote(q) || Run(l, b).mode == AfterEscape(true)
    decreases |b|
  {
    if b != [] {
      QuoteStaysOpen(Step(l, b[0]), q, b[1..]);
    }
  }

  /** A quote opened outside quotes and never closed makes `shlex.split` fail. */
  lemma UnclosedQuoteFails(a: string, q: char, b: string)
    requires IsQuote(q)
    requires Run(Start, a).mode == Between || Run(Start, a).mode == InWord
    requires forall k | 0 <= k < |b| :: b[k] != q
    ensures Tokenize(a + [q] + b) == None
  {
    RunAppend(Start, a + [q], b);
    RunAppend(Start, a, [q]);
    QuoteStaysOpen(Run(Start, a + [q]), q, b);
  }

  /** A backslash at the very end, outside quotes, makes `shlex.split` fail. */
  lemma TrailingEscapeFails(a: string)
    requires Run(Start, a).mode == Between || Run(Start, a).mode == InWord
    ensures Tokenize(a + ['\\']) == None
  {
    RunAppend(Start, a, ['\\']);
  }
}
