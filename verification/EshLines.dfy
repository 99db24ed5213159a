/**
  What command lines mean (apps/esh.c:926-1200): words in every way of writing them,
  operators, spaces and comments, and the words that the tokeniser makes of them.
 */
module EshLines {
  import opened Basics
  import opened Esh

  // ------------------------------------------------------------------- ways to write text

  /** Characters that the tokeniser gives a meaning. */
  const SPECIAL := "$~\"'*\\ \n|>;#"

  predicate Ordinary(c: char) {
    c !in SPECIAL && c != '\0'
  }

  /** A part of a word: as it is, with backslashes, in double or in single quotes. */
  datatype Segment = Bare(text: string) | Escaped(text: string) | InDouble(text: string) | InSingle(text: string)

  /** A backslash in front of every special character. */
  function Escape(text: string): string {
    if text == "" then ""
    else (if text[0] in SPECIAL then ['\\', text[0]] else [text[0]]) + Escape(text[1..])
  }

  /** A backslash in front of what double quotes leave special. */
  function EscapeInDouble(text: string): string {
    if text == "" then ""
    else (if text[0] in "\"\\$" then ['\\', text[0]] else [text[0]]) + EscapeInDouble(text[1..])
  }

  function Typed(seg: Segment): string {
    match seg
    case Bare(text) => text
    case Escaped(text) => Escape(text)
    case InDouble(text) => "\"" + (EscapeInDouble(text) + "\"")
    case InSingle(text) => Quoted(text)
  }

  /** Text that may stand as it is: ordinary characters, a '~' after something, and a
      backslash in front of an ordinary character. */
  predicate BareOk(text: string, first: bool)
    decreases |text|
  {
    text == "" ||
    if text[0] == '\\' then |text| > 1 && Ordinary(text[1]) && BareOk(text[2..], false)
    else (Ordinary(text[0]) || (text[0] == '~' && !first)) && BareOk(text[1..], false)
  }

  predicate SegmentOk(seg: Segment) {
    match seg
    case Bare(text) => BareOk(text, true)
    case Escaped(text) => '\n' !in text && '\0' !in text
    case _ => '\0' !in seg.text
  }

  /** Quotes make a word even of nothing. */
  predicate Forces(seg: Segment) {
    match seg
    case Bare(_) => false
    case Escaped(text) => '"' in text || '\'' in text
    case _ => true
  }

  // ------------------------------------------------------------------------- segments

  /** The tokeniser with a word begun. */
  function Pending(args: seq<string>, word: string, forced: bool): State {
    State(args, word, NoQuote, false, forced, false)
  }

  /** A backslash in front of an ordinary character stays. */
  lemma KeptBackslash(env: Env, st: State, c: char, rest: string)
    requires Plain(st) && Ordinary(c)
    ensures Scan(env, st, ['\\'] + ([c] + rest)) == Scan(env, st.(buffer := st.buffer + ['\\', c]), rest)
  {
    ScanStep(env, st, '\\', [c] + rest);
    ScanStep(env, st.(escaped := true), c, rest);
    assert (st.buffer + "\\") + [c] == st.buffer + ['\\', c];
  }

  lemma BareStep(env: Env, st: State, c: char, rest: string)
    requires Plain(st) && (Ordinary(c) || (c == '~' && st.buffer != ""))
    ensures Scan(env, st, [c] + rest) == Scan(env, st.(buffer := st.buffer + [c]), rest)
  {
    ScanStep(env, st, c, rest);
  }

  lemma {:induction false} BareScans(env: Env, st: State, text: string, rest: string)
    requires Plain(st) && BareOk(text, st.buffer == "")
    ensures Scan(env, st, text + rest) == Scan(env, st.(buffer := st.buffer + text), rest)
    decreases |text|
  {
    var word := st.buffer;
    if text == "" {
      assert text + rest == rest && word + text == word;
    } else if text[0] == '\\' {
      var tail := text[2..] + rest;
      assert text + rest == ['\\'] + ([text[1]] + tail);
      KeptBackslash(env, st, text[1], tail);
      BareScans(env, st.(buffer := word + ['\\', text[1]]), text[2..], rest);
      assert (word + ['\\', text[1]]) + text[2..] == word + text;
    } else {
      var tail := text[1..] + rest;
      assert text + rest == [text[0]] + tail;
      BareStep(env, st, text[0], tail);
      BareScans(env, st.(buffer := word + [text[0]]), text[1..], rest);
      WordSplit(word, text);
    }
  }

  lemma EscapedStep(env: Env, args: seq<string>, word: string, forced: bool, c: char, rest: string)
    requires c != '\n' && c in SPECIAL
    ensures Scan(env, Pending(args, word, forced), ['\\'] + ([c] + rest)) ==
            Scan(env, Pending(args, word + [c], forced || c == '"' || c == '\''), rest)
  {
    ScanStep(env, Pending(args, word, forced), '\\', [c] + rest);
    ScanStep(env, Pending(args, word, forced).(escaped := true), c, rest);
  }

  lemma OrdinaryStep(env: Env, args: seq<string>, word: string, forced: bool, c: char, rest: string)
    requires c !in SPECIAL
    ensures Scan(env, Pending(args, word, forced), [c] + rest) == Scan(env, Pending(args, word + [c], forced), rest)
  {
    ScanStep(env, Pending(args, word, forced), c, rest);
  }

  lemma EscapeUnfold(text: string, rest: string)
    requires text != ""
    ensures var tail := Escape(text[1..]) + rest;
            Escape(text) + rest == if text[0] in SPECIAL then ['\\'] + ([text[0]] + tail) else [text[0]] + tail
  {
    var first := if text[0] in SPECIAL then ['\\', text[0]] else [text[0]];
    assert Escape(text) == first + Escape(text[1..]);
    Concat3(first, Escape(text[1..]), rest);
    Concat3(['\\'], [text[0]], Escape(text[1..]) + rest);
    assert ['\\'] + [text[0]] == ['\\', text[0]];
  }

  lemma {:induction false} EscapedScans(
      env: Env, args: seq<string>, word: string, forced: bool, text: string, rest: string)
    requires '\n' !in text
    ensures Scan(env, Pending(args, word, forced), Escape(text) + rest) ==
            Scan(env, Pending(args, word + text, forced || '"' in text || '\'' in text), rest)
    decreases |text|
  {
    if text == "" {
      assert Escape(text) + rest == rest && word + text == word;
    } else {
      var c, tail := text[0], Escape(text[1..]) + rest;
      EscapeUnfold(text, rest);
      WordSplit(word, text);
      if c in SPECIAL {
        EscapedStep(env, args, word, forced, c, tail);
      } else {
        OrdinaryStep(env, args, word, forced, c, tail);
      }
      EscapedScans(env, args, word + [c], forced || c == '"' || c == '\'', text[1..], rest);
    }
  }

  /** The tokeniser inside double quotes. */
  function Doubled(args: seq<string>, word: string): State {
    State(args, word, DoubleQuote, false, true, false)
  }

  lemma DoubleStep(env: Env, args: seq<string>, word: string, c: char, rest: string)
    ensures Scan(env, Doubled(args, word), (if c in "\"\\$" then ['\\', c] else [c]) + rest) ==
            Scan(env, Doubled(args, word + [c]), rest)
  {
    if c in "\"\\$" {
      assert ['\\', c] + rest == ['\\'] + ([c] + rest);
      ScanStep(env, Doubled(args, word), '\\', [c] + rest);
      ScanStep(env, Doubled(args, word).(escaped := true), c, rest);
    } else {
      ScanStep(env, Doubled(args, word), c, rest);
    }
  }

  lemma DoubleUnfold(text: string, rest: string)
    requires text != ""
    ensures EscapeInDouble(text) + rest ==
            (if text[0] in "\"\\$" then ['\\', text[0]] else [text[0]]) + (EscapeInDouble(text[1..]) + rest)
  {
    Concat3(if text[0] in "\"\\$" then ['\\', text[0]] else [text[0]], EscapeInDouble(text[1..]), rest);
  }

  lemma {:induction false} DoubleScans(env: Env, args: seq<string>, word: string, text: string, rest: string)
    ensures Scan(env, Doubled(args, word), EscapeInDouble(text) + rest) == Scan(env, Doubled(args, word + text), rest)
    decreases |text|
  {
    if text == "" {
      assert word + text == word && EscapeInDouble(text) + rest == rest;
    } else {
      DoubleUnfold(text, rest);
      DoubleStep(env, args, word, text[0], EscapeInDouble(text[1..]) + rest);
      DoubleScans(env, args, word + [text[0]], text[1..], rest);
      WordSplit(word, text);
    }
  }

  lemma DoubleOpens(env: Env, args: seq<string>, word: string, forced: bool, rest: string)
    ensures Scan(env, Pending(args, word, forced), "\"" + rest) == Scan(env, Doubled(args, word), rest)
  {
    ScanStep(env, Pending(args, word, forced), '"', rest);
  }

  lemma DoubleCloses(env: Env, args: seq<string>, word: string, rest: string)
    ensures Scan(env, Doubled(args, word), "\"" + rest) == Scan(env, Pending(args, word, true), rest)
  {
    ScanStep(env, Doubled(args, word), '"', rest);
  }

  lemma DoubleWordScans(env: Env, args: seq<string>, word: string, forced: bool, text: string, rest: string)
    ensures Scan(env, Pending(args, word, forced), ("\"" + (EscapeInDouble(text) + "\"")) + rest) ==
            Scan(env, Pending(args, word + text, true), rest)
  {
    var body := EscapeInDouble(text);
    assert ("\"" + (body + "\"")) + rest == "\"" + (body + ("\"" + rest));
    DoubleOpens(env, args, word, forced, body + ("\"" + rest));
    DoubleScans(env, args, word, text, "\"" + rest);
    DoubleCloses(env, args, word + text, rest);
  }

  lemma SingleWordScans(env: Env, args: seq<string>, word: string, forced: bool, text: string, rest: string)
    ensures Scan(env, Pending(args, word, forced), Quoted(text) + rest) ==
            Scan(env, Pending(args, word + text, true), rest)
  {
    assert Quoted(text) + rest == ['\''] + (QuotedTail(text) + rest);
    ScanStep(env, Pending(args, word, forced), '\'', QuotedTail(text) + rest);
    TailRoundTrip(env, State(args, word, SingleQuote, false, true, false), text, rest);
  }

  /** A segment adds its text to the word, however it is written. */
  lemma SegmentScans(env: Env, args: seq<string>, word: string, forced: bool, seg: Segment, rest: string)
    requires SegmentOk(seg)
    ensures Scan(env, Pending(args, word, forced), Typed(seg) + rest) ==
            Scan(env, Pending(args, word + seg.text, forced || Forces(seg)), rest)
  {
    match seg
    case Bare(text) =>
      BareLoosens(text, word == "");
      BareScans(env, Pending(args, word, forced), text, rest);
    case Escaped(text) => EscapedScans(env, args, word, forced, text, rest);
    case InDouble(text) => DoubleWordScans(env, args, word, forced, text, rest);
    case InSingle(text) => SingleWordScans(env, args, word, forced, text, rest);
  }

  lemma BareLoosens(text: string, first: bool)
    requires BareOk(text, true)
    ensures BareOk(text, first)
  {
  }

  // ---------------------------------------------------------------------------- words

  function WordTyped(word: seq<Segment>): string {
    if word == [] then "" else Typed(word[0]) + WordTyped(word[1..])
  }

  function WordText(word: seq<Segment>): string {
    if word == [] then "" else word[0].text + WordText(word[1..])
  }

  predicate WordForces(word: seq<Segment>) {
    exists i :: 0 <= i < |word| && Forces(word[i])
  }

  /** The segments make up a word. */
  predicate WordOk(word: seq<Segment>) {
    (forall i :: 0 <= i < |word| ==> SegmentOk(word[i])) && (WordText(word) != "" || WordForces(word))
  }

  lemma {:induction false} WordScans(
      env: Env, args: seq<string>, before: string, forced: bool, word: seq<Segment>, rest: string)
    requires forall i :: 0 <= i < |word| ==> SegmentOk(word[i])
    ensures Scan(env, Pending(args, before, forced), WordTyped(word) + rest) ==
            Scan(env, Pending(args, before + WordText(word), forced || WordForces(word)), rest)
    decreases |word|
  {
    if word == [] {
      assert WordTyped(word) + rest == rest && before + WordText(word) == before;
    } else {
      var tail := WordTyped(word[1..]) + rest;
      assert WordTyped(word) + rest == Typed(word[0]) + tail;
      SegmentScans(env, args, before, forced, word[0], tail);
      WordScans(env, args, before + word[0].text, forced || Forces(word[0]), word[1..], rest);
      Concat3(before, word[0].text, WordText(word[1..]));
      ForcesNext(word);
    }
  }

  lemma ForcesNext(word: seq<Segment>)
    requires word != []
    ensures WordForces(word) <==> Forces(word[0]) || WordForces(word[1..])
  {
    if i :| 0 <= i < |word| && Forces(word[i]) {
      assert i > 0 ==> word[1..][i - 1] == word[i];
    }
    if i :| 0 <= i < |word[1..]| && Forces(word[1..][i]) {
      assert word[i + 1] == word[1..][i];
    }
  }

  // ------------------------------------------------------------------------- the line

  datatype Token = Word(segments: seq<Segment>) | Pipe | Write | WriteErr

  /** A token and the spaces in front of it. */
  datatype Piece = Piece(gap: nat, token: Token)

  function Spaces(n: nat): string {
    if n == 0 then "" else " " + Spaces(n - 1)
  }

  function TokenTyped(t: Token): string {
    match t
    case Word(segments) => WordTyped(segments)
    case Pipe => "|"
    case Write => ">"
    case WriteErr => "2>"
  }

  /** The word that the tokeniser makes of it. */
  function Value(t: Token): string {
    match t
    case Word(segments) => WordText(segments)
    case Pipe => PIPE_TOKEN
    case Write => WRITE_TOKEN
    case WriteErr => WRITE_ERR_TOKEN
  }

  function Values(ps: seq<Piece>): seq<string> {
    if ps == [] then [] else [Value(ps[0].token)] + Values(ps[1..])
  }

  function LineTyped(ps: seq<Piece>, tail: string): string {
    if ps == [] then tail else Spaces(ps[0].gap) + (TokenTyped(ps[0].token) + LineTyped(ps[1..], tail))
  }

  /** Two tokens may stand next to each other without a space when they do not run together:
      a word and `|`, a word that is not 2 and `>`, or anything after an operator. */
  predicate MayFollow(before: Token, after: Token) {
    before.Word? ==> after == Pipe || (after == Write && Value(before) != "2")
  }

  predicate LineOk(ps: seq<Piece>) {
    && (forall i :: 0 <= i < |ps| && ps[i].token.Word? ==> WordOk(ps[i].token.segments))
    && (forall i :: 0 < i < |ps| && ps[i].gap == 0 ==> MayFollow(ps[i - 1].token, ps[i].token))
  }

  /** How a command line ends: as it is, or with what is left for later or dropped. */
  datatype Ending = EndOfLine | Semicolon(rest: string) | Comment(text: string) | Newline(text: string)

  function EndingTyped(e: Ending): string {
    match e
    case EndOfLine => ""
    case Semicolon(rest) => ";" + rest
    case Comment(text) => "#" + text
    case Newline(text) => "\n" + text
  }

  function LeftOver(e: Ending): Option<string> {
    if e.Semicolon? then Some(e.rest) else None
  }

  // ------------------------------------------------------------------------ its scan

  /** The words when the one that is pending is done. */
  function Flushed(args: seq<string>, word: string, forced: bool): seq<string> {
    if word != "" || forced then args + [word] else args
  }

  lemma {:induction false} SpacesScan(env: Env, args: seq<string>, word: string, forced: bool, n: nat, rest: string)
    requires n > 0
    ensures Scan(env, Pending(args, word, forced), Spaces(n) + rest) ==
            Scan(env, Pending(Flushed(args, word, forced), "", false), rest)
    decreases n
  {
    assert Spaces(n) + rest == [' '] + (Spaces(n - 1) + rest);
    ScanStep(env, Pending(args, word, forced), ' ', Spaces(n - 1) + rest);
    if n == 1 {
      assert Spaces(0) + rest == rest;
    } else {
      SpacesScan(env, Flushed(args, word, forced), "", false, n - 1, rest);
    }
  }

  lemma PipeScans(env: Env, args: seq<string>, word: string, forced: bool, rest: string)
    ensures Scan(env, Pending(args, word, forced), "|" + rest) ==
            Scan(env, Pending(Flushed(args, word, forced) + [PIPE_TOKEN], "", false), rest)
  {
    ScanStep(env, Pending(args, word, forced), '|', rest);
  }

  lemma WriteScans(env: Env, args: seq<string>, word: string, forced: bool, rest: string)
    requires word != "2"
    ensures Scan(env, Pending(args, word, forced), ">" + rest) ==
            Scan(env, Pending(Flushed(args, word, forced) + [WRITE_TOKEN], "", false), rest)
  {
    ScanStep(env, Pending(args, word, forced), '>', rest);
  }

  lemma WriteErrScans(env: Env, args: seq<string>, rest: string)
    ensures Scan(env, Pending(args, "", false), "2>" + rest) ==
            Scan(env, Pending(args + [WRITE_ERR_TOKEN], "", false), rest)
  {
    assert "2>" + rest == ['2'] + (['>'] + rest);
    ScanStep(env, Pending(args, "", false), '2', ['>'] + rest);
    assert "" + ['2'] == "2";
    ScanStep(env, Pending(args, "2", false), '>', rest);
  }

  /** The tokeniser after a token with nothing pending before it. */
  function AfterToken(args: seq<string>, t: Token): State {
    match t
    case Word(segments) => Pending(args, WordText(segments), WordForces(segments))
    case _ => Pending(args + [Value(t)], "", false)
  }

  lemma FreshTokenScans(env: Env, args: seq<string>, t: Token, rest: string)
    requires t.Word? ==> WordOk(t.segments)
    ensures Scan(env, Pending(args, "", false), TokenTyped(t) + rest) == Scan(env, AfterToken(args, t), rest)
  {
    match t
    case Word(segments) =>
      WordScans(env, args, "", false, segments, rest);
      assert "" + WordText(segments) == WordText(segments);
    case Pipe => PipeScans(env, args, "", false, rest);
    case Write => WriteScans(env, args, "", false, rest);
    case WriteErr => WriteErrScans(env, args, rest);
  }

  lemma PieceScans(
      env: Env, args: seq<string>, word: string, forced: bool, p: Piece, rest: string)
    requires p.token.Word? ==> WordOk(p.token.segments)
    requires p.gap == 0 && (word != "" || forced) ==> p.token == Pipe || (p.token == Write && word != "2")
    ensures Scan(env, Pending(args, word, forced), Spaces(p.gap) + (TokenTyped(p.token) + rest)) ==
            Scan(env, AfterToken(Flushed(args, word, forced), p.token), rest)
  {
    var tail := TokenTyped(p.token) + rest;
    if p.gap > 0 {
      SpacesScan(env, args, word, forced, p.gap, tail);
      FreshTokenScans(env, Flushed(args, word, forced), p.token, rest);
    } else {
      assert Spaces(0) + tail == tail;
      if word != "" || forced {
        if p.token == Pipe {
          PipeScans(env, args, word, forced, rest);
        } else {
          WriteScans(env, args, word, forced, rest);
        }
      } else {
        FreshTokenScans(env, args, p.token, rest);
      }
    }
  }

  /** What an ending makes of a pending word. */
  lemma EndingEnds(env: Env, args: seq<string>, word: string, forced: bool, n: nat, e: Ending)
    ensures Ends(env, Pending(args, word, forced), Spaces(n) + EndingTyped(e)) ==
            Words(Flushed(args, word, forced), LeftOver(e))
  {
    var text := EndingTyped(e);
    if n > 0 {
      SpacesScan(env, args, word, forced, n, text);
      JustEnds(env, Flushed(args, word, forced), "", false, e);
    } else {
      assert Spaces(0) + text == text;
      JustEnds(env, args, word, forced, e);
    }
  }

  lemma JustEnds(env: Env, args: seq<string>, word: string, forced: bool, e: Ending)
    ensures Ends(env, Pending(args, word, forced), EndingTyped(e)) == Words(Flushed(args, word, forced), LeftOver(e))
  {
    if e.Semicolon? {
      assert EndingTyped(e)[1..] == e.rest;
    }
  }

  lemma LineOkNext(ps: seq<Piece>)
    requires ps != [] && LineOk(ps)
    ensures LineOk(ps[1..])
    ensures ps[0].token.Word? ==> WordOk(ps[0].token.segments)
    ensures |ps| > 1 && ps[1].gap == 0 ==> MayFollow(ps[0].token, ps[1].token)
  {
    forall i | 0 < i < |ps[1..]| && ps[1..][i].gap == 0 ensures MayFollow(ps[1..][i - 1].token, ps[1..][i].token) {
      assert ps[1..][i] == ps[i + 1] && ps[1..][i - 1] == ps[i];
    }
  }

  /** A pending word and the rest of the line: the word, then the tokens of the line. */
  lemma {:induction false} LineEnds(
      env: Env, args: seq<string>, word: string, forced: bool, ps: seq<Piece>, n: nat, e: Ending)
    requires LineOk(ps)
    requires ps != [] && ps[0].gap == 0 && (word != "" || forced) ==>
               ps[0].token == Pipe || (ps[0].token == Write && word != "2")
    ensures Ends(env, Pending(args, word, forced), LineTyped(ps, Spaces(n) + EndingTyped(e))) ==
            Words(Flushed(args, word, forced) + Values(ps), LeftOver(e))
    decreases |ps|
  {
    var tail := Spaces(n) + EndingTyped(e);
    if ps == [] {
      EndingEnds(env, args, word, forced, n, e);
      assert Flushed(args, word, forced) + [] == Flushed(args, word, forced);
    } else {
      LineOkNext(ps);
      var done, t := Flushed(args, word, forced), ps[0].token;
      PieceScans(env, args, word, forced, ps[0], LineTyped(ps[1..], tail));
      var st := AfterToken(done, t);
      LineEnds(env, st.args, st.buffer, st.forced, ps[1..], n, e);
      FlushedToken(done, t);
      Concat3(done, [Value(t)], Values(ps[1..]));
    }
  }

  lemma FlushedToken(done: seq<string>, t: Token)
    requires t.Word? ==> WordOk(t.segments)
    ensures var st := AfterToken(done, t); Flushed(st.args, st.buffer, st.forced) == done + [Value(t)]
  {
  }

  /** A command line gives the words that are written in it, the operators and nothing
      else: however the words are written, whatever the spaces, up to its end, a ';' that
      leaves the rest for later, or a comment. */
  lemma LineMeans(env: Env, ps: seq<Piece>, n: nat, e: Ending)
    requires LineOk(ps)
    ensures Tokens(env, LineTyped(ps, Spaces(n) + EndingTyped(e))) == Words(Values(ps), LeftOver(e))
  {
    LineEnds(env, [], "", false, ps, n, e);
    assert [] + Values(ps) == Values(ps);
  }

  // ------------------------------------------------------------------- quotes left open

  lemma {:induction false} SingleScans(env: Env, word: string, text: string)
    requires '\'' !in text
    ensures Scan(env, State([], word, SingleQuote, false, true, false), text) ==
            (State([], word + text, SingleQuote, false, true, false), None)
    decreases |text|
  {
    if text == "" {
      assert word + text == word;
    } else {
      assert text == [text[0]] + text[1..];
      SingleQuoteIsLiteral(env, State([], word, SingleQuote, false, true, false), text[0], text[1..]);
      SingleScans(env, word + [text[0]], text[1..]);
      WordSplit(word, text);
    }
  }

  /** A quote that is not closed, or a backslash at the end, leaves the line unfinished, and
      the text so far is kept. */
  lemma OpenDouble(env: Env, text: string)
    ensures Tokens(env, "\"" + EscapeInDouble(text)) == Unterminated(Doubled([], text))
  {
    DoubleOpens(env, [], "", false, EscapeInDouble(text));
    assert EscapeInDouble(text) + "" == EscapeInDouble(text) && "" + text == text;
    DoubleScans(env, [], "", text, "");
  }

  lemma OpenSingle(env: Env, text: string)
    requires '\'' !in text
    ensures Tokens(env, "'" + text) == Unterminated(State([], text, SingleQuote, false, true, false))
  {
    ScanStep(env, FRESH, '\'', text);
    SingleScans(env, "", text);
    assert "" + text == text;
  }

  lemma OpenBackslash(env: Env, text: string)
    requires BareOk(text, true)
    ensures Tokens(env, text + "\\") == Unterminated(Pending([], text, false))
  {
    BareScans(env, FRESH, text, "\\");
    assert "" + text == text && ['\\'] + "" == "\\";
    ScanStep(env, FRESH.(buffer := text), '\\', "");
  }

  // --------------------------------------------------------------- stars and the home directory

  /** The first '*' of a word stands for the names of files, any other for itself. */
  lemma StarMeans(env: Env, a: string, b: string, c: string)
    requires BareOk(a, true) && BareOk(b, false) && BareOk(c, false)
    ensures Tokens(env, a + ("*" + b)) == Words([a + (STAR_TOKEN + b)], None)
    ensures Tokens(env, a + ("*" + (b + ("*" + c)))) == Words([(a + (STAR_TOKEN + b)) + ("*" + c)], None)
  {
    var word := a + (STAR_TOKEN + b);
    StarScans(env, a, b, "");
    assert b + "" == b;
    StarredEnds(env, word);
    StarScans(env, a, b, "*" + c);
    SecondStar(env, word, c);
  }

  function Starred(word: string): State {
    State([], word, NoQuote, false, false, true)
  }

  lemma StarredEnds(env: Env, word: string)
    requires word != ""
    ensures Ends(env, Starred(word), "") == Words([word], None)
  {
  }

  lemma SecondStar(env: Env, word: string, c: string)
    requires word != "" && BareOk(c, false)
    ensures Ends(env, Starred(word), "*" + c) == Words([word + ("*" + c)], None)
  {
    ScanStep(env, Starred(word), '*', c);
    BareScans(env, Starred(word + "*"), c, "");
    assert c + "" == c;
    Concat3(word, "*", c);
    StarredEnds(env, word + ("*" + c));
  }

  lemma StarScans(env: Env, a: string, b: string, rest: string)
    requires BareOk(a, true) && BareOk(b, false)
    ensures Scan(env, FRESH, a + ("*" + (b + rest))) ==
            Scan(env, Starred(a + (STAR_TOKEN + b)), rest)
  {
    BareScans(env, FRESH, a, "*" + (b + rest));
    assert "" + a == a;
    ScanStep(env, FRESH.(buffer := a), '*', b + rest);
    BareScans(env, FRESH.(buffer := a + STAR_TOKEN, haveStar := true), b, rest);
    Concat3(a, STAR_TOKEN, b);
  }

  /** A '~' that begins a word, alone or in front of a '/', is the home directory if there is
      one; any other is itself. */
  lemma HomeMeans(env: Env, text: string)
    requires BareOk(text, false)
    ensures var home := if text == "" || text[0] == '/' then env.home else None;
            Tokens(env, "~" + text) == Words(Flushed([], (if home.Some? then home.value else "~") + text, false), None)
  {
    var word := if env.home.Some? && (text == "" || text[0] == '/') then env.home.value else "~";
    assert text != "" ==> ("~" + text)[1] == text[0];
    assert text != "" && text[0] != '/' ==> Ordinary(text[0]) || text[0] == '~' || text[0] == '\\';
    ScanStep(env, FRESH, '~', text);
    assert "" + ['~'] == "~";
    HomeTail(env, word, text);
  }

  lemma HomeTail(env: Env, word: string, text: string)
    requires BareOk(text, word == "") || (text != "" && text[0] == '/' && BareOk(text, false))
    ensures Scan(env, FRESH.(buffer := word), text) == Scan(env, FRESH.(buffer := word + text), "")
  {
    BareScans(env, FRESH.(buffer := word), text, "");
    assert text + "" == text;
  }

  // ------------------------------------------------------------------------- variables

  /** In quotes a value is taken as it is. */
  lemma {:induction false} QuotedValue(st: State, v: string)
    requires st.quoted != NoQuote
    ensures AddValue(st, v) == st.(buffer := st.buffer + v)
    decreases |v|
  {
    if v == "" {
      assert st.buffer + v == st.buffer;
    } else {
      QuotedValue(st.(buffer := st.buffer + [v[0]]), v[1..]);
      WordSplit(st.buffer, v);
    }
  }

  /** In double quotes a variable adds its value to the word, spaces included, and nothing
      if it has none. */
  lemma VariableInDouble(env: Env, a: string, name: string, b: string, v: Option<string>)
    requires env.expand(name + (EscapeInDouble(b) + "\"")) == (|name|, v)
    ensures Tokens(env, "\"" + (EscapeInDouble(a) + ("$" + (name + (EscapeInDouble(b) + "\""))))) ==
            Words([(a + if v.Some? then v.value else "") + b], None)
  {
    var tail := EscapeInDouble(b) + "\"";
    var text := "$" + (name + tail);
    DoubleOpens(env, [], "", false, EscapeInDouble(a) + text);
    DoubleScans(env, [], "", a, text);
    assert "" + a == a;
    var word := a + if v.Some? then v.value else "";
    DollarInDouble(env, [], a, name, tail, v);
    DoubleScans(env, [], word, b, "\"");
    DoubleCloses(env, [], word + b, "");
    assert "\"" + "" == "\"";
  }

  lemma DollarInDouble(env: Env, args: seq<string>, a: string, name: string, tail: string, v: Option<string>)
    requires env.expand(name + tail) == (|name|, v) && tail != ""
    ensures Scan(env, Doubled(args, a), "$" + (name + tail)) ==
            Scan(env, Doubled(args, a + if v.Some? then v.value else ""), tail)
  {
    var text := "$" + (name + tail);
    assert text[1..] == name + tail && text[1 + |name|..] == tail;
    if v.Some? {
      QuotedValue(Doubled(args, a), v.value);
    } else {
      assert a + "" == a;
    }
  }

  /** A value outside quotes: fields, each with the spaces in front of it. */
  datatype Field = Field(gap: nat, text: string)

  function FieldsTyped(fs: seq<Field>, tail: string): string {
    if fs == [] then tail else Spaces(fs[0].gap) + (fs[0].text + FieldsTyped(fs[1..], tail))
  }

  predicate FieldsOk(fs: seq<Field>) {
    (forall i :: 0 <= i < |fs| ==> fs[i].text != "" && ' ' !in fs[i].text) &&
    (forall i :: 0 < i < |fs| ==> fs[i].gap > 0)
  }

  function Texts(fs: seq<Field>): seq<string> {
    if fs == [] then [] else [fs[0].text] + Texts(fs[1..])
  }

  lemma {:induction false} SpacesSplit(args: seq<string>, word: string, forced: bool, n: nat, rest: string)
    requires n > 0
    ensures AddValue(Pending(args, word, forced), Spaces(n) + rest) ==
            AddValue(Pending(Flushed(args, word, forced), "", false), rest)
    decreases n
  {
    var v := Spaces(n) + rest;
    assert v[0] == ' ' && v[1..] == Spaces(n - 1) + rest;
    if n == 1 {
      assert Spaces(0) + rest == rest;
    } else {
      SpacesSplit(Flushed(args, word, forced), "", false, n - 1, rest);
    }
  }

  lemma {:induction false} FieldAdds(args: seq<string>, word: string, forced: bool, text: string, rest: string)
    requires ' ' !in text
    ensures AddValue(Pending(args, word, forced), text + rest) == AddValue(Pending(args, word + text, forced), rest)
    decreases |text|
  {
    if text == "" {
      assert text + rest == rest && word + text == word;
    } else {
      var v := text + rest;
      assert v[0] == text[0] && v[1..] == text[1..] + rest;
      FieldAdds(args, word + [text[0]], forced, text[1..], rest);
      WordSplit(word, text);
    }
  }

  /** The words of a value, the last one pending. */
  lemma {:induction false} FieldsSplit(args: seq<string>, word: string, forced: bool, fs: seq<Field>, n: nat)
    requires FieldsOk(fs) && (fs != [] && fs[0].gap == 0 ==> word == "" && !forced)
    ensures var st := AddValue(Pending(args, word, forced), FieldsTyped(fs, Spaces(n)));
            st == Pending(st.args, st.buffer, st.forced) &&
            Flushed(st.args, st.buffer, st.forced) == Flushed(args, word, forced) + Texts(fs)
    decreases |fs|
  {
    var done := Flushed(args, word, forced);
    if fs == [] {
      assert Spaces(n) + "" == Spaces(n);
      if n > 0 {
        SpacesSplit(args, word, forced, n, "");
      }
      assert done + [] == done;
    } else {
      var rest := FieldsTyped(fs[1..], Spaces(n));
      if fs[0].gap > 0 {
        SpacesSplit(args, word, forced, fs[0].gap, fs[0].text + rest);
      } else {
        assert Spaces(0) + (fs[0].text + rest) == fs[0].text + rest;
      }
      FieldAdds(done, "", false, fs[0].text, rest);
      assert "" + fs[0].text == fs[0].text;
      FieldsNext(fs);
      FieldsSplit(done, fs[0].text, false, fs[1..], n);
      Concat3(done, [fs[0].text], Texts(fs[1..]));
    }
  }

  lemma FieldsNext(fs: seq<Field>)
    requires fs != [] && FieldsOk(fs)
    ensures fs[0].text != "" && ' ' !in fs[0].text && FieldsOk(fs[1..]) && (|fs| > 1 ==> fs[1..][0].gap > 0)
  {
    assert forall i :: 0 <= i < |fs[1..]| ==> fs[1..][i] == fs[i + 1];
  }

  /** Outside quotes a variable gives a word for each field of its value. */
  lemma VariableSplits(env: Env, name: string, fs: seq<Field>, n: nat)
    requires FieldsOk(fs) && env.expand(name) == (|name|, Some(FieldsTyped(fs, Spaces(n))))
    ensures Tokens(env, "$" + name) == Words(Texts(fs), None)
  {
    var text := "$" + name;
    assert text[1..] == name;
    FieldsSplit([], "", false, fs, n);
    assert [] + Texts(fs) == Texts(fs);
  }
}
