/**
  The tokenising loop of the shell (apps/esh.c:712-717, 926-1200): quoting, escapes
  and operators. Variables and the home directory come from the environment.
 */
module Esh {
  import opened Basics

  datatype Quote = NoQuote | SingleQuote | DoubleQuote

  /** The loop's variables: `buffer` is buffer_[..collected], `escaped` the flag `backtick`. */
  datatype State = State(
    args: seq<string>, buffer: string, quoted: Quote, escaped: bool, forced: bool, haveStar: bool)

  /** `expand` tells, for the text after a '$', how much of it is the variable's name
      and what its value is, if it has one; `home` is $HOME. */
  datatype Env = Env(expand: string -> (nat, Option<string>), home: Option<string>)

  const PIPE_TOKEN := "\U{FF}\U{FF}PIPE\U{FF}\U{FF}"
  const STAR_TOKEN := "\U{FF}\U{FF}STAR\U{FF}\U{FF}"
  const WRITE_TOKEN := "\U{FF}\U{FF}WRITE\U{FF}\U{FF}"
  const WRITE_ERR_TOKEN := "\U{FF}\U{FF}WRITEERR\U{FF}\U{FF}"

  const FRESH := State([], "", NoQuote, false, false, false)

  // --------------------------------------------------------------------- one step

  /** How a turn of the loop ends: `Next` moves the cursor on, `Stop` leaves the loop,
      with what follows a ';'. */
  datatype Turn = Next(st: State, moved: nat) | Stop(st: State, rest: Option<string>)

  /** The label _just_add. */
  function JustAdd(st: State, c: char): State {
    st.(escaped := false, buffer := st.buffer + [c])
  }

  predicate HasWord(st: State) {
    st.buffer != "" || st.forced
  }

  /** The label _new_arg. */
  function NewArg(st: State): State {
    if HasWord(st)
    then st.(escaped := false, args := st.args + [st.buffer], buffer := "", haveStar := false, forced := false)
    else st.(escaped := false)
  }

  /** An operator ends the word before it and is a word of its own. */
  function Operator(st: State, token: string): State {
    var st' := if HasWord(st) then st.(args := st.args + [st.buffer]) else st;
    NewArg(st'.(forced := false, buffer := token))
  }

  /** A variable's value: spaces split it unless it is quoted. */
  function AddValue(st: State, v: string): State
    decreases |v|
  {
    if v == "" then st
    else if v[0] == ' ' && st.quoted == NoQuote then
      var next := if HasWord(st)
                  then st.(args := st.args + [st.buffer], buffer := "", haveStar := false, forced := false)
                  else st;
      AddValue(next, v[1..])
    else AddValue(st.(buffer := st.buffer + [v[0]]), v[1..])
  }

  predicate Plain(st: State) {
    st.quoted == NoQuote && !st.escaped
  }

  /** A quote character: opens, closes, or is itself. */
  function QuoteChar(st: State, c: char, q: Quote): Turn {
    var st' := st.(forced := true);
    if st.quoted == q && !st.escaped then Next(st'.(quoted := NoQuote), 1)
    else if st.quoted == NoQuote && !st.escaped then Next(st'.(quoted := q), 1)
    else Next(JustAdd(st', c), 1)
  }

  /** One turn of the loop (apps/esh.c:940-1169). */
  function Consume(env: Env, st: State, s: string): (t: Turn)
    requires s != ""
    ensures t.Next? ==> 0 < t.moved
  {
    var c := s[0];
    var add := Next(JustAdd(st, c), 1);
    match c
    case '$' =>
      if st.quoted == SingleQuote || st.escaped then add
      else
        var (n, v) := env.expand(s[1..]);
        Next(if v.Some? then AddValue(st.(escaped := false), v.value) else st, 1 + n)
    case '~' =>
      if st.quoted != NoQuote || st.buffer != "" || st.escaped || env.home.None? then add
      else if |s| == 1 || s[1] == '/' || s[1] == '\n' || s[1] == ' ' || s[1] == ';'
      then Next(st.(buffer := env.home.value), 1) else add
    case '"' => QuoteChar(st, c, DoubleQuote)
    case '\'' => QuoteChar(st, c, SingleQuote)
    case '*' =>
      if !Plain(st) || st.haveStar then add
      else Next(st.(haveStar := true, buffer := st.buffer + STAR_TOKEN), 1)
    case '\\' => if st.quoted == SingleQuote || st.escaped then add else Next(st.(escaped := true), 1)
    case ' ' => if Plain(st) then Next(NewArg(st), 1) else add
    case '\n' => if st.quoted == NoQuote then Stop(st, None) else add
    case '|' => if Plain(st) then Next(Operator(st, PIPE_TOKEN), 1) else add
    case '>' =>
      if !Plain(st) then add
      else if HasWord(st) && st.buffer == "2" then Next(NewArg(st.(forced := false, buffer := WRITE_ERR_TOKEN)), 1)
      else Next(Operator(st, WRITE_TOKEN), 1)
    case ';' => if Plain(st) then Stop(st, Some(s[1..])) else add
    case '#' => if Plain(st) then Stop(st, None) else add
    case _ => if st.escaped then Next(JustAdd(st.(buffer := st.buffer + "\\"), c), 1) else add
  }

  // ----------------------------------------------------------------------- the loop

  /** The state after the text, and what follows a ';'. */
  function Scan(env: Env, st: State, s: string): (State, Option<string>)
    decreases |s|
  {
    if s == "" then (st, None)
    else
      match Consume(env, st, s)
      case Stop(st', rest) => (st', rest)
      case Next(st', n) => if n >= |s| then (st', None) else Scan(env, st', s[n..])
  }

  datatype Outcome = Words(args: seq<string>, rest: Option<string>) | Unterminated(st: State)

  /** The end of the loop (apps/esh.c:1172-1199). */
  function Finish(st: State, rest: Option<string>): Outcome {
    if st.quoted != NoQuote || st.escaped then Unterminated(st.(escaped := false))
    else Words(if HasWord(st) then st.args + [st.buffer] else st.args, rest)
  }

  /** The outcome of the text from a state on. */
  function Ends(env: Env, st: State, s: string): Outcome {
    var (st', rest) := Scan(env, st, s);
    Finish(st', rest)
  }

  function Tokens(env: Env, line: string): Outcome {
    Ends(env, FRESH, line)
  }

  /** Where a case of the switch goes on. */
  datatype Goto = ToJustAdd | ToNewArg | ToNext | ToDone

  /** The tokenising loop of `shell_exec` for one line. */
  method Tokenize(env: Env, line: CString) returns (outcome: Outcome)
    ensures outcome == Tokens(env, line)
  {
    var st := FRESH;
    var rest: Option<string> := None;
    var p := 0;
    assert line[0..] == line;
    while p < |line|
      invariant 0 <= p <= |line| && rest == None
      invariant Scan(env, st, line[p..]) == Scan(env, FRESH, line)
      decreases |line| - p
    {
      ghost var s := line[p..];
      var turn := Turns(env, st, line, p);
      match turn
      case Stop(st', rest') =>
        st, rest := st', rest';
        break;
      case Next(st', moved) =>
        assert moved < |s| ==> line[p + moved..] == s[moved..];
        st := st';
        p := if p + moved <= |line| then p + moved else |line|;
        assert p == |line| ==> line[p..] == "";
    }
    if st.quoted != NoQuote || st.escaped {
      return Unterminated(st.(escaped := false));
    }
    if st.buffer != "" || st.forced {
      st := st.(args := st.args + [st.buffer]);
    }
    return Words(st.args, rest);
  }

  /** The switch, with its jumps. */
  method Turns(env: Env, st0: State, line: string, p: nat) returns (turn: Turn)
    requires p < |line|
    ensures turn == Consume(env, st0, line[p..])
  {
    var st := st0;
    var c := line[p];
    var goto := ToJustAdd;
    match c {
      case '$' =>
        if st.quoted != SingleQuote && !st.escaped {
          var (n, v) := env.expand(line[p..][1..]);
          if v.Some? {
            st := Expand(st.(escaped := false), v.value);
          }
          return Next(st, 1 + n);
        }
      case '~' =>
        if st.quoted == NoQuote && st.buffer == "" && !st.escaped {
          if p + 1 == |line| || line[p + 1] == '/' || line[p + 1] == '\n' || line[p + 1] == ' ' || line[p + 1] == ';' {
            if env.home.Some? {
              st := st.(buffer := env.home.value);
              goto := ToNext;
            }
          }
        }
      case '"' =>
        st := st.(forced := true);
        if st.quoted == DoubleQuote {
          if !st.escaped {
            st, goto := st.(quoted := NoQuote), ToNext;
          }
        } else if st.quoted == NoQuote {
          if !st.escaped {
            st, goto := st.(quoted := DoubleQuote), ToNext;
          }
        }
      case '\'' =>
        st := st.(forced := true);
        if st.quoted == SingleQuote {
          if !st.escaped {
            st, goto := st.(quoted := NoQuote), ToNext;
          }
        } else if st.quoted == NoQuote {
          if !st.escaped {
            st, goto := st.(quoted := SingleQuote), ToNext;
          }
        }
      case '*' =>
        if st.quoted == NoQuote && !st.escaped && !st.haveStar {
          st, goto := st.(haveStar := true, buffer := st.buffer + STAR_TOKEN), ToNext;
        }
      case '\\' =>
        if st.quoted != SingleQuote && !st.escaped {
          st, goto := st.(escaped := true), ToNext;
        }
      case ' ' =>
        if !st.escaped && st.quoted == NoQuote {
          goto := ToNewArg;
        }
      case '\n' =>
        if st.quoted == NoQuote {
          goto := ToDone;
        }
      case '|' =>
        if st.quoted == NoQuote && !st.escaped {
          if st.buffer != "" || st.forced {
            st := st.(args := st.args + [st.buffer]);
          }
          st, goto := st.(forced := false, buffer := PIPE_TOKEN), ToNewArg;
        }
      case '>' =>
        if st.quoted == NoQuote && !st.escaped {
          if (st.buffer != "" || st.forced) && st.buffer == "2" {
            st := st.(forced := false, buffer := WRITE_ERR_TOKEN);
          } else {
            if st.buffer != "" || st.forced {
              st := st.(args := st.args + [st.buffer]);
            }
            st := st.(forced := false, buffer := WRITE_TOKEN);
          }
          goto := ToNewArg;
        }
      case ';' =>
        if st.quoted == NoQuote && !st.escaped {
          return Stop(st, Some(line[p..][1..]));
        }
      case '#' =>
        if st.quoted == NoQuote && !st.escaped {
          goto := ToDone;
        }
      case _ =>
        if st.escaped {
          st := st.(buffer := st.buffer + "\\");
        }
    }
    match goto {
      case ToDone => return Stop(st, None);
      case ToNext => return Next(st, 1);
      case ToJustAdd => return Next(st.(escaped := false, buffer := st.buffer + [c]), 1);
      case ToNewArg =>
        st := st.(escaped := false);
        if st.buffer != "" || st.forced {
          st := st.(args := st.args + [st.buffer], buffer := "", haveStar := false, forced := false);
        }
        return Next(st, 1);
    }
  }

  /** The loop over a variable's value (apps/esh.c:1000-1015). */
  method Expand(st0: State, v: string) returns (st: State)
    ensures st == AddValue(st0, v)
  {
    st := st0;
    var i := 0;
    assert v[0..] == v;
    while i < |v|
      invariant 0 <= i <= |v| && AddValue(st, v[i..]) == AddValue(st0, v)
    {
      assert v[i..][1..] == v[i + 1..];
      if v[i] == ' ' && st.quoted == NoQuote {
        if st.buffer != "" || st.forced {
          st := st.(args := st.args + [st.buffer], buffer := "", haveStar := false, forced := false);
        }
      } else {
        st := st.(buffer := st.buffer + [v[i]]);
      }
      i := i + 1;
    }
  }

  // -------------------------------------------------------------------- round trip

  /** A word in single quotes, an inner quote written as '\''. */
  function Quoted(word: string): string {
    "'" + QuotedTail(word)
  }

  /** The word from inside its quotes on. */
  function QuotedTail(word: string): string {
    if word == "" then "'"
    else (if word[0] == '\'' then "'\\''" else [word[0]]) + QuotedTail(word[1..])
  }

  /** A command line for the words. */
  function CommandLine(words: seq<string>): string {
    if words == [] then ""
    else if |words| == 1 then Quoted(words[0])
    else Quoted(words[0]) + " " + CommandLine(words[1..])
  }

  lemma ScanStep(env: Env, st: State, c: char, rest: string)
    requires Consume(env, st, [c] + rest).Next? && Consume(env, st, [c] + rest).moved == 1
    ensures Scan(env, st, [c] + rest) == Scan(env, Consume(env, st, [c] + rest).st, rest)
  {
    assert ([c] + rest)[1..] == rest;
  }

  /** Inside single quotes everything but a quote is taken as it is. */
  lemma SingleQuoteIsLiteral(env: Env, st: State, c: char, rest: string)
    requires st.quoted == SingleQuote && !st.escaped && st.forced && c != '\''
    ensures Scan(env, st, [c] + rest) == Scan(env, st.(buffer := st.buffer + [c]), rest)
  {
    ScanStep(env, st, c, rest);
  }

  /** A close, an escaped quote and a reopening add one quote. */
  lemma InnerQuote(env: Env, st: State, rest: string)
    requires st.quoted == SingleQuote && !st.escaped && st.forced
    ensures Scan(env, st, "'\\''" + rest) == Scan(env, st.(buffer := st.buffer + "'"), rest)
  {
    var q, b := "'", "\\";
    assert "'\\''" + rest == ['\''] + (['\\'] + (['\''] + (['\''] + rest)));
    ScanStep(env, st, '\'', ['\\'] + (['\''] + (['\''] + rest)));
    var st1 := st.(quoted := NoQuote);
    ScanStep(env, st1, '\\', ['\''] + (['\''] + rest));
    var st2 := st1.(escaped := true);
    ScanStep(env, st2, '\'', ['\''] + rest);
    var st3 := st1.(buffer := st.buffer + "'");
    ScanStep(env, st3, '\'', rest);
  }

  lemma TailUnfold(word: string, rest: string)
    requires word != ""
    ensures QuotedTail(word) + rest == (if word[0] == '\'' then "'\\''" else [word[0]]) + (QuotedTail(word[1..]) + rest)
  {
  }

  lemma WordSplit(before: string, word: string)
    requires word != ""
    ensures (before + [word[0]]) + word[1..] == before + word
  {
  }

  lemma ClosingQuote(env: Env, st: State, rest: string)
    requires st.quoted == SingleQuote && !st.escaped && st.forced
    ensures Scan(env, st, "'" + rest) == Scan(env, st.(quoted := NoQuote), rest)
  {
    ScanStep(env, st, '\'', rest);
  }

  /** Scanning a quoted word adds exactly that word. */
  lemma {:induction false} TailRoundTrip(env: Env, st: State, word: string, rest: string)
    requires st.quoted == SingleQuote && !st.escaped && st.forced
    ensures Scan(env, st, QuotedTail(word) + rest) ==
            Scan(env, st.(buffer := st.buffer + word, quoted := NoQuote), rest)
    decreases |word|
  {
    if word == "" {
      assert st.buffer + word == st.buffer;
      ClosingQuote(env, st, rest);
    } else {
      var tail := QuotedTail(word[1..]) + rest;
      TailUnfold(word, rest);
      WordSplit(st.buffer, word);
      if word[0] == '\'' {
        InnerQuote(env, st, tail);
      } else {
        SingleQuoteIsLiteral(env, st, word[0], tail);
      }
      TailRoundTrip(env, st.(buffer := st.buffer + [word[0]]), word[1..], rest);
    }
  }

  lemma WordRoundTrip(env: Env, args: seq<string>, word: string, rest: string)
    ensures Scan(env, FRESH.(args := args), Quoted(word) + rest) ==
            Scan(env, FRESH.(args := args, buffer := word, forced := true), rest)
  {
    var st := FRESH.(args := args);
    assert Quoted(word) + rest == ['\''] + (QuotedTail(word) + rest);
    ScanStep(env, st, '\'', QuotedTail(word) + rest);
    TailRoundTrip(env, st.(quoted := SingleQuote, forced := true), word, rest);
    assert "" + word == word;
  }

  /** A space after a word ends it. */
  lemma SpaceEndsWord(env: Env, args: seq<string>, word: string, tail: string)
    ensures Scan(env, FRESH.(args := args, buffer := word, forced := true), " " + tail) ==
            Scan(env, FRESH.(args := args + [word]), tail)
  {
    ScanStep(env, FRESH.(args := args, buffer := word, forced := true), ' ', tail);
  }

  lemma CommandLineUnfold(words: seq<string>)
    requires |words| > 1
    ensures CommandLine(words) == Quoted(words[0]) + (" " + CommandLine(words[1..]))
  {
  }

  lemma LastWordRoundTrip(env: Env, args: seq<string>, word: string)
    ensures Ends(env, FRESH.(args := args), Quoted(word)) == Words(args + [word], None)
  {
    assert Quoted(word) + "" == Quoted(word);
    WordRoundTrip(env, args, word, "");
  }

  lemma NextWordRoundTrip(env: Env, args: seq<string>, word: string, tail: string)
    ensures Ends(env, FRESH.(args := args), Quoted(word) + (" " + tail)) ==
            Ends(env, FRESH.(args := args + [word]), tail)
  {
    WordRoundTrip(env, args, word, " " + tail);
    SpaceEndsWord(env, args, word, tail);
  }

  lemma WordsSplit(args: seq<string>, words: seq<string>)
    requires words != []
    ensures (args + [words[0]]) + words[1..] == args + words
  {
  }

  lemma {:induction false} LineRoundTrip(env: Env, args: seq<string>, words: seq<string>)
    ensures Ends(env, FRESH.(args := args), CommandLine(words)) == Words(args + words, None)
    decreases |words|
  {
    if words == [] {
      assert args + words == args;
    } else {
      WordsSplit(args, words);
      if |words| == 1 {
        LastWordRoundTrip(env, args, words[0]);
        assert words[1..] == [];
        assert (args + [words[0]]) + [] == args + [words[0]];
      } else {
        CommandLineUnfold(words);
        NextWordRoundTrip(env, args, words[0], CommandLine(words[1..]));
        LineRoundTrip(env, args + [words[0]], words[1..]);
      }
    }
  }

  /** Quoting each word and joining with spaces is undone by the shell, whatever the
      words hold, empty words included, and whatever the environment. */
  lemma QuotingRoundTrip(env: Env, words: seq<CString>)
    ensures '\0' !in CommandLine(words)
    ensures Tokens(env, CommandLine(words)) == Words(words, None)
  {
    QuotedHasNoNul(words);
    LineRoundTrip(env, [], words);
    assert [] + words == words;
  }

  lemma {:induction false} TailHasNoNul(word: CString)
    ensures '\0' !in QuotedTail(word)
    decreases |word|
  {
    if word != "" {
      TailHasNoNul(word[1..]);
    }
  }

  lemma {:induction false} QuotedHasNoNul(words: seq<CString>)
    ensures '\0' !in CommandLine(words)
  {
    if words != [] {
      TailHasNoNul(words[0]);
      if |words| > 1 {
        CommandLineUnfold(words);
        QuotedHasNoNul(words[1..]);
      }
    }
  }

  // ------------------------------------------------------------------------ capacity

  /** The size of buffer_, terminator included. */
  const BUFFER_SIZE := 512

  /** While a value is added to the word, character by character, it stays inside buffer_. */
  ghost predicate ValueFits(st: State, v: string) {
    forall k :: 0 <= k <= |v| ==> |AddValue(st, v[..k]).buffer| < BUFFER_SIZE
  }

  /** That is so where a variable is expanded. */
  ghost predicate TurnFits(env: Env, st: State, s: string)
    requires s != ""
  {
    s[0] == '$' && st.quoted != SingleQuote && !st.escaped ==>
      var (n, v) := env.expand(s[1..]);
      v.Some? ==> ValueFits(st.(escaped := false), v.value)
  }

  /** The word being collected, with its terminator, stays inside buffer_ all along. */
  ghost predicate Fits(env: Env, st: State, s: string)
    decreases |s|
  {
    |st.buffer| < BUFFER_SIZE &&
    (s != "" ==>
       TurnFits(env, st, s) &&
       match Consume(env, st, s)
       case Stop(st', _) => |st'.buffer| < BUFFER_SIZE
       case Next(st', n) => |st'.buffer| < BUFFER_SIZE && (n < |s| ==> Fits(env, st', s[n..])))
  }

  lemma FitsStep(env: Env, st: State, c: char, rest: string)
    requires Consume(env, st, [c] + rest).Next? && Consume(env, st, [c] + rest).moved == 1
    requires |st.buffer| <= |Consume(env, st, [c] + rest).st.buffer| && (c == '$' ==> st.quoted == SingleQuote)
    ensures Fits(env, st, [c] + rest) <==> Fits(env, Consume(env, st, [c] + rest).st, rest)
  {
    assert ([c] + rest)[1..] == rest;
  }

  lemma LiteralFits(env: Env, st: State, c: char, rest: string)
    requires st.quoted == SingleQuote && !st.escaped && st.forced && c != '\''
    ensures Fits(env, st, [c] + rest) <==> Fits(env, st.(buffer := st.buffer + [c]), rest)
  {
    FitsStep(env, st, c, rest);
  }

  lemma ClosingQuoteFits(env: Env, st: State, rest: string)
    requires st.quoted == SingleQuote && !st.escaped && st.forced
    ensures Fits(env, st, "'" + rest) <==> Fits(env, st.(quoted := NoQuote), rest)
  {
    FitsStep(env, st, '\'', rest);
  }

  lemma EscapedQuoteFits(env: Env, st: State, rest: string)
    requires Plain(st) && st.forced
    ensures Fits(env, st, ['\\'] + (['\''] + rest)) <==> Fits(env, st.(buffer := st.buffer + "'"), rest)
  {
    FitsStep(env, st, '\\', ['\''] + rest);
    FitsStep(env, st.(escaped := true), '\'', rest);
  }

  lemma OpeningQuoteFits(env: Env, st: State, rest: string)
    requires Plain(st) && st.forced
    ensures Fits(env, st, "'" + rest) <==> Fits(env, st.(quoted := SingleQuote), rest)
  {
    FitsStep(env, st, '\'', rest);
  }

  lemma InnerQuoteFits(env: Env, st: State, rest: string)
    requires st.quoted == SingleQuote && !st.escaped && st.forced
    ensures Fits(env, st, "'\\''" + rest) <==> Fits(env, st.(buffer := st.buffer + "'"), rest)
  {
    var reopened := "'" + rest;
    var escaped := ['\\'] + (['\''] + reopened);
    assert "'\\''" + rest == "'" + escaped;
    ClosingQuoteFits(env, st, escaped);
    EscapedQuoteFits(env, st.(quoted := NoQuote), reopened);
    OpeningQuoteFits(env, st.(quoted := NoQuote, buffer := st.buffer + "'"), rest);
  }

  lemma {:induction false} TailFits(env: Env, st: State, word: string, rest: string)
    requires st.quoted == SingleQuote && !st.escaped && st.forced
    ensures Fits(env, st, QuotedTail(word) + rest) <==>
            Fits(env, st.(buffer := st.buffer + word, quoted := NoQuote), rest)
    decreases |word|
  {
    if word == "" {
      assert st.buffer + word == st.buffer;
      ClosingQuoteFits(env, st, rest);
    } else {
      var tail := QuotedTail(word[1..]) + rest;
      TailUnfold(word, rest);
      WordSplit(st.buffer, word);
      if word[0] == '\'' {
        InnerQuoteFits(env, st, tail);
      } else {
        LiteralFits(env, st, word[0], tail);
      }
      TailFits(env, st.(buffer := st.buffer + [word[0]]), word[1..], rest);
    }
  }

  lemma WordFits(env: Env, args: seq<string>, word: string, rest: string)
    ensures Fits(env, FRESH.(args := args), Quoted(word) + rest) <==>
            Fits(env, FRESH.(args := args, buffer := word, forced := true), rest)
  {
    var st := FRESH.(args := args);
    assert Quoted(word) + rest == ['\''] + (QuotedTail(word) + rest);
    FitsStep(env, st, '\'', QuotedTail(word) + rest);
    TailFits(env, st.(quoted := SingleQuote, forced := true), word, rest);
    assert "" + word == word;
  }

  lemma SpaceFits(env: Env, args: seq<string>, word: string, tail: string)
    ensures Fits(env, FRESH.(args := args, buffer := word, forced := true), " " + tail) <==>
            |word| < BUFFER_SIZE && Fits(env, FRESH.(args := args + [word]), tail)
  {
    assert (" " + tail)[1..] == tail;
  }

  /** A quoted command line needs no more room than its longest word: it fits exactly
      when every word does. */
  lemma {:induction false} QuotedFits(env: Env, args: seq<string>, words: seq<CString>)
    ensures Fits(env, FRESH.(args := args), CommandLine(words)) <==> forall w :: w in words ==> |w| < BUFFER_SIZE
    decreases |words|
  {
    if words == [] {
    } else if |words| == 1 {
      assert Quoted(words[0]) + "" == Quoted(words[0]);
      WordFits(env, args, words[0], "");
      assert words == [words[0]];
    } else {
      var tail := CommandLine(words[1..]);
      CommandLineUnfold(words);
      WordFits(env, args, words[0], " " + tail);
      SpaceFits(env, args, words[0], tail);
      QuotedFits(env, args + [words[0]], words[1..]);
      assert words == [words[0]] + words[1..];
    }
  }
}
