/**
  The pattern language of grep (apps/grep.c), read off the cursor movements of
  its matcher: characters, bracket expressions, and the parse of a pattern into
  a syntax tree. A byte is modelled by a `char`.
 */
module GrepSyntax {
  import opened Basics

  datatype MatchOp = Equal | AtLeast | AtMost

  /** `tolower` of the C locale. */
  function ToLower(c: char): char {
    if 'A' <= c <= 'Z' then (c as int + 32) as char else c
  }

  /** The value of a plain `char`, which is signed on x86-64. */
  function Ord(c: char): int {
    if c as int < 128 then c as int else c as int - 256
  }

  predicate Compare(a: char, b: char, ignoreCase: bool, op: MatchOp) {
    var a' := if ignoreCase then ToLower(a) else a;
    var b' := if ignoreCase then ToLower(b) else b;
    match op
    case Equal => a' == b'
    case AtLeast => Ord(a') >= Ord(b')
    case AtMost => Ord(a') <= Ord(b')
  }

  const UPPER := "ABCDEFGHIJKLMNOPQRSTUVWXYZ"
  const LOWER := "abcdefghijklmnopqrstuvwxyz"

  /** The two cases of letter i of the alphabet. */
  predicate Cases(a: char, b: char, i: int) {
    0 <= i < 26 && ((a == UPPER[i] && b == LOWER[i]) || (a == LOWER[i] && b == UPPER[i]))
  }

  /** The same character, or the same letter in either case. */
  ghost predicate SameLetter(a: char, b: char) {
    a == b || exists i :: Cases(a, b, i)
  }

  lemma LettersAre(i: nat)
    requires i < 26
    ensures UPPER[i] == (65 + i) as char && LOWER[i] == (97 + i) as char
  {
  }

  lemma CasesAre(a: char, b: char, i: nat)
    requires i < 26
    ensures Cases(a, b, i) <==> (a as int == 65 + i && b as int == 97 + i) || (a as int == 97 + i && b as int == 65 + i)
  {
    LettersAre(i);
  }

  /** With -i exactly the two cases of a letter are taken for one another. */
  lemma CaseIsIgnored(a: char, b: char)
    ensures Compare(a, b, true, Equal) <==> SameLetter(a, b)
  {
    if Compare(a, b, true, Equal) && a != b {
      CasesAre(a, b, if 'A' <= a <= 'Z' then a as int - 65 else b as int - 65);
    }
    if i :| Cases(a, b, i) {
      CasesAre(a, b, i);
    }
  }

  /** Characters are ordered as signed bytes: ASCII as usual, the others before it. */
  lemma OrderOfBytes(a: char, b: char)
    requires a as int < 256 && b as int < 256
    ensures Compare(a, b, false, AtLeast) <==>
            if (a as int < 128) == (b as int < 128) then a >= b else b as int >= 128
    ensures Compare(a, b, false, AtMost) <==> Compare(b, a, false, AtLeast)
  {
  }

  /** A pattern argument. */
  type Needle = CString

  /** The byte under a cursor; the terminator is at index |s|. */
  function At(s: string, i: nat): char {
    if i < |s| then s[i] else '\0'
  }

  // ---------------------------------------------------------------- brackets

  datatype Element = Single(c: char) | Range(lo: char, hi: char)

  /** `danglingDash`: the expression ends in a '-' that has no right end. */
  datatype Bracket = Bracket(negated: bool, elements: seq<Element>, danglingDash: bool)

  predicate ElementAccepts(e: Element, c: char, ignoreCase: bool) {
    match e
    case Single(x) => Compare(c, x, ignoreCase, Equal)
    case Range(lo, hi) => Compare(c, lo, ignoreCase, AtLeast) && Compare(c, hi, ignoreCase, AtMost)
  }

  /** What a bracket expression means: a set, or its complement, or, past a
      dangling dash, nothing more. */
  predicate BracketAccepts(b: Bracket, c: char, ignoreCase: bool) {
    if exists e :: e in b.elements && ElementAccepts(e, c, ignoreCase) then !b.negated
    else b.negated && !b.danglingDash
  }

  /** A set of elements accepts what one of them does, and its complement the rest. */
  lemma SetsMean(es: seq<Element>, fs: seq<Element>, c: char, ignoreCase: bool)
    ensures !BracketAccepts(Bracket(false, [], false), c, ignoreCase)
    ensures BracketAccepts(Bracket(false, es + fs, false), c, ignoreCase) <==>
            BracketAccepts(Bracket(false, es, false), c, ignoreCase) ||
            BracketAccepts(Bracket(false, fs, false), c, ignoreCase)
    ensures BracketAccepts(Bracket(true, es, false), c, ignoreCase) <==>
            !BracketAccepts(Bracket(false, es, false), c, ignoreCase)
    ensures !BracketAccepts(Bracket(true, es, true), c, ignoreCase)
  {
    assert forall e :: e in es + fs <==> e in es || e in fs;
  }

  /** A single element accepts its character, a range what lies in it. */
  lemma ElementsMean(x: char, y: char, c: char)
    requires x as int < 128 && y as int < 128 && c as int < 128
    ensures BracketAccepts(Bracket(false, [Single(x)], false), c, false) <==> c == x
    ensures BracketAccepts(Bracket(false, [Range(x, y)], false), c, false) <==> x <= c <= y
  {
    assert Single(x) in [Single(x)] && Range(x, y) in [Range(x, y)];
    OrderOfBytes(c, x);
    OrderOfBytes(c, y);
  }

  /** One possibly escaped character of the bracket body that ends at `end`, and the index after it. */
  function ReadBracketChar(n: string, i: nat, end: nat): (r: (char, nat))
    requires i < end <= |n|
    ensures i < r.1 <= end
  {
    if n[i] == '\\' && i + 1 < end && (n[i + 1] == '\\' || n[i + 1] == ']') then (n[i + 1], i + 2)
    else if n[i] == '\\' && i + 1 < end && n[i + 1] == 't' then ('\t', i + 2)
    else (n[i], i + 1)
  }

  /** The elements of n[i..end], and whether a dangling dash ends them. */
  function ReadElements(n: string, i: nat, end: nat): (seq<Element>, bool)
    requires i <= end <= |n|
    decreases end - i
  {
    if i == end then ([], false)
    else
      var (c, next) := ReadBracketChar(n, i, end);
      if next < end && n[next] == '-' then
        if next + 1 == end then ([], true)
        else
          var (hi, next') := ReadBracketChar(n, next + 1, end);
          var (es, dash) := ReadElements(n, next', end);
          ([Range(c, hi)] + es, dash)
      else
        var (es, dash) := ReadElements(n, next, end);
        ([Single(c)] + es, dash)
  }

  /** The bracket expression n[start..end]. */
  function ReadBracket(n: string, start: nat, end: nat): Bracket
    requires start <= end <= |n|
  {
    var negated := start < end && n[start] == '^';
    var (es, dash) := ReadElements(n, if negated then start + 1 else start, end);
    Bracket(negated, es, dash)
  }

  /** Index of the ']' that closes a bracket body starting at e, or |n| when none does. */
  function BracketEnd(n: string, e: nat): (r: nat)
    requires e <= |n|
    ensures e <= r <= |n|
    ensures r < |n| ==> n[r] == ']'
    decreases |n| - e
  {
    if e == |n| || n[e] == ']' then e
    else if n[e] == '\\' && At(n, e + 1) == ']' then BracketEnd(n, e + 2)
    else BracketEnd(n, e + 1)
  }

  /** The scan never stops just after a backslash. */
  lemma {:induction false} BracketEndNotEscaped(n: string, e: nat)
    requires e <= |n|
    ensures var r := BracketEnd(n, e);
            e < r < |n| ==> n[r - 1] != '\\'
    decreases |n| - e
  {
    if e == |n| || n[e] == ']' {
    } else if n[e] == '\\' && At(n, e + 1) == ']' {
      BracketEndNotEscaped(n, e + 2);
    } else {
      BracketEndNotEscaped(n, e + 1);
    }
  }

  // ------------------------------------------------------------------- trees

  datatype Atom = Literal(c: char) | AnyChar | Class(bracket: Bracket)

  datatype Quantifier = Once | Optional | OneOrMore | ZeroOrMore

  /** A pattern as a chain: every constructor says what is matched next and what
      follows. `Accept` is the end of the pattern or group, `Reject` a tail the
      matcher gives up on (an open bracket or group), `Overrun` a lone backslash
      at the very end, where the matcher leaves the string. */
  datatype Regex =
    | Accept
    | Reject
    | Overrun
    | LineStart(rest: Regex)
    | LineEnd(rest: Regex)
    | Item(atom: Atom, quantifier: Quantifier, rest: Regex)
    | Group(body: Regex, rest: Regex)

  /** The tree from a cursor on, and the cursor after the ')' that ends it. */
  datatype Parsed = Parsed(re: Regex, end: Option<nat>)

  datatype AtomRead = AtomAt(atom: Atom, next: nat) | Unterminated | PastEnd

  const ESCAPABLE := "$^/\\.[]*()"

  function ReadAtom(n: string, m: nat): (r: AtomRead)
    requires m < |n|
    ensures r.AtomAt? ==> m < r.next <= |n|
  {
    if n[m] == '.' then AtomAt(AnyChar, m + 1)
    else if n[m] == '\\' && m + 1 == |n| then PastEnd
    else if n[m] == '\\' && n[m + 1] in ESCAPABLE then AtomAt(Literal(n[m + 1]), m + 2)
    else if n[m] == '\\' && n[m + 1] == 't' then AtomAt(Literal('\t'), m + 2)
    else if n[m] == '[' then
      var e := BracketEnd(n, m + 1);
      if e == |n| then Unterminated else AtomAt(Class(ReadBracket(n, m + 1, e)), e + 1)
    else AtomAt(Literal(n[m]), m + 1)
  }

  function ReadQuantifier(n: string, m: nat): (r: (Quantifier, nat))
    requires m <= |n|
    ensures m <= r.1 <= |n|
  {
    if At(n, m) == '\\' && At(n, m + 1) == '?' then (Optional, m + 2)
    else if At(n, m) == '\\' && At(n, m + 1) == '+' then (OneOrMore, m + 2)
    else if At(n, m) == '*' then (ZeroOrMore, m + 1)
    else (Once, m)
  }

  /** Parse where a call of the matcher begins: here, and only here, '^' is an anchor. */
  function ParseStart(n: Needle, m: nat, grouped: bool): (p: Parsed)
    requires m <= |n|
    ensures p.end.Some? ==> m <= p.end.value <= |n| && if grouped then m < p.end.value else p.end.value == |n|
    decreases |n| - m, 1
  {
    if At(n, m) == '^' then
      var p := ParseHere(n, m + 1, grouped);
      Parsed(LineStart(p.re), p.end)
    else ParseHere(n, m, grouped)
  }

  /** Parse at a turn of the matcher's loop. After `*` and `\+` the matcher calls
      itself, so a '^' there is an anchor again. A '^' right after `\?` is an
      anchor on the path that takes the item, where it cannot hold because the
      item was consumed, and a literal on the path that skips it: such an item
      never consumes anything. */
  function ParseHere(n: Needle, m: nat, grouped: bool): (p: Parsed)
    requires m <= |n|
    ensures p.end.Some? ==> m <= p.end.value <= |n| && if grouped then m < p.end.value else p.end.value == |n|
    decreases |n| - m, 0
  {
    if m == |n| then
      if grouped then Parsed(Reject, None) else Parsed(Accept, Some(m))
    else if grouped && n[m] == ')' then Parsed(Accept, Some(m + 1))
    else if n[m] == '$' then
      var p := ParseHere(n, m + 1, grouped);
      Parsed(LineEnd(p.re), p.end)
    else if n[m] == '(' then
      var g := ParseStart(n, m + 1, true);
      if g.end.None? then Parsed(Group(g.re, Reject), None)
      else
        var p := ParseHere(n, g.end.value, grouped);
        Parsed(Group(g.re, p.re), p.end)
    else
      match ReadAtom(n, m)
      case Unterminated => Parsed(Reject, None)
      case PastEnd => Parsed(Overrun, None)
      case AtomAt(a, next) =>
        var (q, next') := ReadQuantifier(n, next);
        if q == Optional && At(n, next') == '^' then ParseHere(n, next', grouped)
        else
          var p := if q == OneOrMore || q == ZeroOrMore then ParseStart(n, next', grouped)
                   else ParseHere(n, next', grouped);
          Parsed(Item(a, q, p.re), p.end)
  }

  /** A whole pattern. */
  function Parse(n: Needle): Regex {
    ParseStart(n, 0, false).re
  }

  /** Parsed without reading past the end of the pattern. */
  predicate Defined(re: Regex) {
    match re
    case Accept => true
    case Reject => true
    case Overrun => false
    case LineStart(rest) => Defined(rest)
    case LineEnd(rest) => Defined(rest)
    case Item(_, _, rest) => Defined(rest)
    case Group(body, rest) => Defined(body) && Defined(rest)
  }

  /** Reading escapes in pairs and skipping bracket expressions from m on, a backslash
      is left over at the end. */
  predicate LoneBackslash(n: string, m: nat)
    decreases |n| - m
  {
    if m >= |n| then false
    else if n[m] == '\\' then m + 1 == |n| || LoneBackslash(n, m + 2)
    else if n[m] == '[' then BracketEnd(n, m + 1) < |n| && LoneBackslash(n, BracketEnd(n, m + 1) + 1)
    else LoneBackslash(n, m + 1)
  }

  /** Exactly the patterns without one are parsed inside the string, so no call for such a
      pattern reads past its end. */
  lemma DefinedUnlessLoneBackslash(n: Needle)
    ensures Defined(Parse(n)) <==> !LoneBackslash(n, 0)
  {
    StartDefined(n, 0, false);
  }

  /** In particular those that end in anything else. */
  lemma {:induction false} OtherLastCharacter(n: string, m: nat)
    requires n == "" || n[|n| - 1] != '\\'
    ensures !LoneBackslash(n, m)
    decreases |n| - m
  {
    if m < |n| {
      if n[m] == '\\' {
        OtherLastCharacter(n, m + 2);
      } else if n[m] == '[' {
        OtherLastCharacter(n, BracketEnd(n, m + 1) + 1);
      } else {
        OtherLastCharacter(n, m + 1);
      }
    }
  }

  /** The others may: for a backslash alone, every call does at its first turn. */
  lemma BackslashAlone()
    ensures Parse("\\") == Overrun
  {
    assert ReadAtom("\\", 0) == PastEnd;
  }

  /** An atom and its quantifier are read without splitting an escape. */
  lemma AtomSkips(n: string, m: nat)
    requires m < |n|
    ensures ReadAtom(n, m).AtomAt? ==> (LoneBackslash(n, m) <==> LoneBackslash(n, ReadAtom(n, m).next))
    ensures ReadAtom(n, m).PastEnd? ==> LoneBackslash(n, m)
    ensures ReadAtom(n, m).Unterminated? ==> !LoneBackslash(n, m)
  {
  }

  lemma QuantifierSkips(n: string, m: nat)
    requires m <= |n|
    ensures LoneBackslash(n, m) <==> LoneBackslash(n, ReadQuantifier(n, m).1)
  {
  }

  /** A lone backslash is met in the part that was parsed or after it. */
  ghost predicate Accounted(n: string, m: nat, p: Parsed) {
    LoneBackslash(n, m) <==> (!Defined(p.re) || (p.end.Some? && LoneBackslash(n, p.end.value)))
  }

  lemma {:induction false} StartDefined(n: Needle, m: nat, grouped: bool)
    requires m <= |n|
    ensures Accounted(n, m, ParseStart(n, m, grouped))
    decreases |n| - m, 1
  {
    HereDefined(n, if At(n, m) == '^' then m + 1 else m, grouped);
  }

  lemma {:induction false} HereDefined(n: Needle, m: nat, grouped: bool)
    requires m <= |n|
    ensures Accounted(n, m, ParseHere(n, m, grouped))
    decreases |n| - m, 0
  {
    if m == |n| || (grouped && n[m] == ')') {
    } else if n[m] == '$' {
      HereDefined(n, m + 1, grouped);
    } else if n[m] == '(' {
      StartDefined(n, m + 1, true);
      var g := ParseStart(n, m + 1, true);
      if g.end.Some? {
        HereDefined(n, g.end.value, grouped);
      }
    } else {
      AtomSkips(n, m);
      if ReadAtom(n, m).AtomAt? {
        QuantifierSkips(n, ReadAtom(n, m).next);
        var next := ReadQuantifier(n, ReadAtom(n, m).next).1;
        HereDefined(n, next, grouped);
        StartDefined(n, next, grouped);
      }
    }
  }
}
