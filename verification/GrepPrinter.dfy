/**
  How patterns are written (apps/grep.c:86-227, 153-202): a printer from syntax trees to
  pattern text, written on its own, which the parse undoes.
 */
module GrepPrinter {
  import opened Basics
  import opened GrepSyntax
  import opened GrepSemantics

  /** The characters that a backslash takes their meaning from. */
  const SPECIAL := "$^/\\.[]*()"

  // ---------------------------------------------------------------- bracket expressions

  /** A character of a bracket expression, in front of `follow`. Plainly written, a tab
      stands for itself, and so does a backslash where nothing after it gives it a meaning. */
  function PrintSetChar(c: char, plain: bool, follow: string): (s: string)
    ensures 1 <= |s| <= 2
  {
    if c == ']' then "\\]"
    else if c == '\t' && !plain then "\\t"
    else if c == '\\' && !(plain && follow != "" && follow[0] != '\\' && follow[0] != ']' && follow[0] != 't')
    then "\\\\"
    else [c]
  }

  function PrintRange(lo: char, hi: char, plain: bool, follow: string): string {
    var right := "-" + (PrintSetChar(hi, plain, follow) + follow);
    PrintSetChar(lo, plain, right) + right
  }

  function PrintElements(es: seq<Element>, dash: bool, plain: bool): string {
    if es == [] then if dash then "a-" else ""
    else
      var follow := PrintElements(es[1..], dash, plain);
      match es[0]
      case Single(c) => PrintSetChar(c, plain, follow) + follow
      case Range(lo, hi) => PrintRange(lo, hi, plain, follow)
  }

  function FirstOf(e: Element): char {
    match e
    case Single(c) => c
    case Range(lo, _) => lo
  }

  function LastOf(e: Element): char {
    match e
    case Single(c) => c
    case Range(_, hi) => hi
  }

  predicate StartsWith(es: seq<Element>, c: char) {
    es != [] && FirstOf(es[0]) == c
  }

  /** What can be written between brackets: a '-' after a single character would make a
      range, and a backslash at the end would escape the bracket. */
  predicate ElementsPrintable(es: seq<Element>, dash: bool) {
    es != [] ==>
      && FirstOf(es[0]) != '\0' && LastOf(es[0]) != '\0'
      && (es[0].Single? ==> !StartsWith(es[1..], '-'))
      && (|es| == 1 && !dash ==> LastOf(es[0]) != '\\')
      && ElementsPrintable(es[1..], dash)
  }

  function PrintSet(b: Bracket, plain: bool): string {
    (if b.negated then "^" else "") + PrintElements(b.elements, b.danglingDash, plain)
  }

  predicate SetPrintable(b: Bracket) {
    ElementsPrintable(b.elements, b.danglingDash) && (b.negated || !StartsWith(b.elements, '^'))
  }

  // ------------------------------------------------------------------------- patterns

  /** Where a piece of a pattern stands: at the start of a pattern, of a group or after a
      `*` or `\+`; right after an atom without quantifier; after a `\?`; or elsewhere. */
  datatype Spot = AtStart | AfterAtom | AfterOptional | Elsewhere

  function After(q: Quantifier): Spot {
    match q
    case Once => AfterAtom
    case Optional => AfterOptional
    case _ => AtStart
  }

  /** Where a special character stands for itself without a backslash. */
  predicate MayBePlain(c: char, spot: Spot, grouped: bool, follow: string) {
    match c
    case '/' => true
    case ']' => true
    case '*' => spot != AfterAtom
    case '^' => spot == AfterAtom || spot == Elsewhere
    case ')' => !grouped
    case '\\' => follow != "" && follow[0] !in SPECIAL && follow[0] != 't' && follow[0] != '?' && follow[0] != '+'
    case _ => false
  }

  function PrintLiteral(c: char, plain: bool, spot: Spot, grouped: bool, follow: string): (s: string)
    ensures 1 <= |s| <= 2
  {
    if c == '\t' then if plain then "\t" else "\\t"
    else if c in SPECIAL && !(plain && MayBePlain(c, spot, grouped, follow)) then ['\\', c]
    else [c]
  }

  function PrintAtom(a: Atom, plain: bool, spot: Spot, grouped: bool, follow: string): string {
    match a
    case Literal(c) => PrintLiteral(c, plain, spot, grouped, follow)
    case AnyChar => "."
    case Class(b) => "[" + (PrintSet(b, plain) + "]")
  }

  function PrintQuantifier(q: Quantifier): string {
    match q
    case Once => ""
    case Optional => "\\?"
    case OneOrMore => "\\+"
    case ZeroOrMore => "*"
  }

  /** The text of a tree: with every special character escaped, or as plain as can be. */
  function Print(re: Regex, plain: bool, spot: Spot, grouped: bool): string {
    match re
    case Accept => ""
    case Reject => ""
    case Overrun => ""
    case LineStart(rest) => "^" + Print(rest, plain, Elsewhere, grouped)
    case LineEnd(rest) => "$" + Print(rest, plain, Elsewhere, grouped)
    case Item(a, q, rest) =>
      var follow := PrintQuantifier(q) + Print(rest, plain, After(q), grouped);
      PrintAtom(a, plain, spot, grouped, follow) + follow
    case Group(body, rest) =>
      "(" + (Print(body, plain, AtStart, true) + (")" + Print(rest, plain, Elsewhere, grouped)))
  }

  predicate AtomPrintable(a: Atom) {
    match a
    case Literal(c) => c != '\0'
    case AnyChar => true
    case Class(b) => SetPrintable(b)
  }

  /** The trees that have a text; `start` tells whether a '^' here is an anchor. */
  predicate Printable(re: Regex, start: bool) {
    match re
    case Accept => true
    case Reject => false
    case Overrun => false
    case LineStart(rest) => start && Printable(rest, false)
    case LineEnd(rest) => Printable(rest, false)
    case Item(a, q, rest) => AtomPrintable(a) && Printable(rest, After(q) == AtStart)
    case Group(body, rest) => Printable(body, true) && Printable(rest, false)
  }

  // -------------------------------------------------------------------- texts in place

  /** The text stands at index m. */
  ghost predicate Here(n: string, m: nat, s: string) {
    m + |s| <= |n| && n[m..m + |s|] == s
  }

  lemma HereAt(n: string, m: nat, s: string, i: nat)
    requires Here(n, m, s) && i < |s|
    ensures n[m + i] == s[i]
  {
    assert n[m..m + |s|][i] == s[i];
  }

  lemma HereParts(n: string, m: nat, a: string, b: string)
    requires Here(n, m, a + b)
    ensures Here(n, m, a) && Here(n, m + |a|, b)
  {
    assert (a + b)[..|a|] == a && (a + b)[|a|..] == b;
    assert n[m..m + |a|] == n[m..m + |a + b|][..|a|];
    assert n[m + |a|..m + |a| + |b|] == n[m..m + |a + b|][|a|..];
  }

  // ------------------------------------------------------------------- reading brackets

  /** A character of a bracket expression is read back. */
  lemma SetCharReads(n: string, i: nat, end: nat, c: char, plain: bool, follow: string)
    requires var s := PrintSetChar(c, plain, follow); Here(n, i, s + follow) && i + |s| + |follow| == end < |n|
    ensures i < end && ReadBracketChar(n, i, end) == (c, i + |PrintSetChar(c, plain, follow)|)
  {
    var s := PrintSetChar(c, plain, follow);
    HereParts(n, i, s, follow);
    HereAt(n, i, s, 0);
    if |s| == 2 {
      HereAt(n, i, s, 1);
    } else if follow != "" {
      HereAt(n, i + 1, follow, 0);
    }
  }

  /** The search for the closing bracket passes over it. */
  lemma SetCharPasses(n: string, i: nat, end: nat, c: char, plain: bool, follow: string)
    requires var s := PrintSetChar(c, plain, follow); Here(n, i, s + follow) && i + |s| + |follow| == end < |n|
    requires c == '\\' ==> follow != "" && follow[0] != ']'
    ensures BracketEnd(n, i) == BracketEnd(n, i + |PrintSetChar(c, plain, follow)|)
  {
    var s := PrintSetChar(c, plain, follow);
    HereParts(n, i, s, follow);
    HereAt(n, i, s, 0);
    if |s| == 2 {
      HereAt(n, i, s, 1);
    }
    if follow != "" {
      HereAt(n, i + |s|, follow, 0);
    }
  }

  lemma {:induction false} ElementsStart(es: seq<Element>, dash: bool, plain: bool)
    requires ElementsPrintable(es, dash)
    ensures var s := PrintElements(es, dash, plain);
            (s == "" <==> es == [] && !dash) &&
            (s != "" ==> s[0] != ']' && (s[0] == '-' ==> StartsWith(es, '-')) && (s[0] == '^' ==> StartsWith(es, '^')))
  {
  }

  /** The elements from i on are e and those from j on. */
  ghost predicate Adds(n: string, i: nat, e: Element, j: nat, end: nat) {
    i <= j <= end < |n| && BracketEnd(n, i) == BracketEnd(n, j) &&
    var (es, dash) := ReadElements(n, j, end);
    ReadElements(n, i, end) == ([e] + es, dash)
  }

  /** The character at i is c, and j comes after it. */
  ghost predicate Takes(n: string, i: nat, c: char, j: nat, end: nat) {
    i < j <= end < |n| && ReadBracketChar(n, i, end) == (c, j) && BracketEnd(n, i) == BracketEnd(n, j)
  }

  lemma CharTaken(n: string, i: nat, end: nat, c: char, plain: bool, follow: string) returns (j: nat)
    requires var s := PrintSetChar(c, plain, follow) + follow; Here(n, i, s) && i + |s| == end < |n|
    requires c == '\\' ==> follow != "" && follow[0] != ']'
    ensures Takes(n, i, c, j, end) && Here(n, j, follow) && j + |follow| == end
  {
    j := i + |PrintSetChar(c, plain, follow)|;
    SetCharReads(n, i, end, c, plain, follow);
    SetCharPasses(n, i, end, c, plain, follow);
    HereParts(n, i, PrintSetChar(c, plain, follow), follow);
  }

  lemma RangeAdds(n: string, i: nat, j: nat, k: nat, end: nat, lo: char, hi: char)
    requires Takes(n, i, lo, j, end) && j < end && n[j] == '-' && Takes(n, j + 1, hi, k, end)
    ensures Adds(n, i, Range(lo, hi), k, end)
  {
  }

  /** The body of a bracket expression from i on. */
  ghost predicate BodyIs(n: string, i: nat, end: nat, es: seq<Element>, dash: bool) {
    i <= end < |n| && ReadElements(n, i, end) == (es, dash) && BracketEnd(n, i) == end
  }

  lemma BodyGrows(n: string, i: nat, j: nat, end: nat, es: seq<Element>, dash: bool)
    requires es != [] && Adds(n, i, es[0], j, end) && BodyIs(n, j, end, es[1..], dash)
    ensures BodyIs(n, i, end, es, dash)
  {
    assert es == [es[0]] + es[1..];
  }

  lemma SingleAdds(n: string, i: nat, j: nat, end: nat, c: char)
    requires Takes(n, i, c, j, end) && (j < end ==> n[j] != '-')
    ensures Adds(n, i, Single(c), j, end)
  {
  }

  lemma SingleReads(n: string, i: nat, end: nat, c: char, plain: bool, follow: string) returns (j: nat)
    requires var s := PrintSetChar(c, plain, follow) + follow; Here(n, i, s) && i + |s| == end < |n|
    requires c == '\\' ==> follow != ""
    requires follow != "" ==> follow[0] != ']' && follow[0] != '-'
    ensures Adds(n, i, Single(c), j, end) && Here(n, j, follow) && j + |follow| == end
  {
    j := CharTaken(n, i, end, c, plain, follow);
    if follow != "" {
      HereAt(n, j, follow, 0);
    }
    SingleAdds(n, i, j, end, c);
  }

  lemma RangeReads(n: string, i: nat, end: nat, lo: char, hi: char, plain: bool, follow: string) returns (k: nat)
    requires var s := PrintRange(lo, hi, plain, follow); Here(n, i, s) && i + |s| == end < |n|
    requires hi == '\\' ==> follow != ""
    requires follow != "" ==> follow[0] != ']'
    ensures Adds(n, i, Range(lo, hi), k, end) && Here(n, k, follow) && k + |follow| == end
  {
    var upper := PrintSetChar(hi, plain, follow) + follow;
    var j := CharTaken(n, i, end, lo, plain, "-" + upper);
    HereAt(n, j, "-" + upper, 0);
    HereParts(n, j, "-", upper);
    k := CharTaken(n, j + 1, end, hi, plain, follow);
    RangeAdds(n, i, j, k, end, lo, hi);
  }

  lemma {:induction false} ElementsRead(n: string, i: nat, end: nat, es: seq<Element>, dash: bool, plain: bool)
    requires ElementsPrintable(es, dash) && Here(n, i, PrintElements(es, dash, plain))
    requires i + |PrintElements(es, dash, plain)| == end < |n| && n[end] == ']'
    ensures BodyIs(n, i, end, es, dash)
    decreases |es|
  {
    if es == [] {
      NoElementsRead(n, i, end, dash, plain);
    } else {
      ElementsStart(es[1..], dash, plain);
      var j := FirstReads(n, i, end, es, dash, plain);
      ElementsRead(n, j, end, es[1..], dash, plain);
      BodyGrows(n, i, j, end, es, dash);
    }
  }

  lemma FirstReads(n: string, i: nat, end: nat, es: seq<Element>, dash: bool, plain: bool) returns (j: nat)
    requires es != [] && ElementsPrintable(es, dash) && Here(n, i, PrintElements(es, dash, plain))
    requires i + |PrintElements(es, dash, plain)| == end < |n|
    ensures Adds(n, i, es[0], j, end) && Here(n, j, PrintElements(es[1..], dash, plain))
    ensures j + |PrintElements(es[1..], dash, plain)| == end
  {
    var follow := PrintElements(es[1..], dash, plain);
    ElementsStart(es[1..], dash, plain);
    match es[0]
    case Single(c) => j := SingleReads(n, i, end, c, plain, follow);
    case Range(lo, hi) => j := RangeReads(n, i, end, lo, hi, plain, follow);
  }

  lemma NoElementsRead(n: string, i: nat, end: nat, dash: bool, plain: bool)
    requires Here(n, i, PrintElements([], dash, plain))
    requires i + |PrintElements([], dash, plain)| == end < |n| && n[end] == ']'
    ensures BodyIs(n, i, end, [], dash)
  {
    if dash {
      HereAt(n, i, "a-", 0);
      HereAt(n, i, "a-", 1);
      assert BracketEnd(n, i) == BracketEnd(n, i + 1) == BracketEnd(n, i + 2);
    }
  }

  /** A leading '^' is the sign of a complement. */
  lemma SignReads(n: string, i: nat, end: nat, b: Bracket)
    requires i <= end < |n| && (b.negated ==> n[i] == '^') && (!b.negated && i < end ==> n[i] != '^')
    requires BodyIs(n, if b.negated then i + 1 else i, end, b.elements, b.danglingDash)
    ensures BracketEnd(n, i) == end && ReadBracket(n, i, end) == b
  {
  }

  lemma SignIs(n: string, i: nat, end: nat, b: Bracket, plain: bool)
    requires SetPrintable(b) && Here(n, i, PrintSet(b, plain)) && end == i + |PrintSet(b, plain)|
    ensures (b.negated ==> i < end && n[i] == '^') && (!b.negated && i < end ==> n[i] != '^')
    ensures Here(n, if b.negated then i + 1 else i, PrintElements(b.elements, b.danglingDash, plain))
  {
    var sign, es := if b.negated then "^" else "", PrintElements(b.elements, b.danglingDash, plain);
    HereParts(n, i, sign, es);
    ElementsStart(b.elements, b.danglingDash, plain);
    if b.negated {
      HereAt(n, i, sign, 0);
    } else if es != "" {
      HereAt(n, i, es, 0);
    }
  }

  lemma SetReads(n: string, i: nat, b: Bracket, plain: bool)
    requires SetPrintable(b) && Here(n, i, PrintSet(b, plain) + "]")
    ensures var end := i + |PrintSet(b, plain)|;
            end < |n| && BracketEnd(n, i) == end && ReadBracket(n, i, end) == b
  {
    var end := i + |PrintSet(b, plain)|;
    HereParts(n, i, PrintSet(b, plain), "]");
    HereAt(n, end, "]", 0);
    SignIs(n, i, end, b, plain);
    ElementsRead(n, if b.negated then i + 1 else i, end, b.elements, b.danglingDash, plain);
    SignReads(n, i, end, b);
  }

  // ------------------------------------------------------------------ reading patterns

  /** What an atom's text begins with, when `follow` comes after it. */
  lemma AtomStarts(a: Atom, plain: bool, spot: Spot, grouped: bool, follow: string)
    requires AtomPrintable(a)
    ensures var s := PrintAtom(a, plain, spot, grouped, follow);
            s != "" && s[0] != '$' && s[0] != '(' && (s[0] == ')' ==> !grouped) &&
            (s[0] == '^' ==> spot == AfterAtom || spot == Elsewhere) && (s[0] == '*' ==> spot != AfterAtom) &&
            (s[0] == '\\' ==> |s + follow| > 1 && (s + follow)[1] != '?' && (s + follow)[1] != '+')
  {
    if a.Class? {
      assert PrintAtom(a, plain, spot, grouped, follow)[0] == '[';
    }
  }

  lemma LiteralReads(n: string, m: nat, c: char, plain: bool, spot: Spot, grouped: bool, follow: string)
    requires Here(n, m, PrintLiteral(c, plain, spot, grouped, follow) + follow)
    ensures m < |n| && ReadAtom(n, m) == AtomAt(Literal(c), m + |PrintLiteral(c, plain, spot, grouped, follow)|)
  {
    var s := PrintLiteral(c, plain, spot, grouped, follow);
    HereParts(n, m, s, follow);
    HereAt(n, m, s, 0);
    if |s| == 2 {
      HereAt(n, m, s, 1);
    } else if c == '\\' {
      HereAt(n, m + 1, follow, 0);
    }
  }

  lemma ClassReads(n: string, m: nat, b: Bracket, plain: bool)
    requires SetPrintable(b) && Here(n, m, "[" + (PrintSet(b, plain) + "]"))
    ensures m < |n| && ReadAtom(n, m) == AtomAt(Class(b), m + |PrintSet(b, plain)| + 2)
  {
    var end := m + 1 + |PrintSet(b, plain)|;
    HereParts(n, m, "[", PrintSet(b, plain) + "]");
    HereAt(n, m, "[", 0);
    SetReads(n, m + 1, b, plain);
    ClassAtom(n, m, end, b);
  }

  lemma ClassAtom(n: string, m: nat, end: nat, b: Bracket)
    requires m < end < |n| && n[m] == '[' && BracketEnd(n, m + 1) == end && ReadBracket(n, m + 1, end) == b
    ensures ReadAtom(n, m) == AtomAt(Class(b), end + 1)
  {
  }

  lemma AtomReads(n: string, m: nat, a: Atom, plain: bool, spot: Spot, grouped: bool, follow: string)
    requires AtomPrintable(a) && Here(n, m, PrintAtom(a, plain, spot, grouped, follow) + follow)
    ensures m < |n| && ReadAtom(n, m) == AtomAt(a, m + |PrintAtom(a, plain, spot, grouped, follow)|)
  {
    var s := PrintAtom(a, plain, spot, grouped, follow);
    HereParts(n, m, s, follow);
    match a
    case AnyChar => HereAt(n, m, s, 0);
    case Class(b) => ClassReads(n, m, b, plain);
    case Literal(c) => LiteralReads(n, m, c, plain, spot, grouped, follow);
  }

  /** What the text of a tree begins with, if it has any. */
  lemma PatternStarts(re: Regex, plain: bool, spot: Spot, grouped: bool)
    requires Printable(re, spot == AtStart)
    ensures var s := Print(re, plain, spot, grouped);
            (s == "" <==> re == Accept) &&
            (s != "" ==>
               && (s[0] == ')' ==> !grouped) && (s[0] == '*' ==> spot != AfterAtom)
               && (s[0] == '^' ==> re.LineStart? || spot == AfterAtom || spot == Elsewhere)
               && (s[0] == '\\' ==> |s| > 1 && s[1] != '?' && s[1] != '+'))
  {
    if re.Item? {
      var follow := PrintQuantifier(re.quantifier) + Print(re.rest, plain, After(re.quantifier), grouped);
      AtomStarts(re.atom, plain, spot, grouped, follow);
    }
  }

  /** The text of the tree stands at m and is all that is left, of the pattern or of the group. */
  ghost predicate Stands(n: string, m: nat, re: Regex, plain: bool, spot: Spot, grouped: bool) {
    StandsText(n, m, Print(re, plain, spot, grouped), grouped)
  }

  ghost predicate StandsText(n: string, m: nat, s: string, grouped: bool) {
    if grouped then Here(n, m, s + ")") else Here(n, m, s) && m + |s| == |n|
  }

  /** The index after it. */
  function EndOf(m: nat, s: string, grouped: bool): nat {
    m + |s| + if grouped then 1 else 0
  }

  lemma StandsParts(n: string, m: nat, a: string, b: string, grouped: bool)
    requires StandsText(n, m, a + b, grouped)
    ensures Here(n, m, a) && Here(n, m, a + b) && StandsText(n, m + |a|, b, grouped)
    ensures EndOf(m, a + b, grouped) == EndOf(m + |a|, b, grouped)
  {
    if grouped {
      Concat3(a, b, ")");
      HereParts(n, m, a, b + ")");
      HereParts(n, m, a + b, ")");
    } else {
      HereParts(n, m, a, b);
    }
  }

  lemma StandsAt(n: string, m: nat, s: string, grouped: bool, i: nat)
    requires StandsText(n, m, s, grouped) && i <= |s|
    ensures m + i <= |n| && At(n, m + i) == if i < |s| then s[i] else if grouped then ')' else '\0'
  {
    if grouped {
      HereAt(n, m, s + ")", i);
    } else if i < |s| {
      HereAt(n, m, s, i);
    }
  }

  lemma NoQuantifier(n: string, p: nat, rest: Regex, plain: bool, grouped: bool)
    requires Printable(rest, false) && Stands(n, p, rest, plain, AfterAtom, grouped)
    ensures p <= |n| && ReadQuantifier(n, p) == (Once, p)
  {
    var s := Print(rest, plain, AfterAtom, grouped);
    PatternStarts(rest, plain, AfterAtom, grouped);
    StandsAt(n, p, s, grouped, 0);
    if s != "" && s[0] == '\\' {
      StandsAt(n, p, s, grouped, 1);
    }
  }

  lemma WrittenQuantifier(n: string, p: nat, q: Quantifier)
    requires q != Once && Here(n, p, PrintQuantifier(q))
    ensures ReadQuantifier(n, p) == (q, p + |PrintQuantifier(q)|)
  {
    HereAt(n, p, PrintQuantifier(q), 0);
    if q != ZeroOrMore {
      HereAt(n, p, PrintQuantifier(q), 1);
    }
  }

  lemma QuantifierReads(n: string, p: nat, q: Quantifier, rest: Regex, plain: bool, grouped: bool)
    requires Printable(rest, After(q) == AtStart)
    requires StandsText(n, p, PrintQuantifier(q) + Print(rest, plain, After(q), grouped), grouped)
    ensures p <= |n| && ReadQuantifier(n, p) == (q, p + |PrintQuantifier(q)|)
    ensures Stands(n, p + |PrintQuantifier(q)|, rest, plain, After(q), grouped)
  {
    StandsParts(n, p, PrintQuantifier(q), Print(rest, plain, After(q), grouped), grouped);
    if q == Once {
      NoQuantifier(n, p, rest, plain, grouped);
    } else {
      WrittenQuantifier(n, p, q);
    }
  }

  /** An atom is read back, and what follows it stands after it. */
  lemma AtomStands(n: string, m: nat, a: Atom, plain: bool, spot: Spot, grouped: bool, follow: string)
    returns (next: nat)
    requires AtomPrintable(a) && StandsText(n, m, PrintAtom(a, plain, spot, grouped, follow) + follow, grouped)
    ensures m < |n| && n[m] != '$' && n[m] != '(' && (grouped ==> n[m] != ')')
    ensures ReadAtom(n, m) == AtomAt(a, next) && StandsText(n, next, follow, grouped)
    ensures EndOf(m, PrintAtom(a, plain, spot, grouped, follow) + follow, grouped) == EndOf(next, follow, grouped)
  {
    var s := PrintAtom(a, plain, spot, grouped, follow);
    next := m + |s|;
    StandsParts(n, m, s, follow, grouped);
    AtomBegins(n, m, a, plain, spot, grouped, follow);
    AtomReads(n, m, a, plain, spot, grouped, follow);
  }

  lemma AtomBegins(n: string, m: nat, a: Atom, plain: bool, spot: Spot, grouped: bool, follow: string)
    requires AtomPrintable(a) && Here(n, m, PrintAtom(a, plain, spot, grouped, follow))
    ensures m < |n| && n[m] != '$' && n[m] != '(' && (grouped ==> n[m] != ')')
  {
    AtomStarts(a, plain, spot, grouped, follow);
    HereAt(n, m, PrintAtom(a, plain, spot, grouped, follow), 0);
  }

  lemma NoAnchorAfterOptional(n: string, p: nat, rest: Regex, plain: bool, grouped: bool)
    requires Printable(rest, false) && Stands(n, p, rest, plain, AfterOptional, grouped)
    ensures At(n, p) != '^'
  {
    PatternStarts(rest, plain, AfterOptional, grouped);
    StandsAt(n, p, Print(rest, plain, AfterOptional, grouped), grouped, 0);
  }

  /** How the parse goes on after a quantifier. */
  function ParseAfter(n: Needle, p: nat, q: Quantifier, grouped: bool): Parsed
    requires p <= |n|
  {
    if After(q) == AtStart then ParseStart(n, p, grouped) else ParseHere(n, p, grouped)
  }

  /** An item at m whose quantifier ends at p. */
  ghost predicate ItemAt(n: string, m: nat, a: Atom, q: Quantifier, p: nat, grouped: bool) {
    m < p <= |n| && n[m] != '$' && n[m] != '(' && (grouped ==> n[m] != ')') && (q == Optional ==> At(n, p) != '^') &&
    ReadAtom(n, m).AtomAt? && ReadAtom(n, m).atom == a && ReadQuantifier(n, ReadAtom(n, m).next) == (q, p)
  }

  lemma ItemParsed(n: Needle, m: nat, a: Atom, q: Quantifier, p: nat, grouped: bool)
    requires ItemAt(n, m, a, q, p, grouped)
    ensures var rest := ParseAfter(n, p, q, grouped);
            ParseHere(n, m, grouped) == Parsed(Item(a, q, rest.re), rest.end)
  {
  }

  lemma ItemStands(n: string, m: nat, a: Atom, q: Quantifier, rest: Regex, plain: bool, spot: Spot, grouped: bool)
    returns (p: nat)
    requires Printable(Item(a, q, rest), spot == AtStart) && Stands(n, m, Item(a, q, rest), plain, spot, grouped)
    ensures ItemAt(n, m, a, q, p, grouped) && Stands(n, p, rest, plain, After(q), grouped)
    ensures EndOf(m, Print(Item(a, q, rest), plain, spot, grouped), grouped) ==
            EndOf(p, Print(rest, plain, After(q), grouped), grouped)
  {
    var quantifier, tail := PrintQuantifier(q), Print(rest, plain, After(q), grouped);
    var next := AtomStands(n, m, a, plain, spot, grouped, quantifier + tail);
    p := next + |quantifier|;
    QuantifierReads(n, next, q, rest, plain, grouped);
    StandsParts(n, next, quantifier, tail, grouped);
    if q == Optional {
      NoAnchorAfterOptional(n, p, rest, plain, grouped);
    }
    AssembleItem(n, m, a, next, q, p, grouped);
  }

  lemma AssembleItem(n: string, m: nat, a: Atom, next: nat, q: Quantifier, p: nat, grouped: bool)
    requires m < |n| && n[m] != '$' && n[m] != '(' && (grouped ==> n[m] != ')')
    requires ReadAtom(n, m) == AtomAt(a, next) && ReadQuantifier(n, next) == (q, p)
    requires q == Optional ==> At(n, p) != '^'
    ensures ItemAt(n, m, a, q, p, grouped)
  {
  }

  /** The cursor stands at the text of a tree, and the parse gives the tree. */
  ghost predicate ReadsBack(p: Parsed, m: nat, re: Regex, plain: bool, spot: Spot, grouped: bool) {
    p == Parsed(re, Some(EndOf(m, Print(re, plain, spot, grouped), grouped)))
  }

  lemma {:induction false} StartReads(n: Needle, m: nat, re: Regex, plain: bool, grouped: bool)
    requires m <= |n| && Printable(re, true) && Stands(n, m, re, plain, AtStart, grouped)
    ensures ReadsBack(ParseStart(n, m, grouped), m, re, plain, AtStart, grouped)
    decreases |n| - m, 1
  {
    var s := Print(re, plain, AtStart, grouped);
    PatternStarts(re, plain, AtStart, grouped);
    StandsAt(n, m, s, grouped, 0);
    if re.LineStart? {
      StandsParts(n, m, "^", Print(re.rest, plain, Elsewhere, grouped), grouped);
      HereReads(n, m + 1, re.rest, plain, Elsewhere, grouped);
    } else {
      HereReads(n, m, re, plain, AtStart, grouped);
    }
  }

  lemma {:induction false} HereReads(n: Needle, m: nat, re: Regex, plain: bool, spot: Spot, grouped: bool)
    requires m <= |n| && Printable(re, spot == AtStart) && !re.LineStart? && Stands(n, m, re, plain, spot, grouped)
    ensures ReadsBack(ParseHere(n, m, grouped), m, re, plain, spot, grouped)
    decreases |n| - m, 0
  {
    match re
    case Accept => EndReads(n, m, grouped);
    case LineEnd(rest) =>
      DollarStands(n, m, Print(rest, plain, Elsewhere, grouped), grouped);
      HereReads(n, m + 1, rest, plain, Elsewhere, grouped);
      DollarParsed(n, m, grouped);
    case Group(body, rest) => GroupReads(n, m, body, rest, plain, spot, grouped);
    case Item(a, q, rest) => ItemReads(n, m, a, q, rest, plain, spot, grouped);
  }

  lemma EndReads(n: Needle, m: nat, grouped: bool)
    requires m <= |n| && StandsText(n, m, "", grouped)
    ensures ParseHere(n, m, grouped) == Parsed(Accept, Some(EndOf(m, "", grouped)))
  {
    StandsAt(n, m, "", grouped, 0);
  }

  lemma DollarStands(n: string, m: nat, tail: string, grouped: bool)
    requires StandsText(n, m, "$" + tail, grouped)
    ensures m < |n| && n[m] == '$' && StandsText(n, m + 1, tail, grouped)
    ensures EndOf(m, "$" + tail, grouped) == EndOf(m + 1, tail, grouped)
  {
    StandsParts(n, m, "$", tail, grouped);
    HereAt(n, m, "$", 0);
  }

  lemma DollarParsed(n: Needle, m: nat, grouped: bool)
    requires m < |n| && n[m] == '$'
    ensures var p := ParseHere(n, m + 1, grouped); ParseHere(n, m, grouped) == Parsed(LineEnd(p.re), p.end)
  {
  }

  lemma {:induction false} ItemReads(
      n: Needle, m: nat, a: Atom, q: Quantifier, rest: Regex, plain: bool, spot: Spot, grouped: bool)
    requires m <= |n| && Printable(Item(a, q, rest), spot == AtStart)
    requires Stands(n, m, Item(a, q, rest), plain, spot, grouped)
    ensures ReadsBack(ParseHere(n, m, grouped), m, Item(a, q, rest), plain, spot, grouped)
    decreases |n| - m, -1
  {
    var p := ItemStands(n, m, a, q, rest, plain, spot, grouped);
    RestReads(n, p, q, rest, plain, grouped);
    ItemParsed(n, m, a, q, p, grouped);
  }

  lemma {:induction false} RestReads(n: Needle, p: nat, q: Quantifier, rest: Regex, plain: bool, grouped: bool)
    requires p <= |n| && Printable(rest, After(q) == AtStart) && Stands(n, p, rest, plain, After(q), grouped)
    ensures ReadsBack(ParseAfter(n, p, q, grouped), p, rest, plain, After(q), grouped)
    decreases |n| - p, 2
  {
    if After(q) == AtStart {
      StartReads(n, p, rest, plain, grouped);
    } else {
      HereReads(n, p, rest, plain, After(q), grouped);
    }
  }

  /** A group's text, body and rest. */
  lemma GroupStands(n: string, m: nat, b: string, r: string, grouped: bool)
    requires StandsText(n, m, "(" + (b + (")" + r)), grouped)
    ensures m < |n| && n[m] == '(' && StandsText(n, m + 1, b, true) && StandsText(n, EndOf(m + 1, b, true), r, grouped)
    ensures EndOf(m, "(" + (b + (")" + r)), grouped) == EndOf(EndOf(m + 1, b, true), r, grouped)
  {
    StandsParts(n, m, "(", b + (")" + r), grouped);
    HereAt(n, m, "(", 0);
    Concat3(b, ")", r);
    StandsParts(n, m + 1, b + ")", r, grouped);
  }

  lemma GroupParsed(n: Needle, m: nat, grouped: bool, g: Parsed, rest: Parsed)
    requires m < |n| && n[m] == '(' && g == ParseStart(n, m + 1, true) && g.end.Some?
    requires rest == ParseHere(n, g.end.value, grouped)
    ensures ParseHere(n, m, grouped) == Parsed(Group(g.re, rest.re), rest.end)
  {
  }

  lemma {:induction false} GroupReads(
      n: Needle, m: nat, body: Regex, rest: Regex, plain: bool, spot: Spot, grouped: bool)
    requires m <= |n| && Printable(Group(body, rest), spot == AtStart)
    requires Stands(n, m, Group(body, rest), plain, spot, grouped)
    ensures ReadsBack(ParseHere(n, m, grouped), m, Group(body, rest), plain, spot, grouped)
    decreases |n| - m, -1
  {
    var b, r := Print(body, plain, AtStart, true), Print(rest, plain, Elsewhere, grouped);
    var p := EndOf(m + 1, b, true);
    GroupStands(n, m, b, r, grouped);
    StartReads(n, m + 1, body, plain, true);
    HereReads(n, p, rest, plain, Elsewhere, grouped);
    GroupParsed(n, m, grouped, ParseStart(n, m + 1, true), ParseHere(n, p, grouped));
  }

  // ------------------------------------------------------------------------ round trip

  lemma {:induction false} ElementsHaveNoNul(es: seq<Element>, dash: bool, plain: bool)
    requires ElementsPrintable(es, dash)
    ensures '\0' !in PrintElements(es, dash, plain)
  {
    if es != [] {
      ElementsHaveNoNul(es[1..], dash, plain);
    }
  }

  lemma AtomHasNoNul(a: Atom, plain: bool, spot: Spot, grouped: bool, follow: string)
    requires AtomPrintable(a)
    ensures '\0' !in PrintAtom(a, plain, spot, grouped, follow)
  {
    if a.Class? {
      ElementsHaveNoNul(a.bracket.elements, a.bracket.danglingDash, plain);
    }
  }

  lemma {:induction false} PrintHasNoNul(re: Regex, plain: bool, spot: Spot, grouped: bool)
    requires Printable(re, spot == AtStart)
    ensures '\0' !in Print(re, plain, spot, grouped)
  {
    match re
    case Accept =>
    case LineStart(rest) => PrintHasNoNul(rest, plain, Elsewhere, grouped);
    case LineEnd(rest) => PrintHasNoNul(rest, plain, Elsewhere, grouped);
    case Item(a, q, rest) =>
      PrintHasNoNul(rest, plain, After(q), grouped);
      AtomHasNoNul(a, plain, spot, grouped, PrintQuantifier(q) + Print(rest, plain, After(q), grouped));
    case Group(body, rest) =>
      PrintHasNoNul(body, plain, AtStart, true);
      PrintHasNoNul(rest, plain, Elsewhere, grouped);
  }

  /** Patterns are read as they are written: the parse undoes the printer, whether special
      characters are escaped throughout or only where they must be. */
  lemma PrintIsParsed(re: Regex, plain: bool)
    requires Printable(re, true)
    ensures '\0' !in Print(re, plain, AtStart, false) && Parse(Print(re, plain, AtStart, false)) == re
  {
    PrintHasNoNul(re, plain, AtStart, false);
    StartReads(Print(re, plain, AtStart, false), 0, re, plain, false);
  }

  // -------------------------------------------------------------- and nothing else is read

  /** What is read between brackets can be written there. */
  lemma {:induction false} ElementsArePrintable(n: Needle, i: nat, end: nat)
    requires i <= end < |n| && (i < end ==> n[end - 1] != '\\')
    ensures var (es, dash) := ReadElements(n, i, end);
            ElementsPrintable(es, dash) && (es == [] && !dash ==> i == end) &&
            (StartsWith(es, '-') ==> i < end && n[i] == '-') && (StartsWith(es, '^') ==> i < end && n[i] == '^')
    decreases end - i
  {
    if i < end {
      var (c, next) := ReadBracketChar(n, i, end);
      SetCharIs(n, i, end);
      if next < end && n[next] == '-' {
        if next + 1 < end {
          var (hi, next') := ReadBracketChar(n, next + 1, end);
          SetCharIs(n, next + 1, end);
          ElementsArePrintable(n, next', end);
          var (es, dash) := ReadElements(n, next', end);
          assert ([Range(c, hi)] + es)[1..] == es;
        }
      } else {
        ElementsArePrintable(n, next, end);
        var (es, dash) := ReadElements(n, next, end);
        assert ([Single(c)] + es)[1..] == es;
      }
    }
  }

  lemma SetCharIs(n: Needle, i: nat, end: nat)
    requires i < end < |n| && n[end - 1] != '\\'
    ensures var (c, next) := ReadBracketChar(n, i, end);
            c != '\0' && (c == '\\' ==> next < end) && (c == '-' || c == '^' ==> n[i] == c)
  {
    assert n[i] in n && n[i] != '\0';
  }

  lemma SetIsPrintable(n: Needle, i: nat, end: nat)
    requires i <= end < |n| && BracketEnd(n, i) == end
    ensures SetPrintable(ReadBracket(n, i, end))
  {
    BracketEndNotEscaped(n, i);
    ElementsArePrintable(n, if i < end && n[i] == '^' then i + 1 else i, end);
  }

  lemma AtomIsPrintable(n: Needle, m: nat)
    requires m < |n| && ReadAtom(n, m).AtomAt?
    ensures AtomPrintable(ReadAtom(n, m).atom)
  {
    assert n[m] in n && n[m] != '\0';
    if n[m] == '[' {
      SetIsPrintable(n, m + 1, BracketEnd(n, m + 1));
    }
  }

  /** The matcher gives up nowhere in the pattern, nor leaves it. */
  predicate NoDeadEnd(re: Regex) {
    match re
    case Accept => true
    case Reject => false
    case Overrun => false
    case LineStart(rest) => NoDeadEnd(rest)
    case LineEnd(rest) => NoDeadEnd(rest)
    case Item(_, _, rest) => NoDeadEnd(rest)
    case Group(body, rest) => NoDeadEnd(body) && NoDeadEnd(rest)
  }

  lemma {:induction false} StartIsPrintable(n: Needle, m: nat, grouped: bool)
    requires m <= |n| && NoDeadEnd(ParseStart(n, m, grouped).re)
    ensures Printable(ParseStart(n, m, grouped).re, true)
    decreases |n| - m, 1
  {
    HereIsPrintable(n, if At(n, m) == '^' then m + 1 else m, grouped);
    Loosened(ParseHere(n, if At(n, m) == '^' then m + 1 else m, grouped).re);
  }

  lemma Loosened(re: Regex)
    requires Printable(re, false)
    ensures Printable(re, true)
  {
  }

  lemma {:induction false} HereIsPrintable(n: Needle, m: nat, grouped: bool)
    requires m <= |n| && NoDeadEnd(ParseHere(n, m, grouped).re)
    ensures Printable(ParseHere(n, m, grouped).re, false)
    decreases |n| - m, 0
  {
    if m == |n| || (grouped && n[m] == ')') {
    } else if n[m] == '$' {
      HereIsPrintable(n, m + 1, grouped);
    } else if n[m] == '(' {
      var g := ParseStart(n, m + 1, true);
      StartIsPrintable(n, m + 1, true);
      if g.end.Some? {
        HereIsPrintable(n, g.end.value, grouped);
      }
    } else if ReadAtom(n, m).AtomAt? {
      AtomIsPrintable(n, m);
      var (q, p) := ReadQuantifier(n, ReadAtom(n, m).next);
      if After(q) == AtStart {
        StartIsPrintable(n, p, grouped);
      } else {
        HereIsPrintable(n, p, grouped);
      }
    }
  }

  /** A tree without dead ends is that of some pattern if and only if it is printable. */
  lemma PatternsArePrintable(re: Regex)
    requires NoDeadEnd(re)
    ensures Printable(re, true) <==> exists n: Needle :: Parse(n) == re
  {
    if Printable(re, true) {
      PrintIsParsed(re, false);
      var n: Needle := Print(re, false, AtStart, false);
      assert Parse(n) == re;
    }
    if n: Needle :| Parse(n) == re {
      StartIsPrintable(n, 0, false);
    }
  }

  // --------------------------------------------------------------- brackets and groups left open

  /** Every way through the tree ends where the matcher gives up. */
  predicate Hopeless(re: Regex) {
    match re
    case Accept => false
    case Reject => true
    case Overrun => true
    case LineStart(rest) => Hopeless(rest)
    case LineEnd(rest) => Hopeless(rest)
    case Item(_, _, rest) => Hopeless(rest)
    case Group(body, rest) => Hopeless(body) || Hopeless(rest)
  }

  lemma {:induction false} HopelessMatchesNothing(re: Regex, t: string, mode: bool, i: nat, j: nat)
    requires Hopeless(re)
    ensures !Matches(re, t, mode, i, j)
  {
    match re
    case Reject =>
    case Overrun =>
    case LineStart(rest) => HopelessMatchesNothing(rest, t, mode, i, j);
    case LineEnd(rest) => HopelessMatchesNothing(rest, t, mode, i, j);
    case Item(_, _, rest) =>
      forall n: nat | i <= n <= j ensures !Matches(rest, t, mode, n, j) {
        HopelessMatchesNothing(rest, t, mode, n, j);
      }
    case Group(body, rest) =>
      forall n: nat | i <= n <= j ensures !Matches(body, t, mode, i, n) || !Matches(rest, t, mode, n, j) {
        if Hopeless(body) {
          HopelessMatchesNothing(body, t, mode, i, n);
        } else {
          HopelessMatchesNothing(rest, t, mode, n, j);
        }
      }
  }

  lemma {:induction false} NoClosingBracket(n: string, i: nat)
    requires i <= |n| && ']' !in n[i..]
    ensures BracketEnd(n, i) == |n|
    decreases |n| - i
  {
    if i < |n| {
      assert n[i] in n[i..];
      assert n[i + 1..] == n[i..][1..];
      if i + 1 < |n| {
        assert n[i + 1] in n[i..];
      }
      NoClosingBracket(n, i + 1);
    }
  }

  /** A bracket that is not closed ends the search. */
  lemma OpenBracketFails(n: Needle, m: nat, grouped: bool)
    requires m < |n| && n[m] == '[' && ']' !in n[m..]
    ensures ParseHere(n, m, grouped) == Parsed(Reject, None)
  {
    assert n[m + 1..] == n[m..][1..];
    NoClosingBracket(n, m + 1);
  }

  lemma {:induction false} OpenStart(n: Needle, m: nat)
    requires m <= |n| && ')' !in n[m..]
    ensures ParseStart(n, m, true).end.None? && Hopeless(ParseStart(n, m, true).re)
    decreases |n| - m, 1
  {
    Further(n, m, if At(n, m) == '^' then m + 1 else m);
    OpenHere(n, if At(n, m) == '^' then m + 1 else m);
  }

  lemma Further(n: string, m: nat, p: nat)
    requires m <= p <= |n| && ')' !in n[m..]
    ensures ')' !in n[p..]
  {
    assert n[p..] == n[m..][p - m..];
  }

  lemma {:induction false} OpenHere(n: Needle, m: nat)
    requires m <= |n| && ')' !in n[m..]
    ensures ParseHere(n, m, true).end.None? && Hopeless(ParseHere(n, m, true).re)
    decreases |n| - m, 0
  {
    if m < |n| {
      assert n[m] in n[m..];
      if n[m] == '$' {
        Further(n, m, m + 1);
        OpenHere(n, m + 1);
      } else if n[m] == '(' {
        Further(n, m, m + 1);
        OpenStart(n, m + 1);
      } else if ReadAtom(n, m).AtomAt? {
        var p := ReadQuantifier(n, ReadAtom(n, m).next).1;
        Further(n, m, p);
        OpenHere(n, p);
        OpenStart(n, p);
      }
    }
  }

  /** A group that is not closed matches nothing, and neither does what contains it. */
  lemma OpenGroupFails(n: Needle, m: nat, grouped: bool, t: string, mode: bool, i: nat, j: nat)
    requires m < |n| && n[m] == '(' && ')' !in n[m..]
    ensures !Matches(ParseHere(n, m, grouped).re, t, mode, i, j)
  {
    Further(n, m, m + 1);
    OpenStart(n, m + 1);
    HopelessMatchesNothing(ParseHere(n, m, grouped).re, t, mode, i, j);
  }

  // ------------------------------------------------------------------ what patterns match

  lemma LiteralPattern(c: char, q: Quantifier, n: Needle)
    requires c != '\0' && c != '\t' && c !in SPECIAL && n == [c] + PrintQuantifier(q)
    ensures Parse(n) == Item(Literal(c), q, Accept)
  {
    var re := Item(Literal(c), q, Accept);
    assert Print(re, false, AtStart, false) == [c] + (PrintQuantifier(q) + "");
    assert PrintQuantifier(q) + "" == PrintQuantifier(q);
    PrintIsParsed(re, false);
  }

  /** The line t consists of the character c. */
  predicate Only(t: string, c: char) {
    forall i :: 0 <= i < |t| ==> t[i] == c
  }

  lemma ItemMatchesWhole(c: char, q: Quantifier, t: string)
    ensures Matches(Item(Literal(c), q, Accept), t, false, 0, |t|) <==> Only(t, c) && Repeats(q, |t|)
  {
    if Only(t, c) && Repeats(q, |t|) {
      assert AllFit(Literal(c), t, false, 0, |t|) && Matches(Accept, t, false, |t|, |t|);
    }
  }

  lemma CountsMean(c: char, q: Quantifier, t: string)
    ensures Only(t, c) && Repeats(q, |t|) <==>
            match q
            case Once => t == [c]
            case Optional => t == "" || t == [c]
            case OneOrMore => t != "" && Only(t, c)
            case ZeroOrMore => Only(t, c)
  {
  }

  /** What a character matches alone, with `\?`, with `\+` and with `*`. */
  lemma QuantifierMeans(c: char, q: Quantifier, t: string, n: Needle)
    requires c != '\0' && c != '\t' && c !in SPECIAL && n == [c] + PrintQuantifier(q)
    ensures Matches(Parse(n), t, false, 0, |t|) <==>
            match q
            case Once => t == [c]
            case Optional => t == "" || t == [c]
            case OneOrMore => t != "" && Only(t, c)
            case ZeroOrMore => Only(t, c)
  {
    LiteralPattern(c, q, n);
    ItemMatchesWhole(c, q, t);
    CountsMean(c, q, t);
  }

  /** '^' matches at the start of the line, '$' at its end, '.' any one character. */
  lemma MarkersMean(t: string, mode: bool, i: nat, j: nat)
    ensures Matches(Parse("^"), t, mode, i, j) <==> i == j == 0
    ensures Matches(Parse("$"), t, mode, i, j) <==> i == j == |t|
    ensures Matches(Parse("."), t, mode, i, j) <==> j == i + 1 <= |t|
  {
    PrintIsParsed(LineStart(Accept), false);
    PrintIsParsed(LineEnd(Accept), false);
    PrintIsParsed(Item(AnyChar, Once, Accept), false);
    assert Print(LineStart(Accept), false, AtStart, false) == "^";
    assert Print(LineEnd(Accept), false, AtStart, false) == "$";
    assert Print(Item(AnyChar, Once, Accept), false, AtStart, false) == ".";
    DotMatches(t, mode, i, j);
  }

  lemma DotMatches(t: string, mode: bool, i: nat, j: nat)
    ensures Matches(Item(AnyChar, Once, Accept), t, mode, i, j) <==> j == i + 1 <= |t|
  {
    if j == i + 1 <= |t| {
      assert AllFit(AnyChar, t, mode, i, j) && Matches(Accept, t, mode, j, j);
    }
  }
}
