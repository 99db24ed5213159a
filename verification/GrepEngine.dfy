/**
  The matcher of grep as it is written: cursors over the raw pattern and line,
  recursion after a quantifier and into a group (apps/grep.c:86-227).
 */
module GrepEngine {
  import opened Basics
  import opened GrepSyntax
  import opened GrepSemantics

  /** The scan of the bracket body n[i..end]. */
  function Scan(n: string, i: nat, end: nat, good: bool, c: char, mode: bool): bool
    requires i <= end <= |n|
    decreases end - i
  {
    if i == end then !good
    else
      var (x, next) := ReadBracketChar(n, i, end);
      if next < end && n[next] == '-' then
        next + 1 < end &&
        var (y, next') := ReadBracketChar(n, next + 1, end);
        if ElementAccepts(Range(x, y), c, mode) then good else Scan(n, next', end, good, c, mode)
      else if ElementAccepts(Single(x), c, mode) then good
      else Scan(n, next, end, good, c, mode)
  }

  lemma AcceptsCons(e: Element, es: seq<Element>, dash: bool, negated: bool, c: char, mode: bool)
    ensures BracketAccepts(Bracket(negated, [e] + es, dash), c, mode) ==
            if ElementAccepts(e, c, mode) then !negated else BracketAccepts(Bracket(negated, es, dash), c, mode)
  {
    var all := [e] + es;
    assert e == all[0] && e in all;
    assert forall x :: x in es ==> x in all;
    assert forall x :: x in all ==> x == e || x in es;
  }

  /** The scan decides membership in the set that the body denotes. */
  lemma {:induction false} ScanDecides(n: string, i: nat, end: nat, good: bool, c: char, mode: bool)
    requires i <= end <= |n|
    ensures var (es, dash) := ReadElements(n, i, end);
            Scan(n, i, end, good, c, mode) == BracketAccepts(Bracket(!good, es, dash), c, mode)
    decreases end - i
  {
    if i < end {
      var (x, next) := ReadBracketChar(n, i, end);
      if next < end && n[next] == '-' {
        if next + 1 < end {
          var (y, next') := ReadBracketChar(n, next + 1, end);
          var (es, dash) := ReadElements(n, next', end);
          AcceptsCons(Range(x, y), es, dash, !good, c, mode);
          ScanDecides(n, next', end, good, c, mode);
        }
      } else {
        var (es, dash) := ReadElements(n, next, end);
        AcceptsCons(Single(x), es, dash, !good, c, mode);
        ScanDecides(n, next, end, good, c, mode);
      }
    }
  }

  /** One character of a bracket body, escapes resolved (apps/grep.c:93-98, 103-108). */
  method SquareChar(needle: string, end: nat, t: nat) returns (c: char, t': nat)
    requires t < end < |needle| && needle[end - 1] != '\\'
    ensures t < t' <= end && (c, t') == ReadBracketChar(needle, t, end)
  {
    c, t' := needle[t], t + 1;
    if c == '\\' && (needle[t'] == '\\' || needle[t'] == ']') {
      c, t' := needle[t'], t' + 1;
    } else if c == '\\' && needle[t'] == 't' {
      c, t' := '\t', t' + 1;
    }
  }

  /** The loop of `match_squares`: the cursor `t` stays at or before `end`. */
  method ScanElements(needle: string, t0: nat, end: nat, good: bool, c: char, mode: bool) returns (r: bool)
    requires t0 <= end < |needle| && needle[end] == ']' && (t0 < end ==> needle[end - 1] != '\\')
    ensures r == Scan(needle, t0, end, good, c, mode)
  {
    var t := t0;
    while t != end
      invariant t0 <= t <= end
      invariant Scan(needle, t, end, good, c, mode) == Scan(needle, t0, end, good, c, mode)
      decreases end - t
    {
      var test, right;
      test, t := SquareChar(needle, end, t);
      if needle[t] == '-' {
        t := t + 1;
        if t == end {
          return false;
        }
        right, t := SquareChar(needle, end, t);
        if Compare(c, test, mode, AtLeast) && Compare(c, right, mode, AtMost) {
          return good;
        }
      } else {
        if Compare(c, test, mode, Equal) {
          return good;
        }
      }
    }
    return !good;
  }

  /** `match_squares`: membership in the bracket expression needle[start..end]. */
  method MatchSquares(needle: Needle, start: nat, end: nat, c: char, mode: bool) returns (r: bool)
    requires start <= end < |needle| && BracketEnd(needle, start) == end
    ensures r == BracketAccepts(ReadBracket(needle, start, end), c, mode)
  {
    BracketEndNotEscaped(needle, start);
    var t, good := start, true;
    if needle[t] == '^' {
      t, good := t + 1, false;
    }
    r := ScanElements(needle, t, end, good, c, mode);
    ScanDecides(needle, t, end, good, c, mode);
  }

  /** `struct MatchQualifier`: how the current atom tests a character. */
  datatype Matcher = MatchChar(c: char) | MatchDot | MatchClass(start: nat, end: nat)

  ghost predicate MatcherFor(m: Matcher, needle: Needle, a: Atom) {
    match m
    case MatchChar(c) => a == Literal(c)
    case MatchDot => a == AnyChar
    case MatchClass(start, end) =>
      start <= end < |needle| && BracketEnd(needle, start) == end && a == Class(ReadBracket(needle, start, end))
  }

  method Test(m: Matcher, needle: Needle, ghost a: Atom, c: char, mode: bool) returns (r: bool)
    requires MatcherFor(m, needle, a)
    ensures r == Fits(a, c, mode)
  {
    match m
    case MatchChar(x) => r := Compare(x, c, mode, Equal);
    case MatchDot => r := true;
    case MatchClass(start, end) => r := MatchSquares(needle, start, end, c, mode);
  }

  /** The scan for the closing ']'. */
  method ScanBracket(needle: Needle, s: nat) returns (e: nat)
    requires s <= |needle|
    ensures e == BracketEnd(needle, s)
  {
    e := s;
    while At(needle, e) != '\0' && At(needle, e) != ']'
      invariant s <= e <= |needle|
      invariant BracketEnd(needle, e) == BracketEnd(needle, s)
      decreases |needle| - e
    {
      if At(needle, e) == '\\' && At(needle, e + 1) == ']' {
        e := e + 1;
      }
      e := e + 1;
    }
  }

  /** The repetition scan: a greedy run from k, one past the line when it reaches its end. */
  method ScanRepetitions(m: Matcher, needle: Needle, ghost a: Atom, text: string, actual: nat, mode: bool, k: nat)
    returns (j: nat)
    requires actual < |text| && k <= actual + 1 && MatcherFor(m, needle, a)
    ensures k <= actual ==> var e := Extent(a, text[..actual], mode, k);
                            j == if e == actual then actual + 1 else e
    ensures k == actual + 1 ==> j == k
  {
    ghost var t := text[..actual];
    j := k;
    while j < actual + 1
      invariant k <= j <= actual + 1
      invariant j <= actual ==> Extent(a, t, mode, j) == Extent(a, t, mode, k)
      invariant k <= actual && j == actual + 1 ==> Extent(a, t, mode, k) == actual
    {
      if j < actual {
        var fits := Test(m, needle, a, text[j], mode);
        if !fits {
          break;
        }
      }
      j := j + 1;
    }
  }

  /** The first success of the downward repetition loop is that of the search. */
  lemma LastRun(rest: Regex, t: string, mode: bool, k: nat, hi: nat, n: nat)
    requires k <= n <= hi && Run(rest, t, mode, n).Some?
    requires forall p :: n < p <= hi ==> Run(rest, t, mode, p).None?
    ensures RunFrom(rest, t, mode, k, hi) == Run(rest, t, mode, n)
  {
    var last := RunFromFindsLast(rest, t, mode, k, hi);
    assert !(last < n) && !(n < last);
  }

  lemma NoRun(rest: Regex, t: string, mode: bool, k: nat, hi: nat)
    requires k <= hi
    requires forall p :: k <= p <= hi ==> Run(rest, t, mode, p).None?
    ensures RunFrom(rest, t, mode, k, hi).None?
  {
    var last := RunFromFindsLast(rest, t, mode, k, hi);
  }

  /** The atom at a cursor (apps/grep.c:153-185, groups aside); fails on an open bracket. */
  method ReadMatcher(needle: Needle, m: nat) returns (ok: bool, matcher: Matcher, next: nat)
    requires m < |needle| && !ReadAtom(needle, m).PastEnd?
    ensures ok == ReadAtom(needle, m).AtomAt?
    ensures ok ==> next == ReadAtom(needle, m).next && MatcherFor(matcher, needle, ReadAtom(needle, m).atom)
  {
    ok, matcher, next := true, MatchChar(needle[m]), m + 1;
    if needle[m] == '.' {
      matcher := MatchDot;
    } else if needle[m] == '\\' && needle[m + 1] in ESCAPABLE {
      matcher, next := MatchChar(needle[m + 1]), m + 2;
    } else if needle[m] == '\\' && needle[m + 1] == 't' {
      matcher, next := MatchChar('\t'), m + 2;
    } else if needle[m] == '[' {
      var e := ScanBracket(needle, m + 1);
      if e == |needle| {
        ok := false;
      } else {
        matcher, next := MatchClass(m + 1, e), e + 1;
      }
    }
  }

  /** The `*` and `\+` branch after the optional first character (apps/grep.c:207-220):
      as many repetitions as there are, then one fewer at a time. */
  method MatchRepeated(matcher: Matcher, ghost a: Atom, text: string, actual: nat, k: nat, needle: Needle, m: nat,
                       mode: bool, grouped: bool)
    returns (ok: bool, end: nat, needleout: nat)
    requires actual < |text| && k <= actual + 1 && m <= |needle| && MatcherFor(matcher, needle, a)
    requires Defined(ParseStart(needle, m, grouped).re)
    ensures var r := Repeated(a, ParseStart(needle, m, grouped).re, text[..actual], k, mode);
            ok == r.Some? && (ok ==> end == r.value)
    ensures ok && grouped ==> ParseStart(needle, m, grouped).end == Some(needleout)
    decreases |needle| - m, 4
  {
    ghost var t := text[..actual];
    ghost var rest := ParseStart(needle, m, grouped).re;
    ok, end, needleout := false, 0, 0;
    var last := ScanRepetitions(matcher, needle, a, text, actual, mode, k);
    var n: int := last;
    while n >= k
      invariant k - 1 <= n <= last
      invariant forall p: nat :: n < p <= last ==> Run(rest, t, mode, p).None?
    {
      var ok', len', out := RegexMatches(text, actual, n, needle, m, mode, grouped);
      if ok' {
        LastRun(rest, t, mode, k, Extent(a, t, mode, k), n);
        return true, len' + n, out;
      }
      n := n - 1;
    }
    if k <= actual {
      NoRun(rest, t, mode, k, Extent(a, t, mode, k));
    }
  }

  /** How a turn of the matcher's loop ends: go on, or return. */
  datatype Turn = Continue(k: nat, p: nat) | Found(end: nat, needleout: nat) | Fail

  /** A turn at (p, k) leaves the outcome of the search as it was. */
  ghost predicate TurnOk(turn: Turn, needle: Needle, p: nat, t: string, k: nat, mode: bool, grouped: bool)
    requires p <= |needle|
  {
    var here := ParseHere(needle, p, grouped);
    var r := Run(here.re, t, mode, k);
    match turn
    case Fail => r.None?
    case Found(end, out) => r == Some(end) && (grouped ==> here.end == Some(out))
    case Continue(k', p') =>
      p < p' <= |needle| && k <= k' <= |t| + 1 &&
      var there := ParseHere(needle, p', grouped);
      Defined(there.re) && there.end == here.end && Run(there.re, t, mode, k') == r
  }

  ghost predicate AtItem(needle: Needle, p: nat, grouped: bool) {
    p < |needle| && needle[p] != '$' && needle[p] != '(' && !(grouped && needle[p] == ')') &&
    Defined(ParseHere(needle, p, grouped).re)
  }

  /** An unquantified atom: `fits` is arbitrary at the sentinel. */
  lemma TurnOnce(needle: Needle, m: nat, t: string, k: nat, mode: bool, grouped: bool, fits: bool)
    requires AtItem(needle, m, grouped) && k <= |t| && ReadAtom(needle, m).AtomAt?
    requires ReadQuantifier(needle, ReadAtom(needle, m).next).0 == Once
    requires k < |t| ==> fits == Fits(ReadAtom(needle, m).atom, t[k], mode)
    ensures TurnOk(if fits then Continue(k + 1, ReadAtom(needle, m).next) else Fail, needle, m, t, k, mode, grouped)
  {
    var AtomAt(a, p) := ReadAtom(needle, m);
    var rest := ParseHere(needle, p, grouped);
    assert ParseHere(needle, m, grouped) == Parsed(Item(a, Once, rest.re), rest.end);
  }

  ghost predicate OptionalTaken(
      turn: Turn, a: Atom, needle: Needle, p: nat, t: string, k: nat, mode: bool, grouped: bool)
    requires p <= |needle| && k <= |t|
  {
    var here := ParseHere(needle, p, grouped);
    var r := if k < |t| && Fits(a, t[k], mode) && At(needle, p) != '^' then Run(here.re, t, mode, k + 1) else None;
    (turn == Continue(k, p) && r.None?) ||
    (turn.Found? && r == Some(turn.end) && (grouped ==> here.end == Some(turn.needleout)))
  }

  lemma TurnOptional(needle: Needle, m: nat, t: string, k: nat, mode: bool, grouped: bool, turn: Turn)
    requires AtItem(needle, m, grouped) && k <= |t| && ReadAtom(needle, m).AtomAt?
    requires ReadQuantifier(needle, ReadAtom(needle, m).next).0 == Optional
    requires OptionalTaken(turn, ReadAtom(needle, m).atom, needle, ReadAtom(needle, m).next + 2, t, k, mode, grouped)
    ensures Defined(ParseHere(needle, ReadAtom(needle, m).next + 2, grouped).re)
    ensures TurnOk(turn, needle, m, t, k, mode, grouped)
  {
    var AtomAt(a, p) := ReadAtom(needle, m);
    var rest := ParseHere(needle, p + 2, grouped);
    if At(needle, p + 2) == '^' {
      assert ParseHere(needle, m, grouped) == rest;
    } else {
      assert ParseHere(needle, m, grouped) == Parsed(Item(a, Optional, rest.re), rest.end);
    }
  }

  /** What is left of a `*` or `\+` item once its obligatory character is taken. */
  function Repeated(a: Atom, re: Regex, t: string, k: nat, mode: bool): Option<nat> {
    if k > |t| then None else RunFrom(re, t, mode, k, Extent(a, t, mode, k))
  }

  lemma TurnRepeated(needle: Needle, m: nat, t: string, k: nat, mode: bool, grouped: bool, fits: bool)
    requires AtItem(needle, m, grouped) && k <= |t| && ReadAtom(needle, m).AtomAt?
    requires ReadQuantifier(needle, ReadAtom(needle, m).next).0 in {OneOrMore, ZeroOrMore}
    requires k < |t| ==> fits == Fits(ReadAtom(needle, m).atom, t[k], mode)
    ensures var AtomAt(a, next) := ReadAtom(needle, m);
            var (q, p) := ReadQuantifier(needle, next);
            var rest := ParseStart(needle, p, grouped);
            var here := ParseHere(needle, m, grouped);
            Defined(rest.re) && here.end == rest.end &&
            Run(here.re, t, mode, k) ==
              if q == ZeroOrMore then Repeated(a, rest.re, t, k, mode)
              else if fits then Repeated(a, rest.re, t, k + 1, mode) else None
  {
    var AtomAt(a, next) := ReadAtom(needle, m);
    var (q, p) := ReadQuantifier(needle, next);
    var rest := ParseStart(needle, p, grouped);
    assert ParseHere(needle, m, grouped) == Parsed(Item(a, q, rest.re), rest.end);
  }

  lemma TurnUnterminated(needle: Needle, m: nat, t: string, k: nat, mode: bool, grouped: bool)
    requires AtItem(needle, m, grouped)
    ensures !ReadAtom(needle, m).PastEnd?
    ensures ReadAtom(needle, m).Unterminated? ==> TurnOk(Fail, needle, m, t, k, mode, grouped)
  {
  }

  /** The `\?` branch (apps/grep.c:186-196); p is after the quantifier. */
  method MatchOptional(matcher: Matcher, ghost a: Atom, text: string, actual: nat, k: nat, needle: Needle, p: nat,
                       mode: bool, grouped: bool)
    returns (turn: Turn)
    requires actual < |text| && k <= actual && p <= |needle| && MatcherFor(matcher, needle, a)
    requires Defined(ParseHere(needle, p, grouped).re)
    ensures OptionalTaken(turn, a, needle, p, text[..actual], k, mode, grouped)
    decreases |needle| - p, 4
  {
    turn := Continue(k, p);
    var fits := Test(matcher, needle, a, text[k], mode);
    if fits {
      var ok, len, out := RegexMatches(text, actual, k + 1, needle, p, mode, grouped);
      if ok {
        turn := Found(len + k + 1, out);
      }
    }
  }

  /** The `*` and `\+` branch (apps/grep.c:197-220); p is at the quantifier. */
  method MatchRepeatedItem(matcher: Matcher, text: string, actual: nat, k: nat, needle: Needle, ghost m: nat, p: nat,
                           mode: bool, grouped: bool)
    returns (turn: Turn)
    requires actual < |text| && k <= actual && AtItem(needle, m, grouped)
    requires ReadAtom(needle, m).AtomAt? && ReadAtom(needle, m).next == p
    requires MatcherFor(matcher, needle, ReadAtom(needle, m).atom)
    requires ReadQuantifier(needle, p).0 in {OneOrMore, ZeroOrMore}
    ensures TurnOk(turn, needle, m, text[..actual], k, mode, grouped)
    decreases |needle| - p, 5
  {
    ghost var t := text[..actual];
    ghost var a := ReadAtom(needle, m).atom;
    var fits, k', p' := true, k, p + 1;
    if At(needle, p) == '\\' {
      fits := Test(matcher, needle, a, text[k], mode);
      k', p' := k + 1, p + 2;
    }
    TurnRepeated(needle, m, t, k, mode, grouped,
                 if At(needle, p) == '\\' then fits else k < |t| && Fits(a, t[k], mode));
    if !fits {
      return Fail;
    }
    var ok, end, out := MatchRepeated(matcher, a, text, actual, k', needle, p', mode, grouped);
    turn := if ok then Found(end, out) else Fail;
  }

  /** One atom with its quantifier (apps/grep.c:153-224, groups aside). */
  method MatchItem(text: string, actual: nat, k: nat, needle: Needle, m: nat, mode: bool, grouped: bool)
    returns (turn: Turn)
    requires actual < |text| && k <= actual && AtItem(needle, m, grouped)
    ensures TurnOk(turn, needle, m, text[..actual], k, mode, grouped)
    decreases |needle| - m, 1
  {
    ghost var t := text[..actual];
    TurnUnterminated(needle, m, t, k, mode, grouped);
    var known, matcher, p := ReadMatcher(needle, m);
    if !known {
      return Fail;
    }
    ghost var a := ReadAtom(needle, m).atom;
    if At(needle, p) == '\\' && At(needle, p + 1) == '?' {
      turn := MatchOptional(matcher, a, text, actual, k, needle, p + 2, mode, grouped);
      TurnOptional(needle, m, t, k, mode, grouped, turn);
    } else if (At(needle, p) == '\\' && At(needle, p + 1) == '+') || At(needle, p) == '*' {
      turn := MatchRepeatedItem(matcher, text, actual, k, needle, m, p, mode, grouped);
    } else {
      var fits := Test(matcher, needle, a, text[k], mode);
      TurnOnce(needle, m, t, k, mode, grouped, fits);
      turn := if fits then Continue(k + 1, p) else Fail;
    }
  }

  lemma GroupDefined(needle: Needle, m: nat, grouped: bool)
    requires m < |needle| && needle[m] == '(' && Defined(ParseHere(needle, m, grouped).re)
    ensures Defined(ParseStart(needle, m + 1, true).re)
  {
  }

  /** A group: what follows it is searched from where the group's own search stopped. */
  lemma TurnGroup(needle: Needle, m: nat, t: string, k: nat, mode: bool, grouped: bool, ok: bool, end: nat, out: nat)
    requires m < |needle| && needle[m] == '(' && k <= |t| && Defined(ParseHere(needle, m, grouped).re)
    requires var r := Run(ParseStart(needle, m + 1, true).re, t, mode, k); ok == r.Some? && (ok ==> end == r.value)
    requires ok ==> ParseStart(needle, m + 1, true).end == Some(out)
    ensures TurnOk(if ok then Continue(end, out) else Fail, needle, m, t, k, mode, grouped)
  {
  }

  /** The end of the pattern or group, and the `$` anchor. */
  lemma TurnMarker(needle: Needle, m: nat, t: string, k: nat, mode: bool, grouped: bool)
    requires m <= |needle| && k <= |t| && Defined(ParseHere(needle, m, grouped).re)
    ensures grouped && At(needle, m) == ')' ==> TurnOk(Found(k, m + 1), needle, m, t, k, mode, grouped)
    ensures m == |needle| ==> TurnOk(if grouped then Fail else Found(k, 0), needle, m, t, k, mode, grouped)
    ensures At(needle, m) == '$' ==>
              TurnOk(if k == |t| then Continue(k, m + 1) else Fail, needle, m, t, k, mode, grouped)
  {
  }

  /** The ')', '\0' and '$' cases (apps/grep.c:137-151). */
  method MatchMarker(text: string, actual: nat, k: nat, needle: Needle, m: nat, ghost mode: bool, grouped: bool)
    returns (turn: Turn)
    requires actual < |text| && k <= actual && m <= |needle| && Defined(ParseHere(needle, m, grouped).re)
    requires m == |needle| || needle[m] == '$' || (grouped && needle[m] == ')')
    ensures TurnOk(turn, needle, m, text[..actual], k, mode, grouped)
  {
    TurnMarker(needle, m, text[..actual], k, mode, grouped);
    if grouped && At(needle, m) == ')' {
      return Found(k, m + 1);
    }
    if At(needle, m) == '\0' {
      if grouped {
        return Fail;
      }
      return Found(k, 0);
    }
    if k != actual {
      return Fail;
    }
    return Continue(k, m + 1);
  }

  /** The '(' case (apps/grep.c:175-182). */
  method MatchGroup(text: string, actual: nat, k: nat, needle: Needle, m: nat, mode: bool, grouped: bool)
    returns (turn: Turn)
    requires actual < |text| && k <= actual && m < |needle| && needle[m] == '('
    requires Defined(ParseHere(needle, m, grouped).re)
    ensures TurnOk(turn, needle, m, text[..actual], k, mode, grouped)
    decreases |needle| - m, 1
  {
    GroupDefined(needle, m, grouped);
    var ok, len, out := RegexMatches(text, actual, k, needle, m + 1, mode, true);
    TurnGroup(needle, m, text[..actual], k, mode, grouped, ok, k + len, out);
    turn := if ok then Continue(k + len, out) else Fail;
  }

  /** One turn of the loop of `regex_matches` (apps/grep.c:137-224). */
  method TakeTurn(text: string, actual: nat, k: nat, needle: Needle, m: nat, mode: bool, grouped: bool)
    returns (turn: Turn)
    requires actual < |text| && k <= actual && m <= |needle| && Defined(ParseHere(needle, m, grouped).re)
    ensures TurnOk(turn, needle, m, text[..actual], k, mode, grouped)
    decreases |needle| - m, 2
  {
    if m == |needle| || needle[m] == '$' || (grouped && needle[m] == ')') {
      turn := MatchMarker(text, actual, k, needle, m, mode, grouped);
    } else if needle[m] == '(' {
      turn := MatchGroup(text, actual, k, needle, m, mode, grouped);
    } else {
      turn := MatchItem(text, actual, k, needle, m, mode, grouped);
    }
  }

  /** `regex_matches`: search the pattern needle[m..] from index j of the line. The
      result is that of the search over the parsed pattern on text[..actual] alone,
      although the sentinel text[actual] is read as well. `grouped` stands for a
      non-NULL needleout. */
  method RegexMatches(text: string, actual: nat, j: nat, needle: Needle, m: nat, mode: bool, grouped: bool)
    returns (ok: bool, len: nat, needleout: nat)
    requires actual < |text| && j <= actual + 1 && m <= |needle|
    requires (At(needle, m) == '^' && j != 0) || Defined(ParseStart(needle, m, grouped).re)
    ensures var r := Run(ParseStart(needle, m, grouped).re, text[..actual], mode, j);
            ok == r.Some? && (ok ==> j + len == r.value <= actual)
    ensures ok && grouped ==> ParseStart(needle, m, grouped).end == Some(needleout)
    decreases |needle| - m, 3
  {
    ghost var start := ParseStart(needle, m, grouped);
    ghost var result := Run(start.re, text[..actual], mode, j);
    var k, p := j, m;
    if At(needle, p) == '^' {
      if j != 0 {
        return false, 0, 0;
      }
      p := p + 1;
    }
    while k < actual + 1
      invariant m <= p <= |needle| && j <= k <= actual + 1
      invariant Defined(ParseHere(needle, p, grouped).re)
      invariant ParseHere(needle, p, grouped).end == start.end
      invariant Run(ParseHere(needle, p, grouped).re, text[..actual], mode, k) == result
      decreases |needle| - p
    {
      var turn := TakeTurn(text, actual, k, needle, p, mode, grouped);
      match turn
      case Fail => break;
      case Found(end, out) => return true, end - j, out;
      case Continue(k', p') => k, p := k', p';
    }
    return false, 0, 0;
  }
}
