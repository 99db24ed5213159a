/**
  What a grep pattern means, apart from how it is searched for, and what the
  depth-first search of `regex_matches` (apps/grep.c:129-227) makes of it.
 */
module GrepSemantics {
  import opened Basics
  import opened GrepSyntax

  predicate Fits(a: Atom, c: char, ignoreCase: bool) {
    match a
    case Literal(x) => Compare(x, c, ignoreCase, Equal)
    case AnyChar => true
    case Class(b) => BracketAccepts(b, c, ignoreCase)
  }

  /** With -i a letter fits in either case. */
  lemma LiteralIgnoresCase(x: char, c: char)
    ensures Fits(Literal(x), c, true) <==> SameLetter(x, c)
  {
    CaseIsIgnored(x, c);
  }

  /** Every character of t[i..n] fits the atom. */
  predicate AllFit(a: Atom, t: string, ignoreCase: bool, i: nat, n: nat)
    requires n <= |t|
  {
    forall p :: i <= p < n ==> Fits(a, t[p], ignoreCase)
  }

  /** Declarative matching: t[i..j] is in the language of `re`, at that place of the line. */
  ghost predicate Matches(re: Regex, t: string, ignoreCase: bool, i: nat, j: nat)
    decreases re
  {
    i <= j <= |t| &&
    match re
    case Accept => i == j
    case Reject => false
    case Overrun => false
    case LineStart(rest) => i == 0 && Matches(rest, t, ignoreCase, i, j)
    case LineEnd(rest) => i == |t| && Matches(rest, t, ignoreCase, i, j)
    case Item(a, q, rest) =>
      exists n :: i <= n <= j && Repeats(q, n - i) && AllFit(a, t, ignoreCase, i, n) &&
                  Matches(rest, t, ignoreCase, n, j)
    case Group(body, rest) =>
      exists n :: i <= n <= j && Matches(body, t, ignoreCase, i, n) && Matches(rest, t, ignoreCase, n, j)
  }

  /** The repetition counts a quantifier allows. */
  predicate Repeats(q: Quantifier, count: nat) {
    match q
    case Once => count == 1
    case Optional => count <= 1
    case OneOrMore => count >= 1
    case ZeroOrMore => true
  }

  // ---------------------------------------------------------------- the search

  /** The largest n such that every character of t[i..n] fits. */
  function Extent(a: Atom, t: string, ignoreCase: bool, i: nat): (n: nat)
    requires i <= |t|
    ensures i <= n <= |t| && AllFit(a, t, ignoreCase, i, n)
    ensures n < |t| ==> !Fits(a, t[n], ignoreCase)
    decreases |t| - i
  {
    if i < |t| && Fits(a, t[i], ignoreCase) then Extent(a, t, ignoreCase, i + 1) else i
  }

  /** Where the search stops when started at i, if it succeeds. A group keeps the
      first way its body matched. */
  function Run(re: Regex, t: string, ignoreCase: bool, i: nat): (r: Option<nat>)
    ensures r.Some? ==> i <= r.value <= |t|
    decreases re, 0
  {
    if i > |t| then None
    else
      match re
      case Accept => Some(i)
      case Reject => None
      case Overrun => None
      case LineStart(rest) => if i == 0 then Run(rest, t, ignoreCase, i) else None
      case LineEnd(rest) => if i == |t| then Run(rest, t, ignoreCase, i) else None
      case Group(body, rest) =>
        var r := Run(body, t, ignoreCase, i);
        if r.Some? then Run(rest, t, ignoreCase, r.value) else None
      case Item(a, q, rest) =>
        var here := i < |t| && Fits(a, t[i], ignoreCase);
        match q
        case Once => if here then Run(rest, t, ignoreCase, i + 1) else None
        case Optional =>
          var r := if here then Run(rest, t, ignoreCase, i + 1) else None;
          if r.Some? then r else Run(rest, t, ignoreCase, i)
        case OneOrMore =>
          if here then RunFrom(rest, t, ignoreCase, i + 1, Extent(a, t, ignoreCase, i + 1)) else None
        case ZeroOrMore => RunFrom(rest, t, ignoreCase, i, Extent(a, t, ignoreCase, i))
  }

  /** The search at hi, hi - 1, ..., lo: the first success. */
  function RunFrom(re: Regex, t: string, ignoreCase: bool, lo: nat, hi: nat): (r: Option<nat>)
    requires lo <= hi
    ensures r.Some? ==> lo <= r.value <= |t|
    decreases re, hi - lo + 1
  {
    var r := Run(re, t, ignoreCase, hi);
    if r.Some? || hi == lo then r else RunFrom(re, t, ignoreCase, lo, hi - 1)
  }

  lemma {:induction false} RunFromFindsLast(re: Regex, t: string, ignoreCase: bool, lo: nat, hi: nat) returns (n: nat)
    requires lo <= hi
    ensures lo <= n <= hi && RunFrom(re, t, ignoreCase, lo, hi) == Run(re, t, ignoreCase, n)
    ensures forall m :: n < m <= hi ==> Run(re, t, ignoreCase, m).None?
    ensures RunFrom(re, t, ignoreCase, lo, hi).None? ==> n == lo
    decreases hi - lo
  {
    if Run(re, t, ignoreCase, hi).Some? || hi == lo {
      n := hi;
    } else {
      n := RunFromFindsLast(re, t, ignoreCase, lo, hi - 1);
    }
  }

  lemma ExtentMaximal(a: Atom, t: string, ignoreCase: bool, i: nat, n: nat)
    requires i <= n <= |t| && AllFit(a, t, ignoreCase, i, n)
    ensures n <= Extent(a, t, ignoreCase, i)
  {
  }

  // ------------------------------------------------------------------- soundness

  /** Every success of the search is a match, for every pattern, groups included. */
  lemma {:induction false} RunSound(re: Regex, t: string, ignoreCase: bool, i: nat)
    ensures var r := Run(re, t, ignoreCase, i);
            r.Some? ==> Matches(re, t, ignoreCase, i, r.value)
    decreases re
  {
    var r := Run(re, t, ignoreCase, i);
    if r.Some? {
      match re
      case Accept =>
      case LineStart(rest) => RunSound(rest, t, ignoreCase, i);
      case LineEnd(rest) => RunSound(rest, t, ignoreCase, i);
      case Group(body, rest) =>
        RunSound(body, t, ignoreCase, i);
        RunSound(rest, t, ignoreCase, Run(body, t, ignoreCase, i).value);
      case Item(a, q, rest) =>
        var n := ItemSplit(re, t, ignoreCase, i);
        RunSound(rest, t, ignoreCase, n);
    }
  }

  /** A successful search of an item split off its repetitions at the largest
      allowed place from which the rest of the pattern can be searched to the end. */
  lemma ItemSplit(re: Regex, t: string, ignoreCase: bool, i: nat) returns (n: nat)
    requires re.Item? && Run(re, t, ignoreCase, i).Some?
    ensures i <= n <= Run(re, t, ignoreCase, i).value && Repeats(re.quantifier, n - i)
    ensures AllFit(re.atom, t, ignoreCase, i, n)
    ensures Run(re, t, ignoreCase, i) == Run(re.rest, t, ignoreCase, n)
    ensures forall m :: n < m <= |t| && Repeats(re.quantifier, m - i) && AllFit(re.atom, t, ignoreCase, i, m)
              ==> Run(re.rest, t, ignoreCase, m).None?
  {
    match re.quantifier
    case Once => n := i + 1;
    case Optional =>
      if i < |t| && Fits(re.atom, t[i], ignoreCase) && Run(re.rest, t, ignoreCase, i + 1).Some? {
        n := i + 1;
      } else {
        n := i;
      }
    case OneOrMore =>
      n := RunFromFindsLast(re.rest, t, ignoreCase, i + 1, Extent(re.atom, t, ignoreCase, i + 1));
      forall m | n < m <= |t| && AllFit(re.atom, t, ignoreCase, i, m)
        ensures Run(re.rest, t, ignoreCase, m).None?
      {
        ExtentMaximal(re.atom, t, ignoreCase, i + 1, m);
      }
    case ZeroOrMore =>
      n := RunFromFindsLast(re.rest, t, ignoreCase, i, Extent(re.atom, t, ignoreCase, i));
      forall m | n < m <= |t| && AllFit(re.atom, t, ignoreCase, i, m)
        ensures Run(re.rest, t, ignoreCase, m).None?
      {
        ExtentMaximal(re.atom, t, ignoreCase, i, m);
      }
  }

  // ------------------------------------------------- matching with committed groups

  /** Matching as in `Matches`, but a group takes the longest text that its body can
      take, and what follows must match from there. */
  ghost predicate Commits(re: Regex, t: string, ignoreCase: bool, i: nat, j: nat)
    decreases re, 0
  {
    i <= j <= |t| &&
    match re
    case Accept => i == j
    case Reject => false
    case Overrun => false
    case LineStart(rest) => i == 0 && Commits(rest, t, ignoreCase, i, j)
    case LineEnd(rest) => i == |t| && Commits(rest, t, ignoreCase, i, j)
    case Item(a, q, rest) =>
      exists n :: i <= n <= j && Repeats(q, n - i) && AllFit(a, t, ignoreCase, i, n) &&
                  Commits(rest, t, ignoreCase, n, j)
    case Group(body, rest) =>
      exists n :: i <= n <= j && Longest(body, t, ignoreCase, i, n) && Commits(rest, t, ignoreCase, n, j)
  }

  /** j is the longest way to match from i with committed groups. */
  ghost predicate Longest(re: Regex, t: string, ignoreCase: bool, i: nat, j: nat)
    decreases re, 1
  {
    Commits(re, t, ignoreCase, i, j) && forall m :: j < m <= |t| ==> !Commits(re, t, ignoreCase, i, m)
  }

  lemma CommitsItem(re: Regex, t: string, ignoreCase: bool, i: nat, j: nat) returns (n: nat)
    requires re.Item? && Commits(re, t, ignoreCase, i, j)
    ensures i <= n <= j <= |t| && Repeats(re.quantifier, n - i) && AllFit(re.atom, t, ignoreCase, i, n)
    ensures Commits(re.rest, t, ignoreCase, n, j)
  {
    n :| i <= n <= j && Repeats(re.quantifier, n - i) && AllFit(re.atom, t, ignoreCase, i, n) &&
         Commits(re.rest, t, ignoreCase, n, j);
  }

  lemma CommitsGroup(re: Regex, t: string, ignoreCase: bool, i: nat, j: nat) returns (n: nat)
    requires re.Group? && Commits(re, t, ignoreCase, i, j)
    ensures i <= n <= j <= |t| && Longest(re.body, t, ignoreCase, i, n) && Commits(re.rest, t, ignoreCase, n, j)
  {
    n :| i <= n <= j && Longest(re.body, t, ignoreCase, i, n) && Commits(re.rest, t, ignoreCase, n, j);
  }

  lemma {:induction false} CommitsMatches(re: Regex, t: string, ignoreCase: bool, i: nat, j: nat)
    requires Commits(re, t, ignoreCase, i, j)
    ensures Matches(re, t, ignoreCase, i, j)
    decreases re
  {
    match re
    case Accept =>
    case LineStart(rest) => CommitsMatches(rest, t, ignoreCase, i, j);
    case LineEnd(rest) => CommitsMatches(rest, t, ignoreCase, i, j);
    case Item(a, q, rest) =>
      var n := CommitsItem(re, t, ignoreCase, i, j);
      CommitsMatches(rest, t, ignoreCase, n, j);
    case Group(body, rest) =>
      var n := CommitsGroup(re, t, ignoreCase, i, j);
      CommitsMatches(body, t, ignoreCase, i, n);
      CommitsMatches(rest, t, ignoreCase, n, j);
  }

  /** Matches that cross can be exchanged: if the match that starts first ends last,
      the later start reaches the same end. */
  lemma {:induction false} Crossing(re: Regex, t: string, ignoreCase: bool, a: nat, e: nat, b: nat, f: nat)
    requires a <= b && f < e && Commits(re, t, ignoreCase, a, e) && Commits(re, t, ignoreCase, b, f)
    ensures Commits(re, t, ignoreCase, b, e)
    decreases re
  {
    match re
    case Accept =>
    case LineStart(rest) => Crossing(rest, t, ignoreCase, a, e, b, f);
    case LineEnd(rest) =>
    case Item(c, q, rest) =>
      var m := CommitsItem(re, t, ignoreCase, a, e);
      var n := CommitsItem(re, t, ignoreCase, b, f);
      if m <= n {
        Crossing(rest, t, ignoreCase, m, e, n, f);
      } else {
        assert Repeats(q, m - b) && AllFit(c, t, ignoreCase, b, m);
      }
    case Group(body, rest) =>
      var m := CommitsGroup(re, t, ignoreCase, a, e);
      var n := CommitsGroup(re, t, ignoreCase, b, f);
      if m <= n {
        Crossing(rest, t, ignoreCase, m, e, n, f);
      } else {
        Crossing(body, t, ignoreCase, a, m, b, n);
      }
  }

  /** Every success of the search is a match with committed groups, the longest one. */
  lemma {:induction false} RunIsLongest(re: Regex, t: string, ignoreCase: bool, i: nat)
    ensures var r := Run(re, t, ignoreCase, i);
            r.Some? ==> Longest(re, t, ignoreCase, i, r.value)
    decreases re, 1
  {
    var r := Run(re, t, ignoreCase, i);
    if r.Some? {
      match re
      case Accept =>
      case LineStart(rest) => RunIsLongest(rest, t, ignoreCase, i);
      case LineEnd(rest) => RunIsLongest(rest, t, ignoreCase, i);
      case Group(body, rest) =>
        var n := Run(body, t, ignoreCase, i).value;
        RunIsLongest(body, t, ignoreCase, i);
        RunIsLongest(rest, t, ignoreCase, n);
      case Item(a, q, rest) =>
        var n := ItemSplit(re, t, ignoreCase, i);
        RunIsLongest(rest, t, ignoreCase, n);
        forall j | r.value < j <= |t| ensures !Commits(re, t, ignoreCase, i, j) {
          if Commits(re, t, ignoreCase, i, j) {
            LongerItem(re, t, ignoreCase, i, n, j);
          }
        }
    }
  }

  /** No split of an item's repetitions leads further than the largest one that works. */
  lemma {:induction false} LongerItem(re: Regex, t: string, ignoreCase: bool, i: nat, n: nat, j: nat)
    requires re.Item? && i <= n && Run(re.rest, t, ignoreCase, n).Some? && Commits(re, t, ignoreCase, i, j)
    requires forall m :: n < m <= |t| && Repeats(re.quantifier, m - i) && AllFit(re.atom, t, ignoreCase, i, m)
               ==> Run(re.rest, t, ignoreCase, m).None?
    requires Longest(re.rest, t, ignoreCase, n, Run(re.rest, t, ignoreCase, n).value)
    ensures j <= Run(re.rest, t, ignoreCase, n).value
    decreases re, 0
  {
    var m := CommitsItem(re, t, ignoreCase, i, j);
    var k := Run(re.rest, t, ignoreCase, n).value;
    RunFinds(re.rest, t, ignoreCase, m, j);
    if k < j {
      Crossing(re.rest, t, ignoreCase, m, j, n, k);
    }
  }

  /** An item is found when the rest is, from some place its repetitions lead to. */
  lemma ItemFound(re: Regex, t: string, ignoreCase: bool, i: nat, n: nat)
    requires re.Item? && i <= n <= |t| && Repeats(re.quantifier, n - i) && AllFit(re.atom, t, ignoreCase, i, n)
    requires Run(re.rest, t, ignoreCase, n).Some?
    ensures Run(re, t, ignoreCase, i).Some?
  {
    if re.quantifier == ZeroOrMore {
      ExtentMaximal(re.atom, t, ignoreCase, i, n);
      var last := RunFromFindsLast(re.rest, t, ignoreCase, i, Extent(re.atom, t, ignoreCase, i));
    } else if re.quantifier == OneOrMore {
      ExtentMaximal(re.atom, t, ignoreCase, i + 1, n);
      var last := RunFromFindsLast(re.rest, t, ignoreCase, i + 1, Extent(re.atom, t, ignoreCase, i + 1));
    }
  }

  /** The search succeeds wherever the pattern matches with committed groups. */
  lemma {:induction false} RunFinds(re: Regex, t: string, ignoreCase: bool, i: nat, j: nat)
    requires Commits(re, t, ignoreCase, i, j)
    ensures Run(re, t, ignoreCase, i).Some?
    decreases re, 1
  {
    match re
    case Accept =>
    case LineStart(rest) => RunFinds(rest, t, ignoreCase, i, j);
    case LineEnd(rest) => RunFinds(rest, t, ignoreCase, i, j);
    case Group(body, rest) =>
      var n := CommitsGroup(re, t, ignoreCase, i, j);
      RunFinds(body, t, ignoreCase, i, n);
      RunIsLongest(body, t, ignoreCase, i);
      RunFinds(rest, t, ignoreCase, n, j);
    case Item(a, q, rest) =>
      var n := CommitsItem(re, t, ignoreCase, i, j);
      RunFinds(rest, t, ignoreCase, n, j);
      ItemFound(re, t, ignoreCase, i, n);
  }

  /** For every pattern, nested groups included: the search succeeds exactly where the
      pattern matches with committed groups, and what it finds is the longest match. */
  lemma RunDecides(re: Regex, t: string, ignoreCase: bool, i: nat)
    ensures Run(re, t, ignoreCase, i).Some? <==> exists j: nat :: Commits(re, t, ignoreCase, i, j)
    ensures forall j: nat :: Run(re, t, ignoreCase, i) == Some(j) <==> Longest(re, t, ignoreCase, i, j)
  {
    var r := Run(re, t, ignoreCase, i);
    RunIsLongest(re, t, ignoreCase, i);
    assert r.Some? ==> Commits(re, t, ignoreCase, i, r.value);
    forall j: nat | Commits(re, t, ignoreCase, i, j) ensures r.Some? && j <= r.value {
      RunFinds(re, t, ignoreCase, i, j);
    }
  }

  /** It gives the first item as many characters as any such match can give it. */
  lemma RunIsGreedy(re: Regex, t: string, ignoreCase: bool, i: nat) returns (n: nat)
    requires re.Item? && Run(re, t, ignoreCase, i).Some?
    ensures i <= n <= |t| && Repeats(re.quantifier, n - i) && AllFit(re.atom, t, ignoreCase, i, n)
    ensures Longest(re.rest, t, ignoreCase, n, Run(re, t, ignoreCase, i).value)
    ensures forall m, j :: n < m <= |t| && Repeats(re.quantifier, m - i) && AllFit(re.atom, t, ignoreCase, i, m)
              ==> !Commits(re.rest, t, ignoreCase, m, j)
  {
    n := ItemSplit(re, t, ignoreCase, i);
    RunIsLongest(re.rest, t, ignoreCase, n);
    forall m, j | n < m <= |t| && Repeats(re.quantifier, m - i) && AllFit(re.atom, t, ignoreCase, i, m)
      ensures !Commits(re.rest, t, ignoreCase, m, j)
    {
      if Commits(re.rest, t, ignoreCase, m, j) {
        RunFinds(re.rest, t, ignoreCase, m, j);
      }
    }
  }

  // ------------------------------------------------------------- groups without choice

  /** Nothing in the pattern can be repeated or left out. */
  predicate Fixed(re: Regex) {
    match re
    case Item(_, q, rest) => q == Once && Fixed(rest)
    case Group(body, rest) => Fixed(body) && Fixed(rest)
    case LineStart(rest) => Fixed(rest)
    case LineEnd(rest) => Fixed(rest)
    case _ => true
  }

  /** Every group holds a fixed pattern; in particular a pattern without groups. */
  predicate Rigid(re: Regex) {
    match re
    case Item(_, _, rest) => Rigid(rest)
    case Group(body, rest) => Fixed(body) && Rigid(rest)
    case LineStart(rest) => Rigid(rest)
    case LineEnd(rest) => Rigid(rest)
    case _ => true
  }

  lemma FixedIsRigid(re: Regex)
    requires Fixed(re)
    ensures Rigid(re)
  {
  }

  /** A fixed pattern matches in one way at most. */
  lemma {:induction false} FixedMatchesOnce(re: Regex, t: string, ignoreCase: bool, i: nat, j: nat, j': nat)
    requires Fixed(re) && Matches(re, t, ignoreCase, i, j) && Matches(re, t, ignoreCase, i, j')
    ensures j == j'
    decreases re
  {
    match re
    case Accept =>
    case LineStart(rest) => FixedMatchesOnce(rest, t, ignoreCase, i, j, j');
    case LineEnd(rest) => FixedMatchesOnce(rest, t, ignoreCase, i, j, j');
    case Item(a, q, rest) => FixedMatchesOnce(rest, t, ignoreCase, i + 1, j, j');
    case Group(body, rest) =>
      var n :| i <= n <= j && Matches(body, t, ignoreCase, i, n) && Matches(rest, t, ignoreCase, n, j);
      var n' :| i <= n' <= j' && Matches(body, t, ignoreCase, i, n') && Matches(rest, t, ignoreCase, n', j');
      FixedMatchesOnce(body, t, ignoreCase, i, n, n');
      FixedMatchesOnce(rest, t, ignoreCase, n, j, j');
  }

  /** Then committing takes nothing away. */
  lemma {:induction false} RigidCommits(re: Regex, t: string, ignoreCase: bool, i: nat, j: nat)
    requires Rigid(re) && Matches(re, t, ignoreCase, i, j)
    ensures Commits(re, t, ignoreCase, i, j)
    decreases re
  {
    match re
    case Accept =>
    case LineStart(rest) => RigidCommits(rest, t, ignoreCase, i, j);
    case LineEnd(rest) => RigidCommits(rest, t, ignoreCase, i, j);
    case Item(a, q, rest) =>
      var n :| i <= n <= j && Repeats(q, n - i) && AllFit(a, t, ignoreCase, i, n) && Matches(rest, t, ignoreCase, n, j);
      RigidCommits(rest, t, ignoreCase, n, j);
    case Group(body, rest) =>
      var n :| i <= n <= j && Matches(body, t, ignoreCase, i, n) && Matches(rest, t, ignoreCase, n, j);
      FixedIsRigid(body);
      RigidCommits(body, t, ignoreCase, i, n);
      RigidCommits(rest, t, ignoreCase, n, j);
      forall m | n < m <= |t| ensures !Commits(body, t, ignoreCase, i, m) {
        if Commits(body, t, ignoreCase, i, m) {
          CommitsMatches(body, t, ignoreCase, i, m);
          FixedMatchesOnce(body, t, ignoreCase, i, n, m);
        }
      }
      assert Longest(body, t, ignoreCase, i, n);
  }

  /** With such groups the search finds a match wherever there is one, the longest. */
  lemma RunComplete(re: Regex, t: string, ignoreCase: bool, i: nat, j: nat)
    requires Rigid(re) && Matches(re, t, ignoreCase, i, j)
    ensures Run(re, t, ignoreCase, i).Some? && j <= Run(re, t, ignoreCase, i).value
  {
    RigidCommits(re, t, ignoreCase, i, j);
    RunFinds(re, t, ignoreCase, i, j);
    RunIsLongest(re, t, ignoreCase, i);
  }

  /** Where committing matters: `(a*)a` matches "a", but the group takes the only
      'a' and the search does not go back into it. */
  lemma GroupCommits()
    ensures var re := Parse("(a*)a");
            Matches(re, "a", false, 0, 1) && Run(re, "a", false, 0).None? &&
            forall j: nat :: !Commits(re, "a", false, 0, j)
  {
    var n: Needle := "(a*)a";
    var a := Literal('a');
    var tail := Item(a, Once, Accept);
    var body := Item(a, ZeroOrMore, Accept);
    assert ParseHere(n, 5, false) == Parsed(Accept, Some(5));
    assert ReadAtom(n, 4) == AtomAt(a, 5);
    assert ParseHere(n, 4, false) == Parsed(tail, Some(5));
    assert ParseHere(n, 3, true) == Parsed(Accept, Some(4));
    assert ReadAtom(n, 1) == AtomAt(a, 2);
    assert ParseHere(n, 1, true) == Parsed(body, Some(4));
    assert Parse(n) == Group(body, tail);
    var t := "a";
    assert Matches(Accept, t, false, 0, 0) && AllFit(a, t, false, 0, 0) && Matches(body, t, false, 0, 0);
    assert Matches(Accept, t, false, 1, 1) && AllFit(a, t, false, 0, 1) && Matches(tail, t, false, 0, 1);
    assert Extent(a, t, false, 1) == 1;
    assert Extent(a, t, false, 0) == 1;
    assert Run(body, t, false, 0) == Some(1);
    RunDecides(Group(body, tail), t, false, 0);
  }
}
