/**
  grep's treatment of one input line (apps/grep.c:234-243, 415-568): where the
  pattern is tried, which lines are selected, and what is printed of them.
  File name and line number prefixes and colour escapes are not part of this model.
 */
module GrepLines {
  import opened Basics
  import opened GrepSyntax
  import opened GrepSemantics
  import opened GrepEngine
  import GrepPrinter

  /** The option flags, and whether a NUL was seen in the file so far. */
  datatype Options = Options(
    ignoreCase: bool, fixed: bool, wholeLines: bool, onlyMatching: bool,
    counts: bool, quiet: bool, listFiles: bool, isBinary: bool)

  /** The pattern as a fixed string occurs at index j. */
  predicate OccursAt(needle: string, t: string, ignoreCase: bool, j: nat) {
    j + |needle| <= |t| && forall i :: 0 <= i < |needle| ==> Compare(needle[i], t[j + i], ignoreCase, Equal)
  }

  /** The length of the match that is found at index j, if any. */
  function Search(o: Options, needle: Needle, t: string, j: nat): (r: Option<nat>)
    ensures r.Some? ==> j + r.value <= |t|
  {
    if o.fixed then if OccursAt(needle, t, o.ignoreCase, j) then Some(|needle|) else None
    else
      match Run(Parse(needle), t, o.ignoreCase, j)
      case None => None
      case Some(end) => Some(end - j)
  }

  /** With -F and -i the pattern is found where the line has its letters in either case. */
  lemma FixedIgnoresCase(needle: string, t: string, j: nat)
    ensures OccursAt(needle, t, true, j) <==>
            j + |needle| <= |t| && forall i :: 0 <= i < |needle| ==> SameLetter(needle[i], t[j + i])
  {
    if j + |needle| <= |t| {
      forall i | 0 <= i < |needle|
        ensures Compare(needle[i], t[j + i], true, Equal) <==> SameLetter(needle[i], t[j + i])
      {
        CaseIsIgnored(needle[i], t[j + i]);
      }
    }
  }

  ghost predicate Searchable(o: Options, needle: Needle) {
    o.fixed || Defined(Parse(needle))
  }

  /** `subsearch_matches`. */
  method SubsearchMatches(text: string, actual: nat, j: nat, needle: Needle, o: Options) returns (ok: bool, len: nat)
    requires actual < |text| && j <= actual && Searchable(o, needle)
    ensures (if ok then Some(len) else None) == Search(o, needle, text[..actual], j)
  {
    if o.fixed {
      ok, len := false, 0;
      var n, i := 0, j;
      while At(needle, n) != '\0'
        invariant 0 <= n <= |needle| && i == j + n <= actual
        invariant forall p :: 0 <= p < n ==> Compare(needle[p], text[..actual][j + p], o.ignoreCase, Equal)
        decreases |needle| - n
      {
        if i >= actual || !Compare(needle[n], text[i], o.ignoreCase, Equal) {
          assert i < actual ==> text[i] == text[..actual][j + n];
          return;
        }
        n, i := n + 1, i + 1;
      }
      return true, n;
    }
    var out;
    ok, len, out := RegexMatches(text, actual, j, needle, 0, o.ignoreCase, false);
  }

  // ----------------------------------------------------- what a line's finds mean

  /** What is found at each index of a line of length n, its end included. */
  type Finds = f: seq<Option<nat>> |
    |f| > 0 && forall j :: 0 <= j < |f| && f[j].Some? ==> j + f[j].value < |f|
    witness [None]

  /** The finds at the indices 0..n of a line. */
  function FindsUpTo(o: Options, needle: Needle, t: string, n: nat): (f: seq<Option<nat>>)
    requires n <= |t|
    ensures |f| == n + 1
  {
    (if n == 0 then [] else FindsUpTo(o, needle, t, n - 1)) + [Search(o, needle, t, n)]
  }

  lemma {:induction false} FindsAt(o: Options, needle: Needle, t: string, n: nat, j: nat)
    requires j <= n <= |t|
    ensures FindsUpTo(o, needle, t, n)[j] == Search(o, needle, t, j)
  {
    if j < n {
      FindsAt(o, needle, t, n - 1, j);
    }
  }

  function FindsOf(o: Options, needle: Needle, t: string): (f: Finds)
    ensures |f| == |t| + 1
  {
    var f := FindsUpTo(o, needle, t, |t|);
    assert forall j :: 0 <= j < |f| && f[j].Some? ==> j + f[j].value < |f| by {
      forall j: nat | j < |f| {
        FindsAt(o, needle, t, |t|, j);
      }
    }
    f
  }

  /** A line is selected when something is found in it; with -x, when what is found
      at its start is the whole line. */
  ghost predicate Selected(f: Finds, wholeLines: bool) {
    if wholeLines then f[0] == Some(|f| - 1)
    else exists j :: 0 <= j < |f| && f[j].Some?
  }

  /** The end of a find, or the index after it when it is empty. */
  function After(j: nat, len: nat): nat {
    j + if len == 0 then 1 else len
  }

  /** A find that is reported: its index and its length. */
  datatype Hit = Hit(at: nat, len: nat)

  /** The finds that -o reports from index j on. */
  function Hits(f: Finds, j: nat): seq<Hit>
    decreases |f| - j
  {
    if j >= |f| then []
    else if f[j].None? then Hits(f, j + 1)
    else [Hit(j, f[j].value)] + Hits(f, After(j, f[j].value))
  }

  ghost predicate NothingIn(f: Finds, lo: nat, hi: nat)
    requires hi <= |f|
  {
    forall p :: lo <= p < hi ==> f[p].None?
  }

  /** `hits` is what a left-to-right scan from index `from` must report: the next
      hit is the first index where anything is found, and the last leaves nothing. */
  ghost predicate Leftmost(f: Finds, from: nat, hits: seq<Hit>)
    decreases |hits|
  {
    if hits == [] then NothingIn(f, from, |f|)
    else
      var Hit(at, len) := hits[0];
      from <= at < |f| && NothingIn(f, from, at) && f[at] == Some(len) && Leftmost(f, After(at, len), hits[1..])
  }

  /** The line that -o prints for a hit. */
  function HitLine(t: string, j: nat, len: nat): string {
    if 0 < len && j + len <= |t| then t[j..j + len] + "\n" else ""
  }

  /** The non-empty hits, a line each. */
  function HitLines(t: string, hits: seq<Hit>): string {
    if hits == [] then ""
    else HitLine(t, hits[0].at, hits[0].len) + HitLines(t, hits[1..])
  }

  /** What -o prints from index j on. */
  function Report(f: Finds, t: string, j: nat): string
    requires |f| == |t| + 1
    decreases |f| - j
  {
    if j >= |f| then ""
    else if f[j].None? then Report(f, t, j + 1)
    else HitLine(t, j, f[j].value) + Report(f, t, After(j, f[j].value))
  }

  lemma ReportStep(f: Finds, t: string, j: nat, before: string)
    requires |f| == |t| + 1 && j < |f|
    ensures before + Report(f, t, j) ==
            if f[j].None? then before + Report(f, t, j + 1)
            else if f[j].value == 0 then before + Report(f, t, j + 1)
            else (before + (t[j..j + f[j].value] + "\n")) + Report(f, t, j + f[j].value)
  {
    if f[j].Some? {
      var len := f[j].value;
      if len == 0 {
        assert "" + Report(f, t, j + 1) == Report(f, t, j + 1);
      } else {
        Concat3(before, t[j..j + len] + "\n", Report(f, t, j + len));
      }
    }
  }

  lemma HitLinesCons(t: string, j: nat, len: nat, hits: seq<Hit>)
    ensures HitLines(t, [Hit(j, len)] + hits) == HitLine(t, j, len) + HitLines(t, hits)
  {
    var all := [Hit(j, len)] + hits;
    assert all[0] == Hit(j, len) && all[1..] == hits;
  }

  /** It is the text of the hits, a line each. */
  lemma {:induction false} ReportIsHitLines(f: Finds, t: string, j: nat)
    requires |f| == |t| + 1
    ensures Report(f, t, j) == HitLines(t, Hits(f, j))
    decreases |f| - j
  {
    if j < |f| {
      if f[j].None? {
        ReportIsHitLines(f, t, j + 1);
      } else {
        var next := After(j, f[j].value);
        ReportIsHitLines(f, t, next);
        HitLinesCons(t, j, f[j].value, Hits(f, next));
      }
    }
  }

  // ------------------------------------------------------------- the line loops

  /** At its first find a line is given up or handed over: nothing of it is printed. */
  predicate StopsEarly(o: Options) {
    o.quiet || o.listFiles || o.counts || o.isBinary
  }

  /** `%.*s` stops at a NUL, but no line with one is printed. */
  ghost predicate Printable(o: Options, t: string) {
    o.isBinary || '\0' !in t
  }

  method Find(text: string, actual: nat, j: nat, needle: Needle, o: Options, ghost f: Finds)
    returns (ok: bool, len: nat)
    requires actual < |text| && j <= actual && Searchable(o, needle)
    requires f == FindsOf(o, needle, text[..actual])
    ensures |f| == actual + 1 && f[j] == if ok then Some(len) else None
  {
    ok, len := SubsearchMatches(text, actual, j, needle, o);
    FindsAt(o, needle, text[..actual], actual, j);
  }

  /** What one find prints, and where the loop goes on (apps/grep.c:468-501). */
  method TakeHit(text: string, actual: nat, lastMatch: nat, j: nat, len: nat, printed: string, onlyMatching: bool)
    returns (newLast: nat, next: nat, output: string)
    requires lastMatch <= j <= j + len <= actual < |text| && '\0' !in text[..actual]
    ensures newLast <= next == After(j, len)
    ensures HitTaken(text[..actual], lastMatch, j, len, printed, onlyMatching, newLast, output)
  {
    output := printed;
    if len == 0 && onlyMatching {
      return j + 1, j + 1, printed;
    }
    if onlyMatching {
      assert text[j..j + len] == text[..actual][j..j + len];
      output := printed + (text[j..j + len] + "\n");
    } else {
      output := printed + text[lastMatch..j] + text[j..j + len];
      assert printed == text[..actual][..lastMatch] ==> output == text[..actual][..j + len];
    }
    newLast := j + len;
    next := newLast + if len == 0 then 1 else 0;
  }

  /** What the loop has printed when it stands at index j and the last find ended at lastMatch. */
  ghost predicate PrintedSoFar(f: Finds, t: string, o: Options, lastMatch: nat, j: nat, printed: string)
    requires |f| == |t| + 1
  {
    if o.onlyMatching then Report(f, t, 0) == printed + Report(f, t, j)
    else lastMatch <= |t| && printed == t[..lastMatch]
  }

  lemma PrintedStep(
      f: Finds, t: string, o: Options, lastMatch: nat, j: nat, printed: string, newLast: nat, output: string)
    requires |f| == |t| + 1 && lastMatch <= j < |f| && PrintedSoFar(f, t, o, lastMatch, j, printed)
    requires f[j].None? ==> newLast == lastMatch && output == printed
    requires f[j].Some? ==> HitTaken(t, lastMatch, j, f[j].value, printed, o.onlyMatching, newLast, output)
    ensures PrintedSoFar(f, t, o, newLast, if f[j].None? then j + 1 else After(j, f[j].value), output)
  {
    if o.onlyMatching {
      ReportStep(f, t, j, printed);
    }
  }

  ghost predicate HitTaken(t: string, lastMatch: nat, j: nat, len: nat, printed: string, onlyMatching: bool,
                           newLast: nat, output: string)
    requires j + len <= |t|
  {
    if onlyMatching then output == if len == 0 then printed else printed + (t[j..j + len] + "\n")
    else lastMatch <= j && printed == t[..lastMatch] ==> newLast == j + len && output == t[..newLast]
  }

  /** A find, in the course of the loop. */
  method TakeFind(
      text: string, actual: nat, lastMatch: nat, j: nat, len: nat, printed: string, o: Options, ghost f: Finds)
    returns (newLast: nat, next: nat, output: string)
    requires lastMatch <= j <= j + len <= actual < |text| && |f| == actual + 1 && f[j] == Some(len)
    requires '\0' !in text[..actual]
    requires PrintedSoFar(f, text[..actual], o, lastMatch, j, printed)
    ensures newLast <= next == After(j, len) && PrintedSoFar(f, text[..actual], o, newLast, next, output)
    ensures HitTaken(text[..actual], lastMatch, j, len, printed, o.onlyMatching, newLast, output)
  {
    newLast, next, output := TakeHit(text, actual, lastMatch, j, len, printed, o.onlyMatching);
    PrintedStep(f, text[..actual], o, lastMatch, j, printed, newLast, output);
  }

  /** What the loop has printed of a line that it found whole. */
  ghost predicate PrintedWhole(t: string, o: Options, lastMatch: nat, printed: string) {
    HitTaken(t, 0, 0, |t|, "", o.onlyMatching, lastMatch, printed)
  }

  /** The loop at index j. */
  ghost predicate Going(f: Finds, t: string, o: Options, matched: bool, lastMatch: nat, j: nat, printed: string) {
    && |f| == |t| + 1 && lastMatch <= j <= |f| && (o.wholeLines ==> j == 0)
    && (if matched then Selected(f, o.wholeLines) && !StopsEarly(o)
        else lastMatch == 0 && printed == "" && forall p :: 0 <= p < j ==> f[p].None?)
    && PrintedSoFar(f, t, o, lastMatch, j, printed)
  }

  /** The loop when it is left. */
  ghost predicate Settled(f: Finds, t: string, o: Options, matched: bool, lastMatch: nat, printed: string) {
    && |f| == |t| + 1 && matched == Selected(f, o.wholeLines)
    && (StopsEarly(o) || !matched ==> printed == "")
    && (!StopsEarly(o) && matched ==>
          if o.wholeLines then PrintedWhole(t, o, lastMatch, printed)
          else PrintedSoFar(f, t, o, lastMatch, |t| + 1, printed))
  }

  /** What a turn of the loop does with its find, if there is one; stop tells whether the loop is left. */
  method AfterFind(text: string, actual: nat, o: Options, ghost f: Finds, ok: bool, len: nat,
                   matched: bool, lastMatch: nat, j: nat, printed: string)
    returns (stop: bool, nowMatched: bool, newLast: nat, next: nat, output: string)
    requires j <= actual < |text| && Going(f, text[..actual], o, matched, lastMatch, j, printed)
    requires Printable(o, text[..actual])
    requires f[j] == if ok then Some(len) else None
    requires ok ==> j + len <= actual
    ensures stop ==> Settled(f, text[..actual], o, nowMatched, newLast, output)
    ensures !stop ==> j < next && Going(f, text[..actual], o, nowMatched, newLast, next, output)
  {
    stop, nowMatched, newLast, next, output := o.wholeLines, matched, lastMatch, j, printed;
    if ok {
      if o.wholeLines && len != actual {
        return;
      }
      nowMatched := true;
      if o.quiet || o.listFiles || o.counts || o.isBinary {
        stop := true;
        return;
      }
      newLast, next, output := TakeFind(text, actual, lastMatch, j, len, printed, o, f);
    } else {
      PrintedStep(f, text[..actual], o, lastMatch, j, printed, lastMatch, printed);
      next := j + 1;
    }
  }

  /** The loop for a line without -v (apps/grep.c:442-508). */
  method MatchLoop(text: string, actual: nat, needle: Needle, o: Options, ghost f: Finds)
    returns (matched: bool, printed: string, lastMatch: nat)
    requires actual < |text| && Searchable(o, needle) && Printable(o, text[..actual])
    requires f == FindsOf(o, needle, text[..actual])
    ensures Settled(f, text[..actual], o, matched, lastMatch, printed)
  {
    var j, stop := 0, false;
    lastMatch, matched, printed := 0, false, "";
    FindsAt(o, needle, text[..actual], actual, 0);
    while j <= actual
      invariant Going(f, text[..actual], o, matched, lastMatch, j, printed)
    {
      var ok, len := Find(text, actual, j, needle, o, f);
      stop, matched, lastMatch, j, printed := AfterFind(text, actual, o, f, ok, len, matched, lastMatch, j, printed);
      if stop {
        return;
      }
    }
  }

  /** A line without -v (apps/grep.c:439-517). */
  method MatchLine(text: string, actual: nat, needle: Needle, o: Options, ghost f: Finds)
    returns (matched: bool, printed: string)
    requires actual < |text| && Searchable(o, needle) && Printable(o, text[..actual])
    requires f == FindsOf(o, needle, text[..actual])
    ensures matched == Selected(f, o.wholeLines)
    ensures StopsEarly(o) || !matched ==> printed == ""
    ensures matched && !StopsEarly(o) && !o.onlyMatching ==> printed == text[..actual] + "\n"
    ensures matched && !StopsEarly(o) && o.onlyMatching ==>
              printed == if !o.wholeLines then Report(f, text[..actual], 0)
                         else if actual == 0 then "" else text[..actual] + "\n"
  {
    ghost var t := text[..actual];
    var lastMatch;
    matched, printed, lastMatch := MatchLoop(text, actual, needle, o, f);
    if o.quiet || o.listFiles || o.counts || o.isBinary {
      return;
    }
    if !o.onlyMatching && matched {
      printed := printed + text[lastMatch..actual] + "\n";
      assert t[..lastMatch] + text[lastMatch..actual] == t;
    } else {
      assert t[0..actual] == t;
    }
  }

  /** The loop for a line with -v (apps/grep.c:518-567). */
  method InvertLine(text: string, actual: nat, needle: Needle, o: Options, ghost f: Finds)
    returns (rejected: bool, printed: string)
    requires actual < |text| && Searchable(o, needle) && Printable(o, text[..actual])
    requires f == FindsOf(o, needle, text[..actual])
    ensures rejected == Selected(f, o.wholeLines)
    ensures printed == if rejected || StopsEarly(o) || o.onlyMatching then "" else text[..actual] + "\n"
  {
    rejected, printed := false, "";
    var j := 0;
    while j <= actual
      invariant 0 <= j <= actual + 1 && |f| == actual + 1 && (o.wholeLines ==> j == 0)
      invariant forall p :: 0 <= p < j ==> f[p].None?
    {
      var ok, len := Find(text, actual, j, needle, o, f);
      if ok {
        if o.wholeLines && len != actual {
          break;
        }
        rejected := true;
        break;
      }
      if o.wholeLines {
        break;
      }
      j := j + 1;
    }
    if rejected || StopsEarly(o) || o.onlyMatching {
      return;
    }
    printed := text[..actual] + "\n";
  }

  /** A file with a NUL in a line is binary from that line on (apps/grep.c:429-437). */
  method ScanForNul(text: string, actual: nat, o: Options) returns (o': Options)
    requires actual < |text|
    ensures o' == o.(isBinary := o.isBinary || '\0' in text[..actual])
    ensures Printable(o', text[..actual])
  {
    o' := o;
    if !o.isBinary {
      var i := 0;
      while i < actual
        invariant 0 <= i <= actual && '\0' !in text[..i]
      {
        if text[i] == '\0' {
          assert text[..actual][i] == '\0';
          return o.(isBinary := true);
        }
        i := i + 1;
      }
    }
  }

  /** What is printed for a line that is reported. */
  function Printout(o: Options, invert: bool, f: Finds, t: string): string
    requires |f| == |t| + 1
  {
    if StopsEarly(o) then ""
    else if !o.onlyMatching then t + "\n"
    else if invert then ""
    else if !o.wholeLines then Report(f, t, 0)
    else if t == "" then "" else t + "\n"
  }

  /** One line of a file (apps/grep.c:416-568): it is reported exactly when it is selected
      without -v, or not selected with -v. */
  method TakeLine(text: string, actual: nat, needle: Needle, o: Options, invert: bool)
    returns (o': Options, reported: bool, printed: string)
    requires actual < |text| && Searchable(o, needle)
    ensures o' == o.(isBinary := o.isBinary || '\0' in text[..actual])
    ensures reported <==> Selected(FindsOf(o', needle, text[..actual]), o.wholeLines) != invert
    ensures printed ==
            if reported then Printout(o', invert, FindsOf(o', needle, text[..actual]), text[..actual]) else ""
    ensures o.quiet || o.listFiles || o.counts || o'.isBinary || !reported ==> printed == ""
    ensures !(o.quiet || o.listFiles || o.counts || o'.isBinary) && reported && !o.onlyMatching ==>
              printed == text[..actual] + "\n"
  {
    o' := ScanForNul(text, actual, o);
    ghost var f := FindsOf(o', needle, text[..actual]);
    if invert {
      var rejected;
      rejected, printed := InvertLine(text, actual, needle, o', f);
      reported := !rejected;
    } else {
      reported, printed := MatchLine(text, actual, needle, o', f);
    }
  }

  // -------------------------------------------------------------- leftmost hits

  /** The hits are found from left to right, and none is left out. */
  lemma {:induction false} HitsAreLeftmost(f: Finds, j: nat)
    ensures Leftmost(f, j, Hits(f, j))
    decreases |f| - j
  {
    if j < |f| {
      if f[j].None? {
        HitsAreLeftmost(f, j + 1);
      } else {
        var next := After(j, f[j].value);
        HitsAreLeftmost(f, next);
        assert ([Hit(j, f[j].value)] + Hits(f, next))[1..] == Hits(f, next);
      }
    }
  }

  // ----------------------------------------------------------- selected lines

  /** What is found at an index without -F. */
  lemma FoundAt(o: Options, needle: Needle, t: string, j: nat, re: Regex)
    requires !o.fixed && j <= |t| && re == Parse(needle)
    ensures var found := FindsOf(o, needle, t)[j];
            (found.Some? <==> exists e: nat :: Commits(re, t, o.ignoreCase, j, e)) &&
            (found == Some(|t| - j) <==> Commits(re, t, o.ignoreCase, j, |t|))
  {
    FindsAt(o, needle, t, |t|, j);
    RunDecides(re, t, o.ignoreCase, j);
    WholeIsLongest(re, t, o.ignoreCase, j);
  }

  lemma WholeIsLongest(re: Regex, t: string, ignoreCase: bool, j: nat)
    ensures Longest(re, t, ignoreCase, j, |t|) <==> Commits(re, t, ignoreCase, j, |t|)
  {
  }

  /** Without -F a line is selected exactly when the pattern matches somewhere in it,
      and with -x exactly when it matches the whole line, groups being committed. */
  lemma SelectedWhenMatching(o: Options, needle: Needle, t: string, re: Regex)
    requires !o.fixed && re == Parse(needle)
    ensures Selected(FindsOf(o, needle, t), false) <==> exists j: nat, e: nat :: Commits(re, t, o.ignoreCase, j, e)
    ensures Selected(FindsOf(o, needle, t), true) <==> Commits(re, t, o.ignoreCase, 0, |t|)
  {
    var f := FindsOf(o, needle, t);
    if Selected(f, false) {
      var j: nat :| j < |f| && f[j].Some?;
      FoundAt(o, needle, t, j, re);
      var e: nat :| Commits(re, t, o.ignoreCase, j, e);
    }
    if j: nat, e: nat :| Commits(re, t, o.ignoreCase, j, e) {
      FoundAt(o, needle, t, j, re);
      assert exists k: nat :: Commits(re, t, o.ignoreCase, j, k);
      assert f[j].Some?;
    }
    FoundAt(o, needle, t, 0, re);
  }

  /** Said of patterns as they are written. */
  lemma WrittenSelects(o: Options, re: Regex, plain: bool, n: Needle, t: string)
    requires !o.fixed && GrepPrinter.Printable(re, true)
    requires n == GrepPrinter.Print(re, plain, GrepPrinter.AtStart, false)
    ensures Selected(FindsOf(o, n, t), false) <==> exists j: nat, e: nat :: Commits(re, t, o.ignoreCase, j, e)
    ensures Selected(FindsOf(o, n, t), true) <==> Commits(re, t, o.ignoreCase, 0, |t|)
  {
    GrepPrinter.PrintIsParsed(re, plain);
    SelectedWhenMatching(o, n, t, re);
  }

  /** If the groups leave no choice, this is matching in the plain sense. */
  lemma SelectedWhenRigid(o: Options, needle: Needle, t: string, re: Regex)
    requires !o.fixed && re == Parse(needle) && Rigid(re)
    ensures Selected(FindsOf(o, needle, t), false) <==> exists j: nat, e: nat :: Matches(re, t, o.ignoreCase, j, e)
    ensures Selected(FindsOf(o, needle, t), true) <==> Matches(re, t, o.ignoreCase, 0, |t|)
  {
    SelectedWhenMatching(o, needle, t, re);
    RigidAgrees(re, t, o.ignoreCase);
    if j: nat, e: nat :| Matches(re, t, o.ignoreCase, j, e) {
      assert Commits(re, t, o.ignoreCase, j, e);
    }
    if j: nat, e: nat :| Commits(re, t, o.ignoreCase, j, e) {
      assert Matches(re, t, o.ignoreCase, j, e);
    }
  }

  lemma RigidAgrees(re: Regex, t: string, ignoreCase: bool)
    requires Rigid(re)
    ensures forall j: nat, e: nat :: Commits(re, t, ignoreCase, j, e) <==> Matches(re, t, ignoreCase, j, e)
  {
    forall j: nat, e: nat ensures Commits(re, t, ignoreCase, j, e) <==> Matches(re, t, ignoreCase, j, e) {
      if Matches(re, t, ignoreCase, j, e) {
        RigidCommits(re, t, ignoreCase, j, e);
      }
      if Commits(re, t, ignoreCase, j, e) {
        CommitsMatches(re, t, ignoreCase, j, e);
      }
    }
  }
}
