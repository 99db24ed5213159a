/**
  What the parser of hexify makes of what its printer wrote (apps/hexify.c).
 */
module HexifyRoundTrip {
  import opened Basics
  import opened Hexify

  // ------------------------------------------------------------------ single reads

  lemma {:induction false} FeedAppend(s: string, t: string, rest: Stream)
    ensures Feed(s + t, rest) == Feed(s, Feed(t, rest))
  {
    if s == "" {
      assert s + t == t;
    } else {
      assert (s + t)[1..] == s[1..] + t;
      FeedAppend(s[1..], t, rest);
    }
  }

  /** A read that finds enough text takes it. */
  lemma {:induction false} ReadExact(s: string, rest: Stream, buffer: string)
    requires |s| == |buffer|
    ensures Read(In(Feed(s, rest), false), buffer) == (s, In(rest, false))
  {
    if s != "" {
      ReadExact(s[1..], rest, buffer[1..]);
      assert s == [s[0]] + s[1..];
    }
  }

  lemma DigitsRead(digits: string, b: Byte, rest: Stream, tmp: string, out: seq<Byte>)
    requires |tmp| == |digits| == 2 && digits != "  " && HexValue(digits) == Some(b)
    ensures ReadByte(Cursor(In(Feed(digits, rest), false), tmp, out)) == Go(Cursor(In(rest, false), digits, out + [b]))
  {
    ReadExact(digits, rest, tmp);
  }

  lemma ByteDigits(b: Byte)
    ensures HexValue(HexWord(b, 2)) == Some(b) && HexWord(b, 2) != "  "
  {
    assert Pow16(2) == 256;
    WordRoundTrip(b, 2);
    BadDigit("  ", 0);
  }

  lemma ByteRoundTrip(b: Byte, rest: Stream, tmp: string, out: seq<Byte>)
    requires |tmp| == 2
    ensures ReadByte(Cursor(In(Feed(HexWord(b, 2), rest), false), tmp, out)) ==
            Go(Cursor(In(rest, false), HexWord(b, 2), out + [b]))
  {
    ByteDigits(b);
    DigitsRead(HexWord(b, 2), b, rest, tmp, out);
  }

  /** Two blanks end the data. */
  lemma BlankHalts(rest: Stream, tmp: string, out: seq<Byte>)
    requires |tmp| == 2
    ensures ReadByte(Cursor(In(Feed("  ", rest), false), tmp, out)) == Halt(out)
  {
    ReadExact("  ", rest, tmp);
  }

  lemma SpaceRoundTrip(rest: Stream, tmp: string, out: seq<Byte>)
    requires |tmp| == 2
    ensures ReadSpace(Cursor(In(Feed(" ", rest), false), tmp, out)) == Go(Cursor(In(rest, false), " " + tmp[1..], out))
  {
    ReadExact(" ", rest, tmp[..1]);
  }

  /** Two bytes and the space after them. */
  lemma PairRoundTrip(a: Byte, b: Byte, rest: Stream, tmp: string, out: seq<Byte>)
    requires |tmp| == 2
    ensures var inp := In(Feed(HexWord(a, 2), Feed(HexWord(b, 2), Feed(" ", rest))), false);
            var r := ReadPair(Cursor(inp, tmp, out), true);
            r.Go? && r.c.inp == In(rest, false) && r.c.out == out + [a, b] && |r.c.tmp| == 2
  {
    ByteRoundTrip(a, Feed(HexWord(b, 2), Feed(" ", rest)), tmp, out);
    ByteRoundTrip(b, Feed(" ", rest), HexWord(a, 2), out + [a]);
    SpaceRoundTrip(rest, HexWord(b, 2), (out + [a]) + [b]);
    assert (out + [a]) + [b] == out + [a, b];
  }

  /** The last byte of an odd number of them. */
  lemma LastRoundTrip(a: Byte, rest: Stream, tmp: string, out: seq<Byte>)
    requires |tmp| == 2
    ensures var r := ReadPair(Cursor(In(Feed(HexWord(a, 2), Feed(" ", rest)), false), tmp, out), false);
            r.Go? && r.c.inp == In(rest, false) && r.c.out == out + [a] && |r.c.tmp| == 2
  {
    ByteRoundTrip(a, Feed(" ", rest), tmp, out);
    SpaceRoundTrip(rest, HexWord(a, 2), out + [a]);
  }

  // ------------------------------------------------------------- the bytes of a line

  lemma CellRead(buf: seq<Byte>, i: nat, width: nat, rest: Stream)
    requires i < width
    ensures Feed(Cells(buf, i, width), rest) ==
            Feed(Digits(buf, i), Feed(if i % 2 == 1 then " " else "", Feed(Cells(buf, i + 1, width), rest)))
  {
    var space := if i % 2 == 1 then " " else "";
    var others := Cells(buf, i + 1, width);
    assert Cells(buf, i, width) == (Digits(buf, i) + space) + others;
    FeedAppend(Digits(buf, i) + space, others, rest);
    FeedAppend(Digits(buf, i), space, Feed(others, rest));
  }

  /** The text of two cells. */
  lemma PairOfCells(buf: seq<Byte>, i: nat, width: nat, rest: Stream)
    requires i % 2 == 0 && i + 1 < width
    ensures Feed(Cells(buf, i, width), rest) ==
            Feed(Digits(buf, i), Feed(Digits(buf, i + 1), Feed(" ", Feed(Cells(buf, i + 2, width), rest))))
  {
    CellRead(buf, i, width, rest);
    CellRead(buf, i + 1, width, rest);
  }

  /** What is left of the text when the bytes of a full line are read: with an odd width
      the space due after the last byte is taken from the separator. */
  function AfterCells(width: nat, rest: Stream): Stream {
    if width % 2 == 0 then Feed(" ", rest) else rest
  }

  /** Two bytes of a line. */
  lemma PairOfLine(buf: seq<Byte>, i: nat, width: nat, rest: Stream, c: Cursor)
    requires i % 2 == 0 && i + 1 < |buf| <= width && |c.tmp| == 2
    requires c.inp == In(Feed(Cells(buf, i, width), rest), false)
    ensures var r := ReadPair(c, true);
            r.Go? && r.c.inp == In(Feed(Cells(buf, i + 2, width), rest), false) &&
            r.c.out == c.out + [buf[i], buf[i + 1]]
  {
    PairOfCells(buf, i, width, rest);
    PairRoundTrip(buf[i], buf[i + 1], Feed(Cells(buf, i + 2, width), rest), c.tmp, c.out);
  }

  lemma PairAppended(out: seq<Byte>, buf: seq<Byte>, i: nat)
    requires i + 1 < |buf|
    ensures out + [buf[i], buf[i + 1]] + buf[i + 2..] == out + buf[i..]
  {
  }

  /** The last byte of an odd line: its space is taken from the separator. */
  lemma OddEnd(buf: seq<Byte>, i: nat, rest: Stream, c: Cursor)
    requires i % 2 == 0 && i + 1 == |buf| && |c.tmp| == 2
    requires c.inp == In(Feed(Cells(buf, i, |buf|), Feed(" ", rest)), false)
    ensures var r := DecodeCells(|buf|, i, c);
            r.Go? && r.c.inp == In(rest, false) && r.c.out == c.out + [buf[i]]
  {
    CellRead(buf, i, i + 1, Feed(" ", rest));
    LastRoundTrip(buf[i], rest, c.tmp, c.out);
  }

  /** The bytes of a full line. */
  lemma {:induction false} FullCells(buf: seq<Byte>, i: nat, rest: Stream, c: Cursor)
    requires i % 2 == 0 && i <= |buf| && |c.tmp| == 2
    requires c.inp == In(Feed(Cells(buf, i, |buf|), Feed(" ", rest)), false)
    ensures var r := DecodeCells(|buf|, i, c);
            r.Go? && r.c.inp == In(AfterCells(|buf|, rest), false) && r.c.out == c.out + buf[i..]
    decreases |buf| - i
  {
    if i == |buf| {
      assert c.out + buf[i..] == c.out;
    } else if i + 1 == |buf| {
      OddEnd(buf, i, rest, c);
    } else {
      PairOfLine(buf, i, |buf|, Feed(" ", rest), c);
      FullCells(buf, i + 2, rest, ReadPair(c, true).c);
      PairAppended(c.out, buf, i);
    }
  }

  /** The first blank of a short line. */
  lemma BlankOfLine(buf: seq<Byte>, width: nat, i: nat, rest: Stream, c: Cursor)
    requires i % 2 == 0 && |buf| - 1 <= i <= |buf| < width && |c.tmp| == 2
    requires c.inp == In(Feed(Cells(buf, i, width), rest), false)
    ensures ReadPair(c, i + 1 < width) == Halt(c.out + buf[i..])
  {
    if i == |buf| {
      CellRead(buf, i, width, rest);
      BlankHalts(Feed("", Feed(Cells(buf, i + 1, width), rest)), c.tmp, c.out);
      assert c.out + buf[i..] == c.out;
    } else {
      PairOfCells(buf, i, width, rest);
      var rest1 := Feed(" ", Feed(Cells(buf, i + 2, width), rest));
      ByteRoundTrip(buf[i], Feed("  ", rest1), c.tmp, c.out);
      BlankHalts(rest1, HexWord(buf[i], 2), c.out + [buf[i]]);
      assert buf[i..] == [buf[i]];
    }
  }

  /** The bytes of a short line: reading stops at its first blank. */
  lemma {:induction false} ShortCells(buf: seq<Byte>, width: nat, i: nat, rest: Stream, c: Cursor)
    requires i % 2 == 0 && i <= |buf| < width && |c.tmp| == 2
    requires c.inp == In(Feed(Cells(buf, i, width), rest), false)
    ensures DecodeCells(width, i, c) == Halt(c.out + buf[i..])
    decreases |buf| - i
  {
    if |buf| - 1 <= i {
      BlankOfLine(buf, width, i, rest, c);
    } else {
      PairOfLine(buf, i, width, rest, c);
      ShortCells(buf, width, i + 2, rest, ReadPair(c, true).c);
      PairAppended(c.out, buf, i);
    }
  }

  // ------------------------------------------------------------------------- lines

  lemma FeedSix(a: string, b: string, c: string, d: string, e: string, f: string, rest: Stream)
    ensures Feed(a + (b + (c + (d + (e + f)))), rest) == Feed(a, Feed(b, Feed(c, Feed(d, Feed(e, Feed(f, rest))))))
  {
    FeedAppend(e, f, rest);
    FeedAppend(d, e + f, rest);
    FeedAppend(c, d + (e + f), rest);
    FeedAppend(b, c + (d + (e + f)), rest);
    FeedAppend(a, b + (c + (d + (e + f))), rest);
  }

  /** The text after the bytes of a line, without the separator. */
  function Tail(buf: seq<Byte>, width: nat, rest: Stream): Stream {
    Feed(Text(buf, 0, width), Feed("\n", rest))
  }

  lemma LineParts(buf: seq<Byte>, width: nat, sizer: nat, rest: Stream)
    ensures Feed(Line(buf, width, sizer), rest) ==
            Feed(Offset(sizer), Feed(": ", Feed(Cells(buf, 0, width), Feed(" ", Tail(buf, width, rest)))))
  {
    GlueSix(Offset(sizer), ": ", Cells(buf, 0, width), " ", Text(buf, 0, width), "\n");
    FeedSix(Offset(sizer), ": ", Cells(buf, 0, width), " ", Text(buf, 0, width), "\n", rest);
  }

  lemma OffsetDigits(sizer: nat)
    requires sizer < 0x1_0000_0000
    ensures |Offset(sizer)| == 8 && HexValue(Offset(sizer)) == Some(sizer)
  {
    EightDigits();
    WordRoundTrip(sizer, 8);
  }

  lemma EightDigits()
    ensures Pow16(8) == 0x1_0000_0000
  {
    assert Pow16(4) == 0x1_0000;
  }

  /** The offset of a line is read when it is the expected one. */
  lemma OffsetRoundTrip(sizer: nat, rest: Stream, junk: Junk)
    requires sizer < 0x1_0000_0000
    ensures ReadOffset(sizer, In(Feed(Offset(sizer), Feed(": ", rest)), false), junk) ==
            Go(Cursor(In(rest, false), ": ", []))
  {
    OffsetDigits(sizer);
    ReadExact(Offset(sizer), Feed(": ", rest), junk.offset);
    ReadExact(": ", rest, junk.tmp);
  }

  /** A line stops the parser when its offset is not the expected one, or is no number. */
  lemma WrongOffset(offset: string, eoffset: nat, width: nat, rest: Stream, junk: Junk)
    requires |offset| == 8 && HexValue(offset) != Some(eoffset)
    ensures DecodeLine(width, eoffset, In(Feed(offset, rest), false), junk) == Halt([])
  {
    ReadExact(offset, rest, junk.offset);
    LineByParts(width, eoffset, In(Feed(offset, rest), false), junk);
  }

  /** So it does when no colon and space follow. */
  lemma WrongColon(eoffset: nat, colon: string, width: nat, rest: Stream, junk: Junk)
    requires eoffset < 0x1_0000_0000 && |colon| == 2 && colon != ": "
    ensures DecodeLine(width, eoffset, In(Feed(Offset(eoffset), Feed(colon, rest)), false), junk) == Halt([])
  {
    OffsetDigits(eoffset);
    ReadExact(Offset(eoffset), Feed(colon, rest), junk.offset);
    ReadExact(colon, rest, junk.tmp);
    LineByParts(width, eoffset, In(Feed(Offset(eoffset), Feed(colon, rest)), false), junk);
  }

  lemma {:induction false} ValueBound(s: string)
    ensures HexValue(s).Some? ==> HexValue(s).value < Pow16(|s|)
  {
    if s != "" {
      ValueBound(s[..|s| - 1]);
    }
  }

  /** From 2^32 on an offset has more digits than are read. */
  lemma LongOffset(sizer: nat, rest: Stream, junk: Junk)
    requires sizer >= 0x1_0000_0000
    ensures ReadOffset(sizer, In(Feed(Offset(sizer), rest), false), junk) == Halt([])
  {
    var s := Offset(sizer);
    assert s == s[..8] + s[8..];
    FeedAppend(s[..8], s[8..], rest);
    ReadExact(s[..8], Feed(s[8..], rest), junk.offset);
    EightDigits();
    ValueBound(s[..8]);
  }

  lemma {:induction false} SkipExact(s: string, rest: Stream)
    ensures Skip(In(Feed(s, rest), false), |s|) == In(rest, false)
  {
    if s != "" {
      SkipExact(s[1..], rest);
    }
  }

  /** Separator, text and line feed. */
  lemma EvenSkip(text: string, rest: Stream)
    ensures SkipText(|text|, In(Feed(" ", Feed(text, Feed("\n", rest))), false)) == In(rest, false)
  {
    SkipExact(" ", Feed(text, Feed("\n", rest)));
    FeedAppend(text, "\n", rest);
    SkipExact(text + "\n", rest);
  }

  lemma SkipOneMore(s: string, rest: Stream)
    ensures Skip(In(Feed(s, rest), false), |s| + 1) == if rest.End? then In(End, true) else In(rest.tail, false)
  {
    if s != "" {
      SkipOneMore(s[1..], rest);
    }
  }

  /** Without the separator the first character of the next line goes too. */
  lemma OddSkip(text: string, rest: Stream)
    requires |text| > 0
    ensures SkipText(|text|, In(Feed(text, Feed("\n", rest)), false)) ==
            if rest.End? then In(End, true) else In(rest.tail, false)
  {
    var others := text[1..] + "\n";
    assert |others| == |text|;
    var tail := Feed(text[1..], Feed("\n", rest));
    assert Feed(others, rest) == tail by { FeedAppend(text[1..], "\n", rest); }
    assert Skip(In(Feed(text, Feed("\n", rest)), false), 1) == In(tail, false) by {
      assert Skip(In(tail, false), 0) == In(tail, false);
    }
    SkipOneMore(others, rest);
  }

  lemma LineOf(width: nat, sizer: nat, inp: In, junk: Junk, start: Cursor, c: Cursor)
    requires |start.tmp| == |c.tmp| == 2
    requires ReadOffset(sizer, inp, junk) == Go(start) && DecodeCells(width, 0, start) == Go(c)
    ensures DecodeLine(width, sizer, inp, junk) == Go(c.(inp := SkipText(width, c.inp)))
  {
    LineByParts(width, sizer, inp, junk);
  }

  /** The bytes of a full line, and what is left after them. */
  lemma FullLine(buf: seq<Byte>, sizer: nat, rest: Stream, junk: Junk) returns (c: Cursor)
    requires sizer < 0x1_0000_0000
    ensures |c.tmp| == 2 && c.out == buf && c.inp == In(AfterCells(|buf|, Tail(buf, |buf|, rest)), false)
    ensures DecodeLine(|buf|, sizer, In(Feed(Line(buf, |buf|, sizer), rest), false), junk) ==
            Go(c.(inp := SkipText(|buf|, c.inp)))
  {
    var width := |buf|;
    LineParts(buf, width, sizer, rest);
    var cells := Feed(Cells(buf, 0, width), Feed(" ", Tail(buf, width, rest)));
    OffsetRoundTrip(sizer, cells, junk);
    var start := Cursor(In(cells, false), ": ", []);
    FullCells(buf, 0, Tail(buf, width, rest), start);
    assert [] + buf[0..] == buf;
    c := DecodeCells(width, 0, start).c;
    LineOf(width, sizer, In(Feed(Line(buf, width, sizer), rest), false), junk, start, c);
  }

  /** A full line of even width. */
  lemma EvenLine(buf: seq<Byte>, sizer: nat, rest: Stream, junk: Junk)
    requires |buf| % 2 == 0 && sizer < 0x1_0000_0000
    ensures var r := DecodeLine(|buf|, sizer, In(Feed(Line(buf, |buf|, sizer), rest), false), junk);
            r.Go? && r.c.inp == In(rest, false) && r.c.out == buf
  {
    var c := FullLine(buf, sizer, rest, junk);
    EvenSkip(Text(buf, 0, |buf|), rest);
  }

  lemma OddTail(buf: seq<Byte>, rest: Stream, c: Cursor)
    requires |buf| % 2 == 1 && c.inp == In(AfterCells(|buf|, Tail(buf, |buf|, rest)), false)
    ensures SkipText(|buf|, c.inp) == if rest.End? then In(End, true) else In(rest.tail, false)
  {
    OddSkip(Text(buf, 0, |buf|), rest);
  }

  /** A full line of odd width. */
  lemma OddLine(buf: seq<Byte>, sizer: nat, rest: Stream, junk: Junk)
    requires |buf| % 2 == 1 && sizer < 0x1_0000_0000
    ensures var r := DecodeLine(|buf|, sizer, In(Feed(Line(buf, |buf|, sizer), rest), false), junk);
            r.Go? && r.c.inp == (if rest.End? then In(End, true) else In(rest.tail, false)) && r.c.out == buf
  {
    var c := FullLine(buf, sizer, rest, junk);
    OddTail(buf, rest, c);
  }

  /** The last, short line. */
  lemma ShortLine(buf: seq<Byte>, width: nat, sizer: nat, rest: Stream, junk: Junk)
    requires |buf| < width && sizer < 0x1_0000_0000
    ensures DecodeLine(width, sizer, In(Feed(Line(buf, width, sizer), rest), false), junk) == Halt(buf)
  {
    var tail := Feed(" ", Tail(buf, width, rest));
    LineParts(buf, width, sizer, rest);
    OffsetRoundTrip(sizer, Feed(Cells(buf, 0, width), tail), junk);
    ShortCells(buf, width, 0, tail, Cursor(In(Feed(Cells(buf, 0, width), tail), false), ": ", []));
    assert [] + buf[0..] == buf;
  }

  /** A line whose offset is out of range. */
  lemma LongLine(buf: seq<Byte>, width: nat, sizer: nat, rest: Stream, junk: Junk)
    requires sizer >= 0x1_0000_0000
    ensures DecodeLine(width, sizer, In(Feed(Line(buf, width, sizer), rest), false), junk) == Halt([])
  {
    LineParts(buf, width, sizer, rest);
    LongOffset(sizer, Feed(": ", Feed(Cells(buf, 0, width), Feed(" ", Tail(buf, width, rest)))), junk);
  }

  /** A line that lost its first character. */
  lemma ClippedLine(buf: seq<Byte>, width: nat, sizer: nat, rest: Stream, junk: Junk)
    requires sizer < 0x1_0000_0000
    ensures var line := Feed(Line(buf, width, sizer), rest);
            line.Char? && DecodeLine(width, sizer, In(line.tail, false), junk) == Halt([])
  {
    OffsetDigits(sizer);
    LineParts(buf, width, sizer, rest);
    var digits := Offset(sizer)[1..];
    var cells := Feed(Cells(buf, 0, width), Feed(" ", Tail(buf, width, rest)));
    FeedAppend(":", " ", cells);
    FeedAppend(digits, ":", Feed(" ", cells));
    ReadExact(digits + ":", Feed(" ", cells), junk.offset);
    BadDigit(digits + ":", 7);
  }

  /** At the end of the file nothing is written, whatever the stale buffers hold. */
  lemma EmptyLine(width: nat, eoffset: nat, junk: Junk)
    requires width > 0
    ensures DecodeLine(width, eoffset, In(End, false), junk) == Halt([])
  {
    var start := ReadOffset(eoffset, In(End, false), junk);
    if start.Go? {
      assert start.c == Cursor(In(End, true), ": ", []);
      assert Read(start.c.inp, ": ") == (": ", In(End, true));
      BadDigit(": ", 0);
    }
  }

  // -------------------------------------------------------------------- whole files

  /** How many lines have an offset of eight digits. */
  function LineLimit(width: nat): nat
    requires width > 0
  {
    (0x1_0000_0000 + width - 1) / width
  }

  /** The first n bytes, or all when there are fewer. */
  function Upto(data: seq<Byte>, n: nat): seq<Byte> {
    if |data| <= n then data else data[..n]
  }

  /** How many bytes of a dump can come back. */
  function Limit(width: nat): nat
    requires width > 0
  {
    if width % 2 == 1 then width else LineLimit(width) * width
  }

  /** The dump as the decode loop finds it, from offset sizer on. */
  function Sheet(data: seq<Byte>, width: nat, sizer: nat): Stream
    requires width > 0
    decreases |data| - sizer
  {
    if sizer >= |data| then End
    else if sizer + width >= |data| then Feed(Line(data[sizer..], width, sizer), End)
    else Feed(Line(data[sizer..sizer + width], width, sizer), Sheet(data, width, sizer + width))
  }

  lemma {:induction false} SheetIsDump(data: seq<Byte>, width: nat, sizer: nat)
    requires width > 0
    ensures Sheet(data, width, sizer) == Feed(DumpFrom(data, width, sizer), End)
    decreases |data| - sizer
  {
    if sizer + width < |data| {
      var line, rest := Line(data[sizer..sizer + width], width, sizer), DumpFrom(data, width, sizer + width);
      SheetIsDump(data, width, sizer + width);
      FeedAppend(line, rest, End);
      assert DumpFrom(data, width, sizer) == line + rest;
    }
  }

  /** The decode loop in front of the dump of data from its expected offset on. */
  ghost predicate Ahead(data: seq<Byte>, width: nat, t: Turn)
    requires width > 0
  {
    !t.over && t.eoffset <= |data| && t.inp == In(Sheet(data, width, t.eoffset), false)
  }

  lemma NextOfGo(width: nat, t: Turn, memory: Memory, c: Cursor)
    requires !t.inp.eof && DecodeLine(width, t.eoffset, t.inp, memory(t.lineno)) == Go(c)
    ensures Next(width, t, memory) == Turn(t.out + c.out, c.inp, t.eoffset + width, t.lineno + 1, false)
  {
  }

  lemma NextOfHalt(width: nat, t: Turn, memory: Memory, out: seq<Byte>)
    requires !t.inp.eof && DecodeLine(width, t.eoffset, t.inp, memory(t.lineno)) == Halt(out)
    ensures Next(width, t, memory) == t.(out := t.out + out, over := true)
  {
  }

  /** The first line of a dump. */
  lemma FirstLine(data: seq<Byte>, width: nat, sizer: nat, buf: seq<Byte>)
    requires 0 < width && sizer + width <= |data| && buf == data[sizer..sizer + width]
    ensures Sheet(data, width, sizer) == Feed(Line(buf, width, sizer), Sheet(data, width, sizer + width))
  {
    var line := Line(buf, width, sizer);
    if sizer + width == |data| {
      assert buf == data[sizer..];
      assert Sheet(data, width, sizer) == Feed(line, End);
    } else {
      assert Sheet(data, width, sizer) == Feed(line, Sheet(data, width, sizer + width));
    }
  }

  /** A full line of even width is written. */
  lemma LineTurn(width: nat, t: Turn, memory: Memory, buf: seq<Byte>, rest: Stream, next: Turn)
    requires |buf| == width && width % 2 == 0 && t.eoffset < 0x1_0000_0000 && !t.over
    requires t.inp == In(Feed(Line(buf, width, t.eoffset), rest), false)
    requires next == Turn(t.out + buf, In(rest, false), t.eoffset + width, t.lineno + 1, false)
    ensures Finish(width, next, memory) == Finish(width, t, memory)
  {
    EvenLine(buf, t.eoffset, rest, memory(t.lineno));
    NextOfGo(width, t, memory, DecodeLine(width, t.eoffset, t.inp, memory(t.lineno)).c);
    FinishNext(width, t, memory, next);
  }

  /** Where the loop stands after a line. */
  function GoOn(data: seq<Byte>, width: nat, t: Turn, buf: seq<Byte>): (next: Turn)
    requires width > 0 && t.eoffset + width <= |data|
    ensures Ahead(data, width, next) && next.out == t.out + buf && next.eoffset == t.eoffset + width
  {
    var offset := t.eoffset + width;
    Turn(t.out + buf, In(Sheet(data, width, offset), false), offset, t.lineno + 1, false)
  }

  /** The dump goes on after it. */
  lemma FullTurn(data: seq<Byte>, width: nat, t: Turn, memory: Memory, buf: seq<Byte>)
    requires width > 0 && width % 2 == 0 && Ahead(data, width, t)
    requires t.eoffset + width <= |data| && t.eoffset < 0x1_0000_0000 && buf == data[t.eoffset..t.eoffset + width]
    ensures Finish(width, GoOn(data, width, t, buf), memory) == Finish(width, t, memory)
  {
    FirstLine(data, width, t.eoffset, buf);
    LineTurn(width, t, memory, buf, Sheet(data, width, t.eoffset + width), GoOn(data, width, t, buf));
  }

  /** The last line, which is short, or none. */
  lemma LastTurn(data: seq<Byte>, width: nat, t: Turn, memory: Memory)
    requires width > 0 && Ahead(data, width, t) && |data| < t.eoffset + width && t.eoffset < 0x1_0000_0000
    ensures Next(width, t, memory) == t.(out := t.out + data[t.eoffset..], over := true)
  {
    if t.eoffset == |data| {
      EmptyLine(width, t.eoffset, memory(t.lineno));
      assert data[t.eoffset..] == [];
    } else {
      ShortLine(data[t.eoffset..], width, t.eoffset, End, memory(t.lineno));
    }
    NextOfHalt(width, t, memory, data[t.eoffset..]);
  }

  /** A line that is out of range ends the data. */
  lemma LongLineTurn(width: nat, t: Turn, memory: Memory, buf: seq<Byte>, rest: Stream)
    requires t.eoffset >= 0x1_0000_0000 && t.inp == In(Feed(Line(buf, width, t.eoffset), rest), false)
    ensures Next(width, t, memory) == t.(out := t.out + [], over := true)
  {
    LongLine(buf, width, t.eoffset, rest, memory(t.lineno));
    NextOfHalt(width, t, memory, []);
  }

  /** So does the end of the file. */
  lemma EndTurn(width: nat, t: Turn, memory: Memory)
    requires width > 0 && t.inp == In(End, false)
    ensures Next(width, t, memory) == t.(out := t.out + [], over := true)
  {
    EmptyLine(width, t.eoffset, memory(t.lineno));
    NextOfHalt(width, t, memory, []);
  }

  /** Some line is the first, as long as there is one. */
  lemma SomeLine(data: seq<Byte>, width: nat, sizer: nat) returns (buf: seq<Byte>, rest: Stream)
    requires 0 < width && sizer < |data|
    ensures Sheet(data, width, sizer) == Feed(Line(buf, width, sizer), rest)
  {
    if sizer + width >= |data| {
      buf, rest := data[sizer..], End;
    } else {
      buf, rest := data[sizer..sizer + width], Sheet(data, width, sizer + width);
    }
  }

  lemma LongTurn(data: seq<Byte>, width: nat, t: Turn, memory: Memory)
    requires width > 0 && Ahead(data, width, t) && t.eoffset >= 0x1_0000_0000
    ensures Next(width, t, memory) == t.(out := t.out + [], over := true)
  {
    if t.eoffset == |data| {
      EndTurn(width, t, memory);
    } else {
      var buf, rest := SomeLine(data, width, t.eoffset);
      LongLineTurn(width, t, memory, buf, rest);
    }
  }

  /** How many bytes from offset sizer on are in lines whose offset has eight digits. */
  function Room(width: nat, sizer: nat): nat
    requires width > 0
    decreases 0x1_0000_0000 - sizer
  {
    if sizer >= 0x1_0000_0000 then 0 else width + Room(width, sizer + width)
  }

  /** The last turn. */
  lemma LastFinish(data: seq<Byte>, width: nat, t: Turn, memory: Memory)
    requires width > 0 && Ahead(data, width, t) && (t.eoffset >= 0x1_0000_0000 || |data| < t.eoffset + width)
    ensures Finish(width, t, memory) == t.out + Upto(data[t.eoffset..], Room(width, t.eoffset))
  {
    FinishNext(width, t, memory, Next(width, t, memory));
    if t.eoffset >= 0x1_0000_0000 {
      LongTurn(data, width, t, memory);
      assert Upto(data[t.eoffset..], 0) == [];
    } else {
      LastTurn(data, width, t, memory);
      assert Upto(data[t.eoffset..], Room(width, t.eoffset)) == data[t.eoffset..];
    }
  }

  /** Lines of even width. */
  lemma {:induction false} EvenRoundTrip(data: seq<Byte>, width: nat, t: Turn, memory: Memory)
    requires width > 0 && width % 2 == 0 && Ahead(data, width, t)
    ensures Finish(width, t, memory) == t.out + Upto(data[t.eoffset..], Room(width, t.eoffset))
    decreases |data| - t.eoffset
  {
    if t.eoffset >= 0x1_0000_0000 || |data| < t.eoffset + width {
      LastFinish(data, width, t, memory);
    } else {
      var buf := data[t.eoffset..t.eoffset + width];
      var next := GoOn(data, width, t, buf);
      FullTurn(data, width, t, memory, buf);
      EvenRoundTrip(data, width, next, memory);
      UptoRoom(data, width, t.eoffset, t.out, Finish(width, next, memory));
    }
  }

  lemma UptoRoom(data: seq<Byte>, width: nat, sizer: nat, out: seq<Byte>, all: seq<Byte>)
    requires 0 < width && sizer + width <= |data| && sizer < 0x1_0000_0000
    requires all == (out + data[sizer..sizer + width]) + Upto(data[sizer + width..], Room(width, sizer + width))
    ensures all == out + Upto(data[sizer..], Room(width, sizer))
  {
    UptoStep(data, width, sizer, Room(width, sizer + width));
    Concat3(out, data[sizer..sizer + width], Upto(data[sizer + width..], Room(width, sizer + width)));
  }

  lemma UptoStep(data: seq<Byte>, width: nat, sizer: nat, n: nat)
    requires sizer + width <= |data|
    ensures data[sizer..sizer + width] + Upto(data[sizer + width..], n) == Upto(data[sizer..], width + n)
  {
  }

  lemma {:induction false} RoomIs(width: nat, sizer: nat, n: nat)
    requires width > 0
    requires 0x1_0000_0000 <= sizer + n * width && (n > 0 ==> sizer + n * width - width < 0x1_0000_0000)
    ensures Room(width, sizer) == n * width
    decreases n
  {
    if n > 0 {
      assert n * width == (n - 1) * width + width;
      RoomIs(width, sizer + width, n - 1);
    }
  }

  function Clipped(rest: Stream): In {
    if rest.End? then In(End, true) else In(rest.tail, false)
  }

  /** A full line of odd width is written, and the next line is clipped. */
  lemma OddLineTurn(width: nat, t: Turn, memory: Memory, buf: seq<Byte>, rest: Stream, next: Turn)
    requires |buf| == width && width % 2 == 1 && t.eoffset < 0x1_0000_0000
    requires t.inp == In(Feed(Line(buf, width, t.eoffset), rest), false)
    requires next == Turn(t.out + buf, Clipped(rest), t.eoffset + width, t.lineno + 1, false)
    ensures Next(width, t, memory) == next
  {
    OddLine(buf, t.eoffset, rest, memory(t.lineno));
    NextOfGo(width, t, memory, DecodeLine(width, t.eoffset, t.inp, memory(t.lineno)).c);
  }

  /** Where the loop stands then. */
  function ClipOn(data: seq<Byte>, width: nat, t: Turn, buf: seq<Byte>): Turn
    requires width > 0
  {
    Turn(t.out + buf, Clipped(Sheet(data, width, t.eoffset + width)), t.eoffset + width, t.lineno + 1, false)
  }

  lemma OddTurn(data: seq<Byte>, width: nat, t: Turn, memory: Memory, buf: seq<Byte>)
    requires width > 0 && width % 2 == 1 && Ahead(data, width, t)
    requires t.eoffset + width <= |data| && t.eoffset < 0x1_0000_0000 && buf == data[t.eoffset..t.eoffset + width]
    ensures Next(width, t, memory) == ClipOn(data, width, t, buf)
  {
    FirstLine(data, width, t.eoffset, buf);
    OddLineTurn(width, t, memory, buf, Sheet(data, width, t.eoffset + width), ClipOn(data, width, t, buf));
  }

  /** A clipped line ends the data, and so does the end of the file. */
  lemma ClippedFinish(data: seq<Byte>, width: nat, t: Turn, memory: Memory)
    requires 0 < width && t.eoffset <= |data| && t.eoffset < 0x1_0000_0000 && !t.over
    requires t.inp == Clipped(Sheet(data, width, t.eoffset))
    ensures Finish(width, t, memory) == t.out
  {
    if t.eoffset < |data| {
      ClippedTurn(data, width, t.eoffset, memory(t.lineno));
      NextOfHalt(width, t, memory, []);
      FinishNext(width, t, memory, Next(width, t, memory));
      assert t.out + [] == t.out;
    }
  }

  lemma OddFinish(data: seq<Byte>, width: nat, t: Turn, memory: Memory, buf: seq<Byte>)
    requires width > 0 && width % 2 == 1 && Ahead(data, width, t)
    requires t.eoffset + width <= |data| && t.eoffset + width < 0x1_0000_0000
    requires buf == data[t.eoffset..t.eoffset + width]
    ensures Finish(width, t, memory) == t.out + buf
  {
    var next := ClipOn(data, width, t, buf);
    OddTurn(data, width, t, memory, buf);
    FinishNext(width, t, memory, next);
    ClippedFinish(data, width, next, memory);
  }

  lemma ClippedTurn(data: seq<Byte>, width: nat, sizer: nat, junk: Junk)
    requires 0 < width && sizer < |data| && sizer < 0x1_0000_0000
    ensures var rest := Sheet(data, width, sizer);
            rest.Char? && DecodeLine(width, sizer, In(rest.tail, false), junk) == Halt([])
  {
    var buf, rest := SomeLine(data, width, sizer);
    ClippedLine(buf, width, sizer, rest, junk);
  }

  /** Of lines of odd width the parser keeps the first. */
  lemma OddRoundTrip(data: seq<Byte>, width: nat, memory: Memory)
    requires width % 2 == 1 && width < 0x1_0000_0000
    ensures Decode(width, Dump(data, width), memory) == Upto(data, width)
  {
    var t := Turn([], In(Feed(Dump(data, width), End), false), 0, 1, false);
    SheetIsDump(data, width, 0);
    assert data[0..] == data;
    if |data| < width {
      LastTurn(data, width, t, memory);
      FinishNext(width, t, memory, Next(width, t, memory));
    } else {
      OddFinish(data, width, t, memory, data[..width]);
    }
  }

  /** What `hexify -d` makes of every dump: the bytes that were dumped, up to the first
      line it cannot read. */
  lemma RoundTrip(data: seq<Byte>, width: nat, memory: Memory)
    requires 0 < width <= 256
    ensures Decode(width, Dump(data, width), memory) == Upto(data, Limit(width))
  {
    if width % 2 == 1 {
      OddRoundTrip(data, width, memory);
    } else {
      LimitBounds(width);
      SheetIsDump(data, width, 0);
      RoomIs(width, 0, LineLimit(width));
      EvenRoundTrip(data, width, Turn([], In(Feed(Dump(data, width), End), false), 0, 1, false), memory);
      assert data[0..] == data;
    }
  }

  lemma LimitBounds(width: nat)
    requires 0 < width
    ensures 0x1_0000_0000 <= LineLimit(width) * width < 0x1_0000_0000 + width
  {
    var top := 0x1_0000_0000 + width - 1;
    assert top == top / width * width + top % width;
  }

  /** The dump comes back whole exactly for even widths, as long as offsets have eight
      digits, and for a single line. */
  lemma ComesBackWhole(data: seq<Byte>, width: nat, memory: Memory)
    requires 0 < width <= 256
    ensures Decode(width, Dump(data, width), memory) == data <==>
            |data| <= width || (width % 2 == 0 && |data| <= LineLimit(width) * width)
  {
    RoundTrip(data, width, memory);
    LimitBounds(width);
  }
}
