/**
  hexify (apps/hexify.c): the hex dump that it prints and the parser that turns it
  back into bytes.
 */
module Hexify {
  import opened Basics

  type Byte = b: int | 0 <= b < 256

  // ---------------------------------------------------------------------- digits

  function HexDigit(v: nat): (c: char)
    requires v < 16
  {
    if v < 10 then '0' + v as char else 'a' + (v - 10) as char
  }

  function DigitValue(c: char): Option<nat> {
    if '0' <= c <= '9' then Some(c as int - '0' as int)
    else if 'A' <= c <= 'F' then Some(c as int - 'A' as int + 10)
    else if 'a' <= c <= 'f' then Some(c as int - 'a' as int + 10)
    else None
  }

  lemma DigitRoundTrip(v: nat)
    requires v < 16
    ensures DigitValue(HexDigit(v)) == Some(v)
  {
  }

  /** The last n hex digits of a number. */
  function HexWord(v: nat, n: nat): (s: string)
    ensures |s| == n
  {
    if n == 0 then "" else HexWord(v / 16, n - 1) + [HexDigit(v % 16)]
  }

  /** The number that hex digits spell, if they all are hex digits. */
  function HexValue(s: string): Option<nat> {
    if s == "" then Some(0)
    else
      match (HexValue(s[..|s| - 1]), DigitValue(s[|s| - 1]))
      case (Some(v), Some(d)) => Some(v * 16 + d)
      case _ => None
  }

  function Pow16(n: nat): nat {
    if n == 0 then 1 else 16 * Pow16(n - 1)
  }

  /** Numbers with at most n hex digits are read back from them. */
  lemma {:induction false} WordRoundTrip(v: nat, n: nat)
    requires v < Pow16(n)
    ensures HexValue(HexWord(v, n)) == Some(v)
  {
    if n > 0 {
      WordRoundTrip(v / 16, n - 1);
      DigitRoundTrip(v % 16);
      LastDigit(HexWord(v / 16, n - 1), HexDigit(v % 16));
    }
  }

  lemma LastDigit(s: string, c: char)
    ensures HexValue(s + [c]) ==
            match (HexValue(s), DigitValue(c)) { case (Some(v), Some(d)) => Some(v * 16 + d) case _ => None }
  {
    assert (s + [c])[..|s|] == s;
  }

  lemma {:induction false} BadDigit(s: string, i: nat)
    requires i < |s| && DigitValue(s[i]).None?
    ensures HexValue(s).None?
  {
    if i < |s| - 1 {
      BadDigit(s[..|s| - 1], i);
    }
  }

  /** `stoih`. */
  method Stoih(c: string) returns (r: Option<nat>)
    ensures r == HexValue(c)
  {
    var out := 0;
    var i := 0;
    while i < |c|
      invariant 0 <= i <= |c| && HexValue(c[..i]) == Some(out)
    {
      assert c[..i + 1][..i] == c[..i];
      out := out * 16;
      if '0' <= c[i] <= '9' {
        out := out + (c[i] as int - '0' as int);
      } else if 'A' <= c[i] <= 'F' {
        out := out + (c[i] as int - 'A' as int + 10);
      } else if 'a' <= c[i] <= 'f' {
        out := out + (c[i] as int - 'a' as int + 10);
      } else {
        BadDigit(c, i);
        return None;
      }
      i := i + 1;
    }
    assert c[..i] == c;
    return Some(out);
  }

  // -------------------------------------------------------------------- the dump

  /** Byte i of a line that holds buf. */
  function Digits(buf: seq<Byte>, i: nat): string {
    if i < |buf| then HexWord(buf[i], 2) else "  "
  }

  /** The same with the space that follows each pair of bytes. */
  function Cell(buf: seq<Byte>, i: nat): string {
    Digits(buf, i) + if i % 2 == 1 then " " else ""
  }

  function Cells(buf: seq<Byte>, i: nat, width: nat): string
    requires i <= width
    decreases width - i
  {
    if i == width then "" else Cell(buf, i) + Cells(buf, i + 1, width)
  }

  function Shown(buf: seq<Byte>, i: nat): char {
    if i >= |buf| then ' ' else if 32 <= buf[i] < 127 then buf[i] as char else '.'
  }

  /** The characters from i on. */
  function Text(buf: seq<Byte>, i: nat, width: nat): (s: string)
    requires i <= width
    ensures |s| == width - i
    decreases width - i
  {
    if i == width then "" else [Shown(buf, i)] + Text(buf, i + 1, width)
  }

  /** The digits of an offset, at least eight of them. */
  function Offset(v: nat): (s: string)
    ensures |s| >= 8
  {
    if v < 0x1_0000_0000 then HexWord(v, 8) else Offset(v / 16) + [HexDigit(v % 16)]
  }

  /** Pieces of text, to be printed one after the other. */
  datatype Pieces = Nil | Cons(head: string, tail: Pieces)

  function Glue(pieces: Pieces): string {
    if pieces.Nil? then "" else pieces.head + Glue(pieces.tail)
  }

  function LinePieces(buf: seq<Byte>, width: nat, sizer: nat): Pieces {
    Cons(Offset(sizer), Cons(": ", Cons(Cells(buf, 0, width), Cons(" ", Cons(Text(buf, 0, width), Cons("\n", Nil))))))
  }

  function Line(buf: seq<Byte>, width: nat, sizer: nat): string {
    Glue(LinePieces(buf, width, sizer))
  }

  /** The dump of data from offset sizer on. */
  function DumpFrom(data: seq<Byte>, width: nat, sizer: nat): string
    requires width > 0
    decreases |data| - sizer
  {
    if sizer >= |data| then ""
    else if sizer + width >= |data| then Line(data[sizer..], width, sizer)
    else Line(data[sizer..sizer + width], width, sizer) + DumpFrom(data, width, sizer + width)
  }

  function Dump(data: seq<Byte>, width: nat): string
    requires width > 0
  {
    DumpFrom(data, width, 0)
  }

  // -------------------------------------------------------------- how a line looks

  const HEX_DIGITS := "0123456789abcdef"

  lemma DigitIs(v: nat)
    requires v < 16
    ensures HexDigit(v) == HEX_DIGITS[v]
  {
  }

  const UPPER_DIGITS := "0123456789ABCDEF"

  /** The digits that are read, in either case. */
  lemma DigitsRead(c: char, v: nat)
    requires v < 16
    ensures DigitValue(c) == Some(v) <==> c == HEX_DIGITS[v] || c == UPPER_DIGITS[v]
    ensures DigitValue(c).Some? ==> DigitValue(c).value < 16
  {
  }

  predicate IsDigit(c: char) {
    '0' <= c <= '9' || 'a' <= c <= 'f'
  }

  /** The number in lower case, with leading zeros up to eight digits. */
  ghost predicate IsOffset(offset: string, sizer: nat) {
    && |offset| >= 8 && (|offset| > 8 ==> offset[0] != '0')
    && HexValue(offset) == Some(sizer) && forall i :: 0 <= i < |offset| ==> IsDigit(offset[i])
  }

  lemma {:induction false} WordIsDigits(v: nat, n: nat)
    ensures forall i :: 0 <= i < n ==> IsDigit(HexWord(v, n)[i])
    ensures n > 0 && Pow16(n - 1) <= v < Pow16(n) ==> HexWord(v, n)[0] != '0'
  {
    if n > 0 {
      WordIsDigits(v / 16, n - 1);
    }
  }

  lemma ShortOffset(sizer: nat)
    requires sizer < 0x1_0000_0000
    ensures IsOffset(HexWord(sizer, 8), sizer) && (sizer >= 0x1000_0000 ==> HexWord(sizer, 8)[0] != '0')
  {
    assert Pow16(7) == 0x1000_0000;
    assert Pow16(8) == 0x1_0000_0000;
    WordIsDigits(sizer, 8);
    WordRoundTrip(sizer, 8);
  }

  lemma NextOffset(offset: string, v: nat, d: nat)
    requires d < 16 && IsOffset(offset, v) && offset[0] != '0'
    ensures IsOffset(offset + [HexDigit(d)], v * 16 + d)
  {
    DigitRoundTrip(d);
    LastDigit(offset, HexDigit(d));
  }

  lemma {:induction false} OffsetLooks(sizer: nat)
    ensures IsOffset(Offset(sizer), sizer) && (sizer >= 0x1000_0000 ==> Offset(sizer)[0] != '0')
  {
    if sizer < 0x1_0000_0000 {
      ShortOffset(sizer);
    } else {
      OffsetLooks(sizer / 16);
      NextOffset(Offset(sizer / 16), sizer / 16, sizer % 16);
    }
  }

  /** Where the digits of byte i stand: two for each byte, a space after each pair. */
  function Column(i: nat): nat {
    2 * i + i / 2
  }

  /** The two digits of a byte, or blanks. */
  function ByteText(buf: seq<Byte>, i: nat): string {
    if i < |buf| then [HEX_DIGITS[buf[i] / 16], HEX_DIGITS[buf[i] % 16]] else "  "
  }

  /** Byte i stands where it belongs. */
  ghost predicate CellShown(cells: string, buf: seq<Byte>, i: nat) {
    && Column(i) + 2 + i % 2 <= |cells| && cells[Column(i)..Column(i) + 2] == ByteText(buf, i)
    && (i % 2 == 1 ==> cells[Column(i) + 2] == ' ')
  }

  /** The hex part: the digits of each byte of buf, then blanks. */
  ghost predicate IsHexPart(cells: string, buf: seq<Byte>, width: nat) {
    |cells| == Column(width) && forall i :: 0 <= i < width ==> CellShown(cells, buf, i)
  }

  lemma CellLooks(buf: seq<Byte>, i: nat)
    ensures |Cell(buf, i)| == 2 + i % 2
    ensures Cell(buf, i)[..2] == ByteText(buf, i)
    ensures i % 2 == 1 ==> Cell(buf, i)[2] == ' '
  {
    if i < |buf| {
      ByteDigits(buf[i]);
    }
  }

  lemma ByteDigits(b: Byte)
    ensures HexWord(b, 2) == [HEX_DIGITS[b / 16], HEX_DIGITS[b % 16]]
  {
    DigitIs(b / 16);
    DigitIs(b % 16);
    assert HexWord(b / 16, 1) == HexWord(b / 16 / 16, 0) + [HexDigit(b / 16 % 16)] == [HexDigit(b / 16)];
  }

  lemma {:induction false} CellsLook(buf: seq<Byte>, width: nat)
    ensures IsHexPart(Cells(buf, 0, width), buf, width)
  {
    if width > 0 {
      var before := Cells(buf, 0, width - 1);
      CellsLook(buf, width - 1);
      CellsNext(buf, width - 1);
      CellLooks(buf, width - 1);
      HexPartNext(before, Cell(buf, width - 1), buf, width - 1);
    }
  }

  lemma ColumnStep(i: nat)
    ensures Column(i + 1) == Column(i) + 2 + i % 2
  {
  }

  lemma CellStays(before: string, cell: string, buf: seq<Byte>, i: nat)
    requires CellShown(before, buf, i)
    ensures CellShown(before + cell, buf, i)
  {
    SliceOfFirst(before, cell, Column(i), Column(i) + 2);
  }

  lemma CellAdded(before: string, cell: string, buf: seq<Byte>, i: nat)
    requires |before| == Column(i) && |cell| == 2 + i % 2 && cell[..2] == ByteText(buf, i)
    requires i % 2 == 1 ==> cell[2] == ' '
    ensures CellShown(before + cell, buf, i)
  {
    SliceOfSecond(before, cell, 2);
  }

  lemma HexPartNext(before: string, cell: string, buf: seq<Byte>, i: nat)
    requires IsHexPart(before, buf, i) && |cell| == 2 + i % 2 && cell[..2] == ByteText(buf, i)
    requires i % 2 == 1 ==> cell[2] == ' '
    ensures IsHexPart(before + cell, buf, i + 1)
  {
    ColumnStep(i);
    CellAdded(before, cell, buf, i);
    forall k | 0 <= k < i ensures CellShown(before + cell, buf, k) {
      CellStays(before, cell, buf, k);
    }
  }

  lemma SliceOfFirst(a: string, b: string, lo: nat, hi: nat)
    requires lo <= hi <= |a|
    ensures (a + b)[lo..hi] == a[lo..hi]
  {
  }

  lemma SliceOfSecond(a: string, b: string, n: nat)
    requires n <= |b|
    ensures (a + b)[|a|..|a| + n] == b[..n]
  {
  }

  /** The text part: printable bytes as they are, dots for the others, then blanks. */
  ghost predicate IsTextPart(text: string, buf: seq<Byte>, width: nat) {
    |text| == width &&
    forall i :: 0 <= i < width ==>
      text[i] == if i >= |buf| then ' ' else if 32 <= buf[i] <= 126 then buf[i] as char else '.'
  }

  lemma {:induction false} TextLooks(buf: seq<Byte>, width: nat)
    ensures IsTextPart(Text(buf, 0, width), buf, width)
  {
    if width > 0 {
      TextLooks(buf, width - 1);
      TextNext(buf, 0, width - 1);
    }
  }

  ghost predicate Consists(line: string, offset: string, cells: string, text: string) {
    line == offset + (": " + (cells + (" " + (text + "\n"))))
  }

  /** Offset, hex part and text part of a line. */
  ghost predicate IsLine(line: string, buf: seq<Byte>, width: nat, sizer: nat) {
    exists offset, cells, text ::
      Consists(line, offset, cells, text) && IsOffset(offset, sizer) && IsHexPart(cells, buf, width) &&
      IsTextPart(text, buf, width)
  }

  lemma LineConsists(buf: seq<Byte>, width: nat, sizer: nat)
    ensures Consists(Line(buf, width, sizer), Offset(sizer), Cells(buf, 0, width), Text(buf, 0, width))
  {
    GlueSix(Offset(sizer), ": ", Cells(buf, 0, width), " ", Text(buf, 0, width), "\n");
  }

  lemma LineLooks(buf: seq<Byte>, width: nat, sizer: nat)
    ensures IsLine(Line(buf, width, sizer), buf, width, sizer)
  {
    LineConsists(buf, width, sizer);
    OffsetLooks(sizer);
    CellsLook(buf, width);
    TextLooks(buf, width);
  }

  // --------------------------------------------------------------------- line feeds

  function Count(s: string, c: char): nat {
    if s == "" then 0 else (if s[0] == c then 1 else 0) + Count(s[1..], c)
  }

  lemma {:induction false} CountAppend(a: string, b: string, c: char)
    ensures Count(a + b, c) == Count(a, c) + Count(b, c)
  {
    if a == "" {
      assert a + b == b;
    } else {
      assert (a + b)[1..] == a[1..] + b;
      CountAppend(a[1..], b, c);
    }
  }

  lemma {:induction false} CountNone(s: string, c: char)
    requires c !in s
    ensures Count(s, c) == 0
  {
    if s != "" {
      CountNone(s[1..], c);
    }
  }

  lemma {:induction false} CellsHaveNoFeed(buf: seq<Byte>, i: nat, width: nat)
    requires i <= width
    ensures '\n' !in Cells(buf, i, width)
    decreases width - i
  {
    if i < width {
      CellLooks(buf, i);
      if i < |buf| {
        ByteDigits(buf[i]);
        DigitIs(buf[i] / 16);
        DigitIs(buf[i] % 16);
      }
      CellsHaveNoFeed(buf, i + 1, width);
    }
  }

  lemma CountSix(a: string, b: string, c: string, d: string, e: string, f: string, x: char)
    requires x !in a && x !in b && x !in c && x !in d && x !in e
    ensures Count(a + (b + (c + (d + (e + f)))), x) == Count(f, x)
  {
    CountAfter(e, f, x);
    CountAfter(d, e + f, x);
    CountAfter(c, d + (e + f), x);
    CountAfter(b, c + (d + (e + f)), x);
    CountAfter(a, b + (c + (d + (e + f))), x);
  }

  lemma CountAfter(a: string, b: string, x: char)
    requires x !in a
    ensures Count(a + b, x) == Count(b, x)
  {
    CountNone(a, x);
    CountAppend(a, b, x);
  }

  lemma OffsetHasNoFeed(sizer: nat)
    ensures '\n' !in Offset(sizer)
  {
    OffsetLooks(sizer);
  }

  lemma TextHasNoFeed(buf: seq<Byte>, width: nat)
    ensures '\n' !in Text(buf, 0, width)
  {
    TextLooks(buf, width);
  }

  lemma FeedsOf(line: string, offset: string, cells: string, text: string)
    requires Consists(line, offset, cells, text) && '\n' !in offset && '\n' !in cells && '\n' !in text
    ensures Count(line, '\n') == 1
  {
    CountSix(offset, ": ", cells, " ", text, "\n", '\n');
    assert "\n"[1..] == "";
  }

  lemma OneFeed(buf: seq<Byte>, width: nat, sizer: nat)
    ensures Count(Line(buf, width, sizer), '\n') == 1
  {
    LineConsists(buf, width, sizer);
    OffsetHasNoFeed(sizer);
    CellsHaveNoFeed(buf, 0, width);
    TextHasNoFeed(buf, width);
    FeedsOf(Line(buf, width, sizer), Offset(sizer), Cells(buf, 0, width), Text(buf, 0, width));
  }

  /** The lines that it takes for so many bytes. */
  function Lines(left: int, width: nat): nat
    requires width > 0
    decreases left
  {
    if left <= 0 then 0 else 1 + Lines(left - width, width)
  }

  /** The bytes of the line at an offset. */
  function Chunk(data: seq<Byte>, width: nat, sizer: nat): seq<Byte>
    requires sizer < |data|
  {
    data[sizer..if sizer + width < |data| then sizer + width else |data|]
  }

  /** A dump in any format of lines. */
  function DumpBy(line: (seq<Byte>, nat) -> string, data: seq<Byte>, width: nat, sizer: nat): string
    requires width > 0
    decreases |data| - sizer
  {
    if sizer >= |data| then ""
    else line(Chunk(data, width, sizer), sizer) + DumpBy(line, data, width, sizer + width)
  }

  lemma {:induction false} CountBy(
      line: (seq<Byte>, nat) -> string, data: seq<Byte>, width: nat, sizer: nat, c: char)
    requires width > 0 && forall buf, at :: Count(line(buf, at), c) == 1
    ensures Count(DumpBy(line, data, width, sizer), c) == Lines(|data| - sizer, width)
    decreases |data| - sizer
  {
    if sizer < |data| {
      var first, rest := line(Chunk(data, width, sizer), sizer), DumpBy(line, data, width, sizer + width);
      CountBy(line, data, width, sizer + width, c);
      CountAppend(first, rest, c);
    }
  }

  function LineFormat(width: nat): (seq<Byte>, nat) -> string {
    (buf: seq<Byte>, sizer: nat) => Line(buf, width, sizer)
  }

  /** The first line of a dump and the others. */
  lemma DumpStarts(data: seq<Byte>, width: nat, sizer: nat)
    requires 0 < width && sizer < |data|
    ensures DumpFrom(data, width, sizer) ==
            LineFormat(width)(Chunk(data, width, sizer), sizer) + DumpFrom(data, width, sizer + width)
  {
    var buf := Chunk(data, width, sizer);
    if sizer + width >= |data| {
      assert buf == data[sizer..];
      assert Line(buf, width, sizer) + "" == Line(buf, width, sizer);
    }
  }

  lemma {:induction false} DumpIsLines(
      data: seq<Byte>, width: nat, sizer: nat, line: (seq<Byte>, nat) -> string, dump: string)
    requires width > 0 && line == LineFormat(width) && dump == DumpFrom(data, width, sizer)
    ensures dump == DumpBy(line, data, width, sizer)
    decreases |data| - sizer
  {
    if sizer < |data| {
      var rest := DumpFrom(data, width, sizer + width);
      DumpStarts(data, width, sizer);
      DumpIsLines(data, width, sizer + width, line, rest);
      assert dump == line(Chunk(data, width, sizer), sizer) + rest;
    }
  }

  lemma {:induction false} LinesIs(left: nat, width: nat)
    requires width > 0
    ensures Lines(left, width) == (left + width - 1) / width
  {
    if left == 0 {
      DivIs(width - 1, width, 0);
    } else if left <= width {
      DivIs(left + width - 1, width, 1);
    } else {
      LinesIs(left - width, width);
      var q := (left - 1) / width;
      DivIs(left + width - 1, width, q + 1);
    }
  }

  /** A dump has exactly one line feed for each line that the data takes. */
  lemma FeedsOfDump(data: seq<Byte>, width: nat)
    requires 0 < width
    ensures Count(Dump(data, width), '\n') == (|data| + width - 1) / width
  {
    forall buf, sizer ensures Count(LineFormat(width)(buf, sizer), '\n') == 1 {
      OneFeed(buf, width, sizer);
    }
    DumpIsLines(data, width, 0, LineFormat(width), Dump(data, width));
    CountBy(LineFormat(width), data, width, 0, '\n');
    LinesIs(|data|, width);
  }

  lemma DivIs(n: nat, d: nat, q: nat)
    requires 0 < d && q * d <= n < q * d + d
    ensures n / d == q
  {
    var r := n / d;
    assert r * d <= n < r * d + d;
    if r < q {
      ProductMonotone(r + 1, q, d);
    } else if q < r {
      ProductMonotone(q + 1, r, d);
    }
  }

  /** A full line off the front. */
  lemma DumpNext(data: seq<Byte>, width: nat, sizer: nat)
    requires 0 < width && sizer + width <= |data|
    ensures DumpFrom(data, width, sizer) ==
            Line(data[sizer..sizer + width], width, sizer) + DumpFrom(data, width, sizer + width)
  {
    if sizer + width == |data| {
      var line := Line(data[sizer..], width, sizer);
      assert data[sizer..sizer + width] == data[sizer..];
      assert line + "" == line;
    }
  }

  lemma {:induction false} CellsAppend(buf: seq<Byte>, i: nat, j: nat, width: nat)
    requires i <= j <= width
    ensures Cells(buf, i, width) == Cells(buf, i, j) + Cells(buf, j, width)
    decreases j - i
  {
    if i < j {
      CellsAppend(buf, i + 1, j, width);
    }
  }

  lemma CellsNext(buf: seq<Byte>, i: nat)
    ensures Cells(buf, 0, i + 1) == Cells(buf, 0, i) + Cell(buf, i)
  {
    CellsAppend(buf, 0, i, i + 1);
    assert Cells(buf, i, i + 1) == Cell(buf, i) + Cells(buf, i + 1, i + 1) == Cell(buf, i);
  }

  lemma FirstOfPair(buf: seq<Byte>, i: nat, out: string, cell: string)
    requires i % 2 == 0 && out == Cells(buf, 0, i) && cell == Digits(buf, i)
    ensures out + cell == Cells(buf, 0, i + 1)
  {
    CellsNext(buf, i);
    assert Digits(buf, i) + "" == Digits(buf, i);
  }

  lemma SecondOfPair(buf: seq<Byte>, i: nat, out: string, cell: string)
    requires i % 2 == 1 && out == Cells(buf, 0, i) && cell == Digits(buf, i) + " "
    ensures out + cell == Cells(buf, 0, i + 1)
  {
    CellsNext(buf, i);
  }

  /** The hex part of a line, two bytes a turn (apps/hexify.c:20-34). */
  method PrintCells(buf: seq<Byte>, width: nat) returns (out: string)
    ensures out == Cells(buf, 0, width) && IsHexPart(out, buf, width)
  {
    out := "";
    var i := 0;
    while i < width
      invariant 0 <= i <= width && (i % 2 == 0 || i == width) && out == Cells(buf, 0, i)
    {
      var first := "  ";
      if i < |buf| {
        first := HexWord(buf[i], 2);
      }
      FirstOfPair(buf, i, out, first);
      out := out + first;
      i := i + 1;
      if i == width {
        break;
      }
      var second := "  " + " ";
      if i < |buf| {
        second := HexWord(buf[i], 2) + " ";
      }
      SecondOfPair(buf, i, out, second);
      out := out + second;
      i := i + 1;
    }
    CellsLook(buf, width);
  }

  lemma {:induction false} TextNext(buf: seq<Byte>, i: nat, j: nat)
    requires i <= j
    ensures Text(buf, i, j + 1) == Text(buf, i, j) + [Shown(buf, j)]
    decreases j - i
  {
    if i < j {
      TextNext(buf, i + 1, j);
    } else {
      assert Text(buf, j + 1, j + 1) == "";
    }
  }

  /** The text part of a line (apps/hexify.c:36-46). */
  method PrintText(buf: seq<Byte>, width: nat) returns (text: string)
    ensures text == Text(buf, 0, width) && IsTextPart(text, buf, width)
  {
    text := "";
    var i := 0;
    while i < width
      invariant 0 <= i <= width && text == Text(buf, 0, i)
    {
      TextNext(buf, 0, i);
      text := text + [Shown(buf, i)];
      i := i + 1;
    }
    TextLooks(buf, width);
  }

  lemma GlueSix(a: string, b: string, c: string, d: string, e: string, f: string)
    ensures Glue(Cons(a, Cons(b, Cons(c, Cons(d, Cons(e, Cons(f, Nil))))))) == a + (b + (c + (d + (e + f))))
  {
    calc {
      Glue(Cons(c, Cons(d, Cons(e, Cons(f, Nil)))));
      c + (d + Glue(Cons(e, Cons(f, Nil))));
      { assert Glue(Cons(f, Nil)) == f + "" == f; }
      c + (d + (e + f));
    }
    assert Glue(Cons(b, Cons(c, Cons(d, Cons(e, Cons(f, Nil)))))) == b + Glue(Cons(c, Cons(d, Cons(e, Cons(f, Nil)))));
  }

  /** `print_line`. */
  method PrintLine(buf: seq<Byte>, width: nat, sizer: nat) returns (out: string)
    ensures out == Line(buf, width, sizer) && IsLine(out, buf, width, sizer)
  {
    LineLooks(buf, width, sizer);
    var cells := PrintCells(buf, width);
    var text := PrintText(buf, width);
    out := Offset(sizer) + (": " + (cells + (" " + (text + "\n"))));
    GlueSix(Offset(sizer), ": ", cells, " ", text, "\n");
  }

  /** `fread` into the free part of buf: the bytes, and whether the file ended. */
  method Fill(data: seq<Byte>, pos: nat, want: nat) returns (got: seq<Byte>, eof: bool)
    requires pos <= |data|
    ensures pos + |got| <= |data| && got == data[pos..pos + |got|] && |got| <= want
    ensures eof == (|got| < want) && (eof ==> pos + |got| == |data|)
  {
    var r := if want <= |data| - pos then want else |data| - pos;
    return data[pos..pos + r], r < want;
  }

  /** What was printed when the bytes before sizer were. */
  ghost predicate Printed(data: seq<Byte>, width: nat, sizer: nat, out: string, whole: string)
    requires width > 0
  {
    out + DumpFrom(data, width, sizer) == whole
  }

  /** A line that is full (apps/hexify.c:133). */
  method PrintFull(data: seq<Byte>, width: nat, sizer: nat, buf: seq<Byte>, out: string, ghost whole: string)
    returns (more: string)
    requires 0 < width && sizer + width <= |data| && buf == data[sizer..sizer + width]
    requires Printed(data, width, sizer, out, whole)
    ensures Printed(data, width, sizer + width, more, whole)
  {
    var line := PrintLine(buf, width, sizer);
    more := out + line;
    DumpNext(data, width, sizer);
    Concat3(out, line, DumpFrom(data, width, sizer + width));
  }

  /** What is left in the end (apps/hexify.c:139-141). */
  method PrintLast(data: seq<Byte>, width: nat, sizer: nat, buf: seq<Byte>, out: string, ghost whole: string)
    returns (all: string)
    requires sizer <= |data| < sizer + width && buf == data[sizer..]
    requires Printed(data, width, sizer, out, whole)
    ensures all == whole
  {
    all := out;
    if |buf| != 0 {
      var line := PrintLine(buf, width, sizer);
      all := all + line;
    }
  }

  /** The variables of the encode loop; pos is how far the file was read. */
  datatype Filling = Filling(out: string, buf: seq<Byte>, sizer: nat, pos: nat, eof: bool)

  ghost predicate Sound(data: seq<Byte>, width: nat, f: Filling) {
    && f.sizer <= f.pos <= |data| && f.buf == data[f.sizer..f.pos] && |f.buf| < width
    && (f.eof ==> f.pos == |data|)
  }

  /** One turn of the encode loop: `buf` fills up from the file (apps/hexify.c:128-136). */
  method EncodeTurn(data: seq<Byte>, width: nat, f: Filling, ghost whole: string) returns (next: Filling)
    requires width > 0 && !f.eof && Sound(data, width, f) && Printed(data, width, f.sizer, f.out, whole)
    ensures Sound(data, width, next) && Printed(data, width, next.sizer, next.out, whole)
    ensures next.eof || next.pos > f.pos
  {
    var got, eof := Fill(data, f.pos, width - |f.buf|);
    FillMore(data, f.sizer, f.pos, got);
    var buf, pos := f.buf + got, f.pos + |got|;
    if |buf| == width {
      var out := PrintFull(data, width, f.sizer, buf, f.out, whole);
      assert data[pos..pos] == [];
      next := Filling(out, [], f.sizer + width, pos, eof);
    } else {
      next := Filling(f.out, buf, f.sizer, pos, eof);
    }
  }

  /** The encode loop (apps/hexify.c:124-141). */
  method EncodeFrom(data: seq<Byte>, width: nat, start: Filling, ghost whole: string) returns (out: string)
    requires width > 0 && Sound(data, width, start) && Printed(data, width, start.sizer, start.out, whole)
    ensures out == whole
  {
    var f := start;
    while !f.eof
      invariant Sound(data, width, f) && Printed(data, width, f.sizer, f.out, whole)
      decreases !f.eof, |data| - f.pos
    {
      f := EncodeTurn(data, width, f, whole);
    }
    out := PrintLast(data, width, f.sizer, f.buf, f.out, whole);
  }

  lemma FillMore(data: seq<Byte>, sizer: nat, pos: nat, got: seq<Byte>)
    requires sizer <= pos && pos + |got| <= |data| && got == data[pos..pos + |got|]
    ensures data[sizer..pos] + got == data[sizer..pos + |got|]
  {
  }

  /** `hexify`. */
  method Encode(data: seq<Byte>, width: nat) returns (out: string)
    requires width > 0
    ensures out == Dump(data, width) && Count(out, '\n') == (|data| + width - 1) / width
  {
    FeedsOfDump(data, width);
    out := EncodeFrom(data, width, Filling("", [], 0, 0, false), Dump(data, width));
  }

  // ------------------------------------------------------------------- the parser

  /** The characters of a file, in the order in which they are read. */
  datatype Stream = End | Char(head: char, tail: Stream)

  function Feed(s: string, rest: Stream): Stream {
    if s == "" then rest else Char(s[0], Feed(s[1..], rest))
  }

  function Size(stream: Stream): nat {
    if stream.End? then 0 else 1 + Size(stream.tail)
  }

  /** A file that is being read: what is left, and whether a read met its end. */
  datatype In = In(rest: Stream, eof: bool)

  function Left(inp: In): nat {
    Size(inp.rest) + if inp.eof then 0 else 1
  }

  /** `fread` over a buffer: past the end of the file the buffer keeps what it held. */
  function Read(inp: In, buffer: string): (r: (string, In))
    ensures |r.0| == |buffer| && Left(r.1) <= Left(inp)
    ensures buffer != "" && !inp.eof ==> Left(r.1) < Left(inp)
    decreases |buffer|
  {
    if buffer == "" then ("", inp)
    else if inp.rest.End? then (buffer, In(End, true))
    else
      var (s, left) := Read(inp.(rest := inp.rest.tail), buffer[1..]);
      ([inp.rest.head] + s, left)
  }

  /** The byte loop's variables: the stream, the two bytes `tmp`, reused by every read,
      and what was written. */
  datatype Cursor = Cursor(inp: In, tmp: string, out: seq<Byte>)

  datatype Step = Go(c: Cursor) | Halt(out: seq<Byte>)

  /** Two digits (apps/hexify.c:181-192). */
  function ReadByte(c: Cursor): (r: Step)
    requires |c.tmp| == 2
    ensures r.Go? ==> |r.c.tmp| == 2 && Left(r.c.inp) <= Left(c.inp)
  {
    var (tmp, inp) := Read(c.inp, c.tmp);
    if tmp == "  " || HexValue(tmp).None? then Halt(c.out)
    else Go(Cursor(inp, tmp, c.out + [HexValue(tmp).value % 256]))
  }

  /** The space after them (apps/hexify.c:195-201). */
  function ReadSpace(c: Cursor): (r: Step)
    requires |c.tmp| == 2
    ensures r.Go? ==> |r.c.tmp| == 2 && Left(r.c.inp) <= Left(c.inp)
  {
    var (s, inp) := Read(c.inp, c.tmp[..1]);
    if s[0] != ' ' then Halt(c.out) else Go(Cursor(inp, s + c.tmp[1..], c.out))
  }

  /** One byte or two. */
  function ReadBytes(c: Cursor, two: bool): (r: Step)
    requires |c.tmp| == 2
    ensures r.Go? ==> |r.c.tmp| == 2 && Left(r.c.inp) <= Left(c.inp)
  {
    var first := ReadByte(c);
    if first.Halt? || !two then first else ReadByte(first.c)
  }

  /** These and a space. */
  function ReadPair(c: Cursor, two: bool): (r: Step)
    requires |c.tmp| == 2
    ensures r.Go? ==> |r.c.tmp| == 2 && Left(r.c.inp) <= Left(c.inp)
  {
    var r := ReadBytes(c, two);
    if r.Halt? then r else ReadSpace(r.c)
  }

  /** The byte loop from byte i of a line on. */
  function DecodeCells(width: nat, i: nat, c: Cursor): (r: Step)
    requires |c.tmp| == 2
    ensures r.Go? ==> |r.c.tmp| == 2 && Left(r.c.inp) <= Left(c.inp)
    decreases width - i
  {
    if i >= width then Go(c)
    else
      var r := ReadPair(c, i + 1 < width);
      if r.Halt? then r else DecodeCells(width, i + 2, r.c)
  }

  /** What the uninitialised locals of a turn of the decode loop hold: anything. */
  datatype Locals = Locals(offset: string, tmp: string)

  type Junk = l: Locals | |l.offset| == 8 && |l.tmp| == 2 witness Locals("        ", "  ")

  /** The locals of each turn. */
  type Memory = nat -> Junk

  /** The offset and the colon of a line (apps/hexify.c:148-175). */
  function ReadOffset(eoffset: nat, inp: In, junk: Junk): (r: Step)
    ensures r.Go? ==> |r.c.tmp| == 2 && r.c.out == [] && Left(r.c.inp) <= Left(inp)
    ensures r.Go? && !inp.eof ==> Left(r.c.inp) < Left(inp)
  {
    var (offset, in1) := Read(inp, junk.offset);
    if HexValue(offset) != Some(eoffset) then Halt([])
    else
      var (tmp, in2) := Read(in1, junk.tmp);
      if tmp != ": " then Halt([]) else Go(Cursor(in2, tmp, []))
  }

  /** A read of n characters that nobody looks at. */
  function Skip(inp: In, n: nat): (r: In)
    ensures Left(r) <= Left(inp)
    decreases n, inp.rest
  {
    if n == 0 then inp
    else if inp.rest.End? then In(End, true)
    else Skip(inp.(rest := inp.rest.tail), n - 1)
  }

  /** The rest of a line after its bytes (apps/hexify.c:204-218): wrong characters are
      reported, and reading goes on. */
  function SkipText(width: nat, inp: In): (r: In)
    ensures Left(r) <= Left(inp)
  {
    Skip(Skip(inp, 1), width + 1)
  }

  /** The parts of a line that are read in turn. */
  datatype Part = OffsetPart | BytesPart | TextPart

  /** A line from one of its parts on. */
  function ReadFrom(part: Part, width: nat, eoffset: nat, c: Cursor, junk: Junk): (r: Step)
    requires |c.tmp| == 2
    ensures r.Go? ==> Left(r.c.inp) <= Left(c.inp)
    ensures r.Go? && part.OffsetPart? && !c.inp.eof ==> Left(r.c.inp) < Left(c.inp)
    decreases match part case OffsetPart => 2 case BytesPart => 1 case TextPart => 0
  {
    match part
    case OffsetPart =>
      var r := ReadOffset(eoffset, c.inp, junk);
      if r.Halt? then r else ReadFrom(BytesPart, width, eoffset, r.c, junk)
    case BytesPart =>
      var r := DecodeCells(width, 0, c);
      if r.Halt? then r else ReadFrom(TextPart, width, eoffset, r.c, junk)
    case TextPart => Go(c.(inp := SkipText(width, c.inp)))
  }

  /** One line of the decode loop. */
  function DecodeLine(width: nat, eoffset: nat, inp: In, junk: Junk): (r: Step)
    ensures r.Go? && !inp.eof ==> Left(r.c.inp) < Left(inp)
  {
    ReadFrom(OffsetPart, width, eoffset, Cursor(inp, junk.tmp, []), junk)
  }

  lemma LineByParts(width: nat, eoffset: nat, inp: In, junk: Junk)
    ensures DecodeLine(width, eoffset, inp, junk) ==
            var start := ReadOffset(eoffset, inp, junk);
            if start.Halt? then start
            else
              var r := DecodeCells(width, 0, start.c);
              if r.Halt? then r else Go(r.c.(inp := SkipText(width, r.c.inp)))
  {
    var start := ReadOffset(eoffset, inp, junk);
    if start.Go? {
      var r := DecodeCells(width, 0, start.c);
      assert ReadFrom(BytesPart, width, eoffset, start.c, junk) ==
             if r.Halt? then r else ReadFrom(TextPart, width, eoffset, r.c, junk);
    }
  }

  /** The variables of the decode loop, and whether it was left. */
  datatype Turn = Turn(out: seq<Byte>, inp: In, eoffset: nat, lineno: nat, over: bool)

  /** One turn of the decode loop. */
  function Next(width: nat, t: Turn, memory: Memory): (next: Turn)
    requires !t.inp.eof
    ensures next.over || Left(next.inp) < Left(t.inp)
  {
    var line := DecodeLine(width, t.eoffset, t.inp, memory(t.lineno));
    if line.Halt? then t.(out := t.out + line.out, over := true)
    else Turn(t.out + line.c.out, line.c.inp, t.eoffset + width, t.lineno + 1, false)
  }

  /** All that the decode loop has written when it stops. */
  function Finish(width: nat, t: Turn, memory: Memory): seq<Byte>
    decreases !t.over, Left(t.inp)
  {
    if t.over || t.inp.eof then t.out else Finish(width, Next(width, t, memory), memory)
  }

  function Decode(width: nat, input: string, memory: Memory): seq<Byte> {
    Finish(width, Turn([], In(Feed(input, End), false), 0, 1, false), memory)
  }

  method UndumpByte(c: Cursor) returns (r: Step)
    requires |c.tmp| == 2
    ensures r == ReadByte(c)
  {
    var tmp, inp := Read(c.inp, c.tmp).0, Read(c.inp, c.tmp).1;
    if tmp[0] == ' ' && tmp[1] == ' ' {
      assert tmp == "  ";
      return Halt(c.out);
    }
    var value := Stoih(tmp);
    if value.None? {
      return Halt(c.out);
    }
    return Go(Cursor(inp, tmp, c.out + [value.value % 256]));
  }

  /** Two bytes, or what is left of the line (apps/hexify.c:180-193). */
  method UndumpBytes(width: nat, i0: nat, c0: Cursor) returns (r: Step, i: nat)
    requires |c0.tmp| == 2 && i0 < width
    ensures r == ReadBytes(c0, i0 + 1 < width)
    ensures r.Go? ==> i == if i0 + 1 < width then i0 + 2 else i0 + 1
  {
    var c := c0;
    var j := 0;
    i := i0;
    while i < width && j < 2
      invariant 0 <= j <= 2 && i == i0 + j <= width && |c.tmp| == 2
      invariant j == 0 ==> c == c0
      invariant j == 1 ==> Go(c) == ReadByte(c0)
      invariant j == 2 ==> Go(c) == ReadBytes(c0, true)
      decreases width - i
    {
      r := UndumpByte(c);
      if r.Halt? {
        return;
      }
      c := r.c;
      i, j := i + 1, j + 1;
    }
    r := Go(c);
  }

  /** The byte loop (apps/hexify.c:178-202). */
  method UndumpCells(width: nat, c0: Cursor) returns (r: Step)
    requires |c0.tmp| == 2
    ensures r == DecodeCells(width, 0, c0)
  {
    var c := c0;
    var i: nat := 0;
    ghost var whole := DecodeCells(width, 0, c0);
    while i < width
      invariant |c.tmp| == 2 && i <= width && whole == DecodeCells(width, i, c)
      decreases width - i
    {
      DecodePair(width, i, c);
      r, i := UndumpBytes(width, i, c);
      if r.Halt? {
        return;
      }
      r := ReadSpace(r.c);
      if r.Halt? {
        return;
      }
      c := r.c;
    }
    return Go(c);
  }

  lemma DecodePair(width: nat, i: nat, c: Cursor)
    requires |c.tmp| == 2 && i < width
    ensures DecodeCells(width, i, c) ==
            match ReadBytes(c, i + 1 < width) {
              case Halt(out) => Halt(out)
              case Go(c1) =>
                match ReadSpace(c1) {
                  case Halt(out) => Halt(out)
                  case Go(c2) => DecodeCells(width, if i + 1 < width then i + 2 else i + 1, c2)
                }
            }
  {
  }

  method UndumpLine(width: nat, eoffset: nat, input: In, junk: Junk) returns (r: Step)
    ensures r == DecodeLine(width, eoffset, input, junk)
  {
    LineByParts(width, eoffset, input, junk);
    var offset, inp := Read(input, junk.offset).0, Read(input, junk.offset).1;
    var value := Stoih(offset);
    if value.None? {
      return Halt([]);
    }
    if value.value != eoffset {
      return Halt([]);
    }
    var tmp;
    tmp, inp := Read(inp, junk.tmp).0, Read(inp, junk.tmp).1;
    if tmp[0] != ':' || tmp[1] != ' ' {
      return Halt([]);
    }
    assert tmp == ": ";
    r := UndumpCells(width, Cursor(inp, tmp, []));
    if r.Go? {
      r := Go(r.c.(inp := SkipText(width, r.c.inp)));
    }
  }

  /** The decode loop. */
  method UndumpFrom(width: nat, start: Turn, memory: Memory) returns (out: seq<Byte>)
    ensures out == Finish(width, start, memory)
  {
    var t := start;
    while !t.inp.eof && !t.over
      invariant Finish(width, t, memory) == Finish(width, start, memory)
      decreases !t.over, Left(t.inp)
    {
      t := UndumpTurn(width, t, memory);
    }
    out := t.out;
  }

  method UndumpTurn(width: nat, t: Turn, memory: Memory) returns (next: Turn)
    requires !t.inp.eof && !t.over
    ensures next.over || Left(next.inp) < Left(t.inp)
    ensures Finish(width, next, memory) == Finish(width, t, memory)
  {
    var line := UndumpLine(width, t.eoffset, t.inp, memory(t.lineno));
    if line.Halt? {
      next := t.(out := t.out + line.out, over := true);
    } else {
      next := Turn(t.out + line.c.out, line.c.inp, t.eoffset + width, t.lineno + 1, false);
    }
    FinishNext(width, t, memory, next);
  }

  lemma FinishNext(width: nat, t: Turn, memory: Memory, next: Turn)
    requires !t.inp.eof && !t.over && next == Next(width, t, memory)
    ensures Finish(width, next, memory) == Finish(width, t, memory)
  {
  }

  /** `hexify -d`. */
  method Undump(input: string, width: nat, memory: Memory) returns (out: seq<Byte>)
    ensures out == Decode(width, input, memory)
  {
    out := UndumpFrom(width, Turn([], In(Feed(input, End), false), 0, 1, false), memory);
  }
}
