/**
  Shift registers with linear feedback, over any kind of word: what a checksum such as
  that of apps/crc32.c relies on.
 */
module ShiftRegister {

  /**
    Words and what is done with them. The message comes in units of `size` bits, which
    enter the register one by one, the lowest first.
   */
  datatype Kit<!X, !B> = Kit(
    plus: (X, X) -> X,      // the sum without carries
    zero: X,
    half: X -> X,           // without the lowest bit
    odd: X -> bool,         // the lowest bit
    up: X -> X,             // moved up by one unit
    shift: (X, bool) -> X,  // the register after one message bit
    widen: B -> X,          // a unit as a word
    size: nat)

  /** The register after n zero bits. */
  function Zeros<X, B>(k: Kit<X, B>, x: X, n: nat): X
    decreases n, k.size
  {
    if n == 0 then x else Zeros(k, k.shift(x, false), n - 1)
  }

  /** The register after the n low bits of w. */
  function Bits<X, B>(k: Kit<X, B>, x: X, w: X, n: nat): X
    decreases n, k.size
  {
    if n == 0 then x else Bits(k, k.shift(x, k.odd(w)), k.half(w), n - 1)
  }

  /** The register after a message. */
  function Message<X, B>(k: Kit<X, B>, x: X, data: seq<B>): X
    decreases |data|
  {
    if data == [] then x else Message(k, Bits(k, x, k.widen(data[0]), k.size), data[1..])
  }

  /** The low n bits of w are zero. */
  predicate LowClear<X, B>(k: Kit<X, B>, w: X, n: nat)
    decreases n
  {
    n == 0 || (!k.odd(w) && LowClear(k, k.half(w), n - 1))
  }

  function Drop<X, B>(k: Kit<X, B>, w: X, n: nat): X
    decreases n
  {
    if n == 0 then w else Drop(k, k.half(w), n - 1)
  }

  /** A word may be added to the register before its lowest bit is taken. */
  ghost predicate Linear<X(!new), B>(k: Kit<X, B>) {
    forall x, w {:trigger k.shift(k.plus(x, w), false)} ::
      k.shift(k.plus(x, w), false) == k.plus(k.shift(x, k.odd(w)), k.half(w))
  }

  ghost predicate Neutral<X(!new), B>(k: Kit<X, B>) {
    forall x :: k.plus(x, k.zero) == x
  }

  /** Units have `size` bits. */
  ghost predicate Narrow<X, B(!new)>(k: Kit<X, B>) {
    forall b :: Drop(k, k.widen(b), k.size) == k.zero
  }

  /** A shift loses nothing, and neither does a sum. */
  ghost predicate Faithful<X(!new), B>(k: Kit<X, B>) {
    && (forall x, y :: k.shift(x, false) == k.shift(y, false) ==> x == y)
    && (forall c, x, y :: k.plus(c, x) == k.plus(c, y) ==> x == y)
    && (forall c, x, y :: k.plus(x, c) == k.plus(y, c) ==> x == y)
  }

  // ----------------------------------------------------------------- many bits at once

  lemma {:induction false} ZerosOfHigh<X(!new), B>(k: Kit<X, B>, x: X, y: X, n: nat)
    requires Linear(k) && LowClear(k, y, n)
    ensures Zeros(k, k.plus(x, y), n) == k.plus(Zeros(k, x, n), Drop(k, y, n))
    decreases n
  {
    if n > 0 {
      ZerosOfHigh(k, k.shift(x, false), k.half(y), n - 1);
    }
  }

  /** All bits of a word may be added at once. */
  lemma {:induction false} BitsAtOnce<X(!new), B>(k: Kit<X, B>, x: X, w: X, n: nat)
    requires Linear(k) && Neutral(k) && Drop(k, w, n) == k.zero
    ensures Bits(k, x, w, n) == Zeros(k, k.plus(x, w), n)
    decreases n
  {
    if n > 0 {
      BitsAtOnce(k, k.shift(x, k.odd(w)), k.half(w), n - 1);
    }
  }

  lemma {:induction false} ZerosInjective<X(!new), B>(k: Kit<X, B>, x: X, y: X, n: nat)
    requires Faithful(k) && Zeros(k, x, n) == Zeros(k, y, n)
    ensures x == y
    decreases n
  {
    if n > 0 {
      ZerosInjective(k, k.shift(x, false), k.shift(y, false), n - 1);
    }
  }

  // -------------------------------------------------------------------------- messages

  lemma {:induction false} MessageAppend<X, B>(k: Kit<X, B>, x: X, a: seq<B>, b: seq<B>)
    ensures Message(k, x, a + b) == Message(k, Message(k, x, a), b)
    decreases |a|
  {
    if a == [] {
      assert a + b == b;
    } else {
      assert (a + b)[1..] == a[1..] + b;
      MessageAppend(k, Bits(k, x, k.widen(a[0]), k.size), a[1..], b);
    }
  }

  lemma MessageNext<X, B>(k: Kit<X, B>, x: X, data: seq<B>, i: nat)
    requires i < |data|
    ensures Message(k, x, data[..i + 1]) == Bits(k, Message(k, x, data[..i]), k.widen(data[i]), k.size)
  {
    assert data[..i + 1] == data[..i] + [data[i]];
    MessageAppend(k, x, data[..i], [data[i]]);
    var y := Message(k, x, data[..i]);
    assert Message(k, y, [data[i]]) == Message(k, Bits(k, y, k.widen(data[i]), k.size), []);
  }

  /** What follows in a message keeps registers apart. */
  lemma {:induction false} MessageInjective<X(!new), B(!new)>(k: Kit<X, B>, x: X, y: X, data: seq<B>)
    requires Linear(k) && Neutral(k) && Narrow(k) && Faithful(k)
    requires Message(k, x, data) == Message(k, y, data)
    ensures x == y
    decreases |data|
  {
    if data != [] {
      var w := k.widen(data[0]);
      MessageInjective(k, Bits(k, x, w, k.size), Bits(k, y, w, k.size), data[1..]);
      BitsAtOnce(k, x, w, k.size);
      BitsAtOnce(k, y, w, k.size);
      ZerosInjective(k, k.plus(x, w), k.plus(y, w), k.size);
    }
  }

  // ---------------------------------------------------------------------- whole words

  /** A few units as one word, the first lowest. */
  function Word<X, B>(k: Kit<X, B>, data: seq<B>): X
    decreases |data|
  {
    if data == [] then k.zero else k.plus(k.widen(data[0]), k.up(Word(k, data[1..])))
  }

  /** Words of up to `most` units can be taken apart; fits(j, w) says that w has j of them. */
  ghost predicate Stacks<X(!new), B(!new)>(k: Kit<X, B>, fits: (nat, X) -> bool, most: nat) {
    && fits(0, k.zero)
    && (forall j: nat, w, b :: j < most && fits(j, w) ==> fits(j + 1, k.plus(k.widen(b), k.up(w))))
    && (forall j: nat, w :: j < most && fits(j, w) ==> LowClear(k, k.up(w), k.size) && Drop(k, k.up(w), k.size) == w)
    && (forall j: nat, v, w, a, b ::
          (j < most && fits(j, v) && fits(j, w) && k.plus(k.widen(a), k.up(v)) == k.plus(k.widen(b), k.up(w))) ==>
            a == b && v == w)
  }

  lemma {:induction false} WordFits<X(!new), B(!new)>(k: Kit<X, B>, fits: (nat, X) -> bool, most: nat, data: seq<B>)
    requires Stacks(k, fits, most) && |data| <= most
    ensures fits(|data|, Word(k, data))
    decreases |data|
  {
    if data != [] {
      WordFits(k, fits, most, data[1..]);
    }
  }

  lemma {:induction false} WordInjective<X(!new), B(!new)>(
      k: Kit<X, B>, fits: (nat, X) -> bool, most: nat, x: seq<B>, y: seq<B>)
    requires Stacks(k, fits, most) && |x| == |y| <= most && Word(k, x) == Word(k, y)
    ensures x == y
    decreases |x|
  {
    if x != [] {
      WordFits(k, fits, most, x[1..]);
      WordFits(k, fits, most, y[1..]);
      WordInjective(k, fits, most, x[1..], y[1..]);
      assert x == [x[0]] + x[1..] && y == [y[0]] + y[1..];
    }
  }

  /** The register after n units of zero bits. */
  function ZeroUnits<X, B>(k: Kit<X, B>, x: X, n: nat): X
    decreases n
  {
    if n == 0 then x else ZeroUnits(k, Zeros(k, x, k.size), n - 1)
  }

  lemma {:induction false} ZeroUnitsInjective<X(!new), B>(k: Kit<X, B>, x: X, y: X, n: nat)
    requires Faithful(k) && ZeroUnits(k, x, n) == ZeroUnits(k, y, n)
    ensures x == y
    decreases n
  {
    if n > 0 {
      ZeroUnitsInjective(k, Zeros(k, x, k.size), Zeros(k, y, k.size), n - 1);
      ZerosInjective(k, x, y, k.size);
    }
  }

  ghost predicate Associative<X(!new), B>(k: Kit<X, B>) {
    forall x, y, z {:trigger k.plus(k.plus(x, y), z)} :: k.plus(k.plus(x, y), z) == k.plus(x, k.plus(y, z))
  }

  /** All units of a word may be added at once. */
  lemma {:induction false} WordAtOnce<X(!new), B(!new)>(
      k: Kit<X, B>, fits: (nat, X) -> bool, most: nat, x: X, data: seq<B>)
    requires Linear(k) && Neutral(k) && Narrow(k) && Associative(k) && Stacks(k, fits, most) && |data| <= most
    ensures Message(k, x, data) == ZeroUnits(k, k.plus(x, Word(k, data)), |data|)
    decreases |data|
  {
    if data != [] {
      var b, w := k.widen(data[0]), Word(k, data[1..]);
      var y := k.plus(x, b);
      BitsAtOnce(k, x, b, k.size);
      WordAtOnce(k, fits, most, Zeros(k, y, k.size), data[1..]);
      WordFits(k, fits, most, data[1..]);
      ZerosOfHigh(k, y, k.up(w), k.size);
    }
  }

  /** Messages that differ within one word leave different registers. */
  lemma ChangeDetected<X(!new), B(!new)>(
      k: Kit<X, B>, fits: (nat, X) -> bool, most: nat, start: X, before: seq<B>, x: seq<B>, y: seq<B>, after: seq<B>)
    requires Linear(k) && Neutral(k) && Narrow(k) && Associative(k) && Faithful(k) && Stacks(k, fits, most)
    requires |x| == |y| <= most
    requires Message(k, start, before + x + after) == Message(k, start, before + y + after)
    ensures x == y
  {
    var c := Message(k, start, before);
    MessageAppend(k, start, before + x, after);
    MessageAppend(k, start, before + y, after);
    MessageAppend(k, start, before, x);
    MessageAppend(k, start, before, y);
    MessageInjective(k, Message(k, c, x), Message(k, c, y), after);
    WordAtOnce(k, fits, most, c, x);
    WordAtOnce(k, fits, most, c, y);
    ZeroUnitsInjective(k, k.plus(c, Word(k, x)), k.plus(c, Word(k, y)), |x|);
    WordInjective(k, fits, most, x, y);
  }
}
