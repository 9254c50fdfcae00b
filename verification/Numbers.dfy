/** Bytes as numbers, and numbers as bytes, least significant first. */
module Numbers {

  const UINT_MAX := 0xFFFF_FFFF

  predicate Odd(n: nat) { n % 2 == 1 }

  function Half(n: nat): nat { n / 2 }

  function Bit(on: bool, mask: bv8): bv8 { if on then mask else 0 }

  function Bits(b0: bool, b1: bool, b2: bool, b3: bool, b4: bool, b5: bool, b6: bool, b7: bool): bv8 {
    Bit(b0, 1) | Bit(b1, 2) | Bit(b2, 4) | Bit(b3, 8) | Bit(b4, 16) | Bit(b5, 32) | Bit(b6, 64) | Bit(b7, 128)
  }

  /** The byte that holds a number. */
  function Digit(n: nat): bv8
    requires n < 256
  {
    var n1 := Half(n);
    var n2 := Half(n1);
    var n3 := Half(n2);
    var n4 := Half(n3);
    var n5 := Half(n4);
    var n6 := Half(n5);
    Bits(Odd(n), Odd(n1), Odd(n2), Odd(n3), Odd(n4), Odd(n5), Odd(n6), Odd(Half(n6)))
  }

  /** A number of four binary digits. */
  function Four(b0: bool, b1: bool, b2: bool, b3: bool): (n: nat)
    ensures n < 16
  {
    (if b0 then 1 else 0) + (if b1 then 2 else 0) + (if b2 then 4 else 0) + (if b3 then 8 else 0)
  }

  /** The number a byte holds. */
  function Value(b: bv8): (n: nat)
    ensures n < 256
  {
    Four(b & 1 != 0, b & 2 != 0, b & 4 != 0, b & 8 != 0) + 16 * Four(b & 16 != 0, b & 32 != 0, b & 64 != 0, b & 128 != 0)
  }

  lemma BitsBack(b0: bool, b1: bool, b2: bool, b3: bool, b4: bool, b5: bool, b6: bool, b7: bool)
    ensures var b := Bits(b0, b1, b2, b3, b4, b5, b6, b7);
      && (b & 1 != 0) == b0 && (b & 2 != 0) == b1 && (b & 4 != 0) == b2 && (b & 8 != 0) == b3
      && (b & 16 != 0) == b4 && (b & 32 != 0) == b5 && (b & 64 != 0) == b6 && (b & 128 != 0) == b7
  {
  }

  lemma Halves(n: nat)
    ensures n == (if Odd(n) then 1 else 0) + 2 * Half(n)
  {
  }

  lemma Binary(n: nat, n1: nat, n2: nat, n3: nat, n4: nat, n5: nat, n6: nat, n7: nat)
    requires n < 256 && n1 == Half(n) && n2 == Half(n1) && n3 == Half(n2) && n4 == Half(n3) && n5 == Half(n4)
    requires n6 == Half(n5) && n7 == Half(n6)
    ensures n == Four(Odd(n), Odd(n1), Odd(n2), Odd(n3)) + 16 * Four(Odd(n4), Odd(n5), Odd(n6), Odd(n7))
  {
    hide Odd, Half;
    Halves(n);
    Halves(n1);
    Halves(n2);
    Halves(n3);
    Halves(n4);
    Halves(n5);
    Halves(n6);
    Halves(n7);
  }

  lemma DigitValue(n: nat)
    requires n < 256
    ensures Value(Digit(n)) == n
  {
    hide Odd, Half, Bits, Four;
    var n1 := Half(n);
    var n2 := Half(n1);
    var n3 := Half(n2);
    var n4 := Half(n3);
    var n5 := Half(n4);
    var n6 := Half(n5);
    var n7 := Half(n6);
    BitsBack(Odd(n), Odd(n1), Odd(n2), Odd(n3), Odd(n4), Odd(n5), Odd(n6), Odd(n7));
    Binary(n, n1, n2, n3, n4, n5, n6, n7);
  }

  /** A byte's value is the sum of its bits'. */
  lemma ValueAdds(a: bv8, b: bv8)
    requires a & b == 0
    ensures Value(a | b) == Value(a) + Value(b)
  {
    BitsApart(a, b);
  }

  /** Each counts for twice the one below it. */
  lemma ValueOfBits()
    ensures Value(0) == 0 && Value(1) == 1 && Value(2) == 2 && Value(4) == 4 && Value(8) == 8
    ensures Value(16) == 16 && Value(32) == 32 && Value(64) == 64 && Value(128) == 128
  {
  }

  lemma BitsApart(a: bv8, b: bv8)
    requires a & b == 0
    ensures var c := a | b;
      && (c & 1 != 0 <==> a & 1 != 0 || b & 1 != 0) && !(a & 1 != 0 && b & 1 != 0)
      && (c & 2 != 0 <==> a & 2 != 0 || b & 2 != 0) && !(a & 2 != 0 && b & 2 != 0)
      && (c & 4 != 0 <==> a & 4 != 0 || b & 4 != 0) && !(a & 4 != 0 && b & 4 != 0)
      && (c & 8 != 0 <==> a & 8 != 0 || b & 8 != 0) && !(a & 8 != 0 && b & 8 != 0)
      && (c & 16 != 0 <==> a & 16 != 0 || b & 16 != 0) && !(a & 16 != 0 && b & 16 != 0)
      && (c & 32 != 0 <==> a & 32 != 0 || b & 32 != 0) && !(a & 32 != 0 && b & 32 != 0)
      && (c & 64 != 0 <==> a & 64 != 0 || b & 64 != 0) && !(a & 64 != 0 && b & 64 != 0)
      && (c & 128 != 0 <==> a & 128 != 0 || b & 128 != 0) && !(a & 128 != 0 && b & 128 != 0)
  {
  }

  /** Four bytes, least significant first. */
  function Le(n: nat): (s: seq<bv8>)
    requires n <= UINT_MAX
    ensures |s| == 4
  {
    var n1 := n / 256;
    var n2 := n1 / 256;
    [Digit(n % 256), Digit(n1 % 256), Digit(n2 % 256), Digit(n2 / 256)]
  }

  function FromLe(s: seq<bv8>): nat
    requires |s| == 4
  {
    Value(s[0]) + 256 * Value(s[1]) + 65536 * Value(s[2]) + 16777216 * Value(s[3])
  }

  /** The bytes spell the number, the first one for the units. */
  lemma LeIs(n: nat)
    requires n <= UINT_MAX
    ensures var s := Le(n); n == Value(s[0]) + 256 * Value(s[1]) + 65536 * Value(s[2]) + 16777216 * Value(s[3])
  {
    hide Digit, Value;
    LeRoundTrip(n);
  }

  lemma LeRoundTrip(n: nat)
    requires n <= UINT_MAX
    ensures FromLe(Le(n)) == n
  {
    hide Digit, Value;
    var n1 := n / 256;
    var n2 := n1 / 256;
    DigitValue(n % 256);
    DigitValue(n1 % 256);
    DigitValue(n2 % 256);
    DigitValue(n2 / 256);
  }

  lemma ErasedNumber()
    ensures Value(0xFF) == 255
  {
  }

  /** A number below the largest word is not spelled by erased bytes. */
  lemma LeNotErased(n: nat)
    requires n < UINT_MAX
    ensures Le(n) != [0xFF, 0xFF, 0xFF, 0xFF]
  {
    hide Digit, Value;
    ErasedNumber();
    LeRoundTrip(n);
  }
}
