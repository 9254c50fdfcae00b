/** CRC-16 as the register protocol computes it: polynomial 0x1021, start value 0xFFFF, most
    significant bit first. The burst theorem is proved on the bits of a message. */
module Crc16 {
  import opened Folding
  import opened Words

  const START: bv16 := 0xFFFF

  /** One shift, feeding the polynomial back when a one falls out. */
  function Shift(c: bv16): bv16 {
    (c << 1) ^ (if c & 0x8000 != 0 then 0x1021 else 0)
  }

  function Turn(c: bv16, n: nat): bv16 {
    if n == 0 then c else Shift(Turn(c, n - 1))
  }

  function Enter(c: bv16, b: bv8): bv16 { c ^ ((b as bv16) << 8) }

  function Feed(c: bv16, b: bv8): bv16 { Turn(Enter(c, b), 8) }

  function Crc(s: seq<bv8>): bv16 { Fold(Feed, START, s) }

  /** The two nested loops over a buffer compute the fold. */
  method CalculateCrc16(data: seq<bv8>) returns (crc: bv16)
    ensures crc == Crc(data)
  {
    hide Enter, Shift;
    crc := START;
    for i := 0 to |data|
      invariant crc == Fold(Feed, START, data[..i])
    {
      FoldStep(Feed, START, data, i);
      crc := Enter(crc, data[i]);
      ghost var x := crc;
      for j := 8 downto 0
        invariant crc == Turn(x, 8 - j)
      {
        ShiftCases(crc);
        if crc & 0x8000 != 0 {
          crc := (crc << 1) ^ 0x1021;
        } else {
          crc := crc << 1;
        }
      }
    }
    assert data[..|data|] == data;
  }

  lemma ShiftCases(c: bv16)
    ensures c & 0x8000 != 0 ==> Shift(c) == (c << 1) ^ 0x1021
    ensures c & 0x8000 == 0 ==> Shift(c) == c << 1
  {
  }

  /** The checksum of the nine digits "123456789". */
  lemma KnownAnswer()
    ensures Crc([0x31, 0x32, 0x33, 0x34, 0x35, 0x36, 0x37, 0x38, 0x39]) == 0x29B1
  {
    hide Fold, Feed;
    var s: seq<bv8> := [0x31, 0x32, 0x33, 0x34, 0x35, 0x36, 0x37, 0x38, 0x39];
    FedNone(s);
    FedOne(s, 0, 0xFFFF);
    FedOne(s, 1, 0xC782);
    FedOne(s, 2, 0x3DBA);
    FedOne(s, 3, 0x5BCE);
    FedOne(s, 4, 0x5349);
    FedOne(s, 5, 0x4560);
    FedOne(s, 6, 0x2EF4);
    FedOne(s, 7, 0x7718);
    FedOne(s, 8, 0xA12B);
    assert s[..9] == s;
  }

  lemma FedNone(s: seq<bv8>)
    ensures Fold(Feed, START, s[..0]) == 0xFFFF
  {
  }

  /** One more byte, as eight shifts. */
  lemma FedOne(s: seq<bv8>, i: nat, c: bv16)
    requires i < |s| && Fold(Feed, START, s[..i]) == c
    ensures Fold(Feed, START, s[..i + 1]) == Shift(Shift(Shift(Shift(Shift(Shift(Shift(Shift(Enter(c, s[i])))))))))
  {
    hide Shift, Enter;
    FoldStep(Feed, START, s, i);
    var x := Enter(c, s[i]);
    assert Turn(x, 0) == x && Turn(x, 1) == Shift(Turn(x, 0));
    assert Turn(x, 2) == Shift(Turn(x, 1)) && Turn(x, 3) == Shift(Turn(x, 2)) && Turn(x, 4) == Shift(Turn(x, 3));
    assert Turn(x, 5) == Shift(Turn(x, 4)) && Turn(x, 6) == Shift(Turn(x, 5)) && Turn(x, 7) == Shift(Turn(x, 6));
  }

  // ---------------------------------------------------------------- one bit at a time

  function Xor(c: bv16, d: bv16): bv16 { c ^ d }

  function Mark(bit: bool): bv16 { if bit then 0x8000 else 0 }

  function FeedBit(c: bv16, bit: bool): bv16 { Shift(Xor(c, Mark(bit))) }

  function ByteBits(b: bv8): seq<bool> {
    [b & 0x80 != 0, b & 0x40 != 0, b & 0x20 != 0, b & 0x10 != 0,
     b & 0x08 != 0, b & 0x04 != 0, b & 0x02 != 0, b & 0x01 != 0]
  }

  /** The bits of a message, each byte most significant bit first. */
  function Bits(s: seq<bv8>): (r: seq<bool>)
    ensures |r| == 8 * |s|
  {
    if s == [] then [] else Bits(s[..|s| - 1]) + ByteBits(s[|s| - 1])
  }

  function Twice(w: bv16): bv16 { w << 1 }

  function Up(w: bv16, n: nat): bv16 {
    if n == 0 then w else Twice(Up(w, n - 1))
  }

  predicate Top(w: bv16) { w & 0x8000 != 0 }

  /** The first `n` bits of a word. */
  function Tops(w: bv16, n: nat): (s: seq<bool>)
    ensures |s| == n
  {
    if n == 0 then [] else Tops(w, n - 1) + [Top(Up(w, n - 1))]
  }

  lemma ShiftIs(c: bv16)
    ensures Shift(c) == (c << 1) ^ (if c & 0x8000 != 0 then 0x1021 else 0)
  {
  }

  lemma XorIs(a: bv16, b: bv16)
    ensures Xor(a, b) == a ^ b
  {
  }

  /** The feedback without the case distinction. */
  lemma ShiftSpread(c: bv16, s: bv16)
    requires s == (c << 1) ^ (if c & 0x8000 != 0 then 0x1021 else 0)
    ensures s == (c << 1) ^ (c >> 15) ^ ((c >> 15) << 5) ^ ((c >> 15) << 12)
  {
  }

  lemma ShiftIsSpread(c: bv16)
    ensures Shift(c) == (c << 1) ^ (c >> 15) ^ ((c >> 15) << 5) ^ ((c >> 15) << 12)
  {
    hide Shift;
    ShiftIs(c);
    ShiftSpread(c, Shift(c));
  }

  lemma SpreadLinear(a: bv16, b: bv16, x: bv16, sa: bv16, sb: bv16, sx: bv16)
    requires x == a ^ b
    requires sa == (a << 1) ^ (a >> 15) ^ ((a >> 15) << 5) ^ ((a >> 15) << 12)
    requires sb == (b << 1) ^ (b >> 15) ^ ((b >> 15) << 5) ^ ((b >> 15) << 12)
    requires sx == (x << 1) ^ (x >> 15) ^ ((x >> 15) << 5) ^ ((x >> 15) << 12)
    ensures sx == sa ^ sb
  {
  }

  lemma ShiftLinear(a: bv16, b: bv16)
    ensures Shift(Xor(a, b)) == Xor(Shift(a), Shift(b))
  {
    hide Shift, Xor;
    var x := Xor(a, b);
    ShiftIsSpread(a);
    ShiftIsSpread(b);
    ShiftIsSpread(x);
    XorIs(a, b);
    XorIs(Shift(a), Shift(b));
    SpreadLinear(a, b, x, Shift(a), Shift(b), Shift(x));
  }

  lemma PeelOne(x: bv16, c: bv16, w: bv16)
    requires x == Xor(c, w)
    ensures Shift(x) == Xor(FeedBit(c, Top(w)), Twice(w))
  {
    hide Shift, Xor, Top, Twice, Mark;
    var m := Mark(Top(w));
    XorRegroups(c, w, m);
    ShiftLinear(Xor(c, m), Xor(w, m));
    ShiftOfRest(w, Xor(w, m));
  }

  lemma XorRegroups(c: bv16, w: bv16, m: bv16)
    ensures Xor(c, w) == Xor(Xor(c, m), Xor(w, m))
  {
    hide Xor;
    XorIs(c, w);
    XorIs(c, m);
    XorIs(w, m);
    XorIs(Xor(c, m), Xor(w, m));
    RegroupBits(c, w, m, Xor(c, m), Xor(w, m));
  }

  lemma RegroupBits(c: bv16, w: bv16, m: bv16, a: bv16, b: bv16)
    requires a == c ^ m && b == w ^ m
    ensures c ^ w == a ^ b
  {
  }

  lemma ShiftOfRest(w: bv16, r: bv16)
    requires r == Xor(w, Mark(Top(w)))
    ensures Shift(r) == Twice(w)
  {
  }

  /** Shifting a register with a word in it is feeding the word's bits from the top. */
  lemma {:induction false} Peel(c: bv16, w: bv16, n: nat)
    ensures Turn(Xor(c, w), n) == Xor(Fold(FeedBit, c, Tops(w, n)), Up(w, n))
  {
    hide FeedBit, Top, Twice, Shift, Xor;
    if n > 0 {
      Peel(c, w, n - 1);
      PeelOne(Turn(Xor(c, w), n - 1), Fold(FeedBit, c, Tops(w, n - 1)), Up(w, n - 1));
    } else {
      assert Tops(w, 0) == [];
    }
  }

  /** Xoring a byte in and shifting eight times is feeding its bits one by one. */
  lemma FeedIsBits(c: bv16, b: bv8)
    ensures Feed(c, b) == Fold(FeedBit, c, ByteBits(b))
  {
    var w := (b as bv16) << 8;
    Peel(c, w, 8);
    ByteTops(b, w);
    EnterXor(c, b, w);
    XorZero(Fold(FeedBit, c, ByteBits(b)));
  }

  lemma EnterXor(c: bv16, b: bv8, w: bv16)
    requires w == (b as bv16) << 8
    ensures Enter(c, b) == Xor(c, w)
  {
  }

  lemma XorZero(c: bv16)
    ensures Xor(c, 0) == c
  {
  }

  lemma ByteTops(b: bv8, w: bv16)
    requires w == (b as bv16) << 8
    ensures Tops(w, 8) == ByteBits(b) && Up(w, 8) == 0
  {
    hide Top, Twice;
    UpIs(w);
    TopsAre(w);
    TopBits(b, w);
  }

  lemma TopsAre(w: bv16)
    ensures Tops(w, 8) == [Top(Up(w, 0)), Top(Up(w, 1)), Top(Up(w, 2)), Top(Up(w, 3)),
                           Top(Up(w, 4)), Top(Up(w, 5)), Top(Up(w, 6)), Top(Up(w, 7))]
  {
    hide Top, Up, Tops;
    TopsStep(w, 0);
    TopsStep(w, 1);
    TopsStep(w, 2);
    TopsStep(w, 3);
    TopsStep(w, 4);
    TopsStep(w, 5);
    TopsStep(w, 6);
    TopsStep(w, 7);
  }

  lemma TopsStep(w: bv16, n: nat)
    ensures Tops(w, 0) == []
    ensures Tops(w, n + 1) == Tops(w, n) + [Top(Up(w, n))]
  {
  }

  lemma UpIs(w: bv16)
    ensures Up(w, 0) == w && Up(w, 1) == w << 1 && Up(w, 2) == w << 2 && Up(w, 3) == w << 3 && Up(w, 4) == w << 4
    ensures Up(w, 5) == w << 5 && Up(w, 6) == w << 6 && Up(w, 7) == w << 7 && Up(w, 8) == w << 8
  {
    hide Twice;
    TwiceIs(w);
    assert Up(w, 1) == Twice(Up(w, 0)) && Up(w, 2) == Twice(Up(w, 1)) && Up(w, 3) == Twice(Up(w, 2));
    assert Up(w, 4) == Twice(Up(w, 3)) && Up(w, 5) == Twice(Up(w, 4)) && Up(w, 6) == Twice(Up(w, 5));
    assert Up(w, 7) == Twice(Up(w, 6)) && Up(w, 8) == Twice(Up(w, 7));
  }

  lemma TwiceIs(w: bv16)
    ensures Twice(w) == w << 1 && Twice(w << 1) == w << 2 && Twice(w << 2) == w << 3 && Twice(w << 3) == w << 4
    ensures Twice(w << 4) == w << 5 && Twice(w << 5) == w << 6 && Twice(w << 6) == w << 7 && Twice(w << 7) == w << 8
  {
  }

  lemma TopBits(b: bv8, w: bv16)
    requires w == (b as bv16) << 8
    ensures Top(w) == (b & 0x80 != 0) && Top(w << 1) == (b & 0x40 != 0) && Top(w << 2) == (b & 0x20 != 0)
    ensures Top(w << 3) == (b & 0x10 != 0) && Top(w << 4) == (b & 0x08 != 0) && Top(w << 5) == (b & 0x04 != 0)
    ensures Top(w << 6) == (b & 0x02 != 0) && Top(w << 7) == (b & 0x01 != 0) && w << 8 == 0
  {
  }

  /** The checksum is the bit-serial one. */
  lemma {:induction false} FeedsBits(c: bv16, s: seq<bv8>)
    ensures Fold(Feed, c, s) == Fold(FeedBit, c, Bits(s))
  {
    hide Feed, FeedBit, ByteBits;
    if s != [] {
      var n := |s| - 1;
      FeedsBits(c, s[..n]);
      FeedIsBits(Fold(Feed, c, s[..n]), s[n]);
      FoldAppend(FeedBit, c, Bits(s[..n]), ByteBits(s[n]));
    }
  }

  // ---------------------------------------------------------------- bursts

  lemma ShiftInjective(x: bv16, y: bv16)
    requires Shift(x) == Shift(y)
    ensures x == y
  {
    ShiftIs(x);
    ShiftIs(y);
    hide Shift;
    ShiftBitsInjective(x, y);
  }

  lemma ShiftBitsInjective(x: bv16, y: bv16)
    requires (x << 1) ^ (if x & 0x8000 != 0 then 0x1021 else 0) == (y << 1) ^ (if y & 0x8000 != 0 then 0x1021 else 0)
    ensures x == y
  {
  }

  lemma FeedBitInjective(c: bv16, d: bv16, bit: bool)
    requires FeedBit(c, bit) == FeedBit(d, bit)
    ensures c == d
  {
    hide Shift, Xor;
    ShiftInjective(Xor(c, Mark(bit)), Xor(d, Mark(bit)));
    XorCancels(Mark(bit), c, d);
  }

  /** The same bits never bring two different registers together. */
  lemma {:induction false} TailInjective(c: bv16, d: bv16, s: seq<bool>)
    requires Fold(FeedBit, c, s) == Fold(FeedBit, d, s)
    ensures c == d
  {
    hide FeedBit;
    if s != [] {
      var n := |s| - 1;
      FeedBitInjective(Fold(FeedBit, c, s[..n]), Fold(FeedBit, d, s[..n]), s[n]);
      TailInjective(c, d, s[..n]);
    }
  }

  function Half(p: bv16): bv16 { p >> 1 }

  function Onto(top: bool, p: bv16): bv16 { Xor(Mark(top), Half(p)) }

  /** At most 16 bits, packed from the top of a register. */
  function Pack(s: seq<bool>): bv16 {
    if s == [] then 0 else Onto(s[0], Pack(s[1..]))
  }

  function Room(n: nat): bv16 {
    match n
    case 0 => 0xFFFF case 1 => 0x7FFF case 2 => 0x3FFF case 3 => 0x1FFF
    case 4 => 0x0FFF case 5 => 0x07FF case 6 => 0x03FF case 7 => 0x01FF
    case 8 => 0x00FF case 9 => 0x007F case 10 => 0x003F case 11 => 0x001F
    case 12 => 0x000F case 13 => 0x0007 case 14 => 0x0003 case 15 => 0x0001
    case _ => 0
  }

  predicate Fits(p: bv16, n: nat) { p & Room(n) == 0 }

  lemma RoomStep(n: nat, p: bv16, top: bool)
    requires n < 16 && Fits(p, n)
    ensures Fits(Onto(top, p), n + 1)
  {
  }

  /** The bits below the packed ones are clear. */
  lemma {:induction false} PackLeavesRoom(s: seq<bool>)
    requires |s| <= 16
    ensures Fits(Pack(s), |s|)
    decreases |s|
  {
    if s != [] {
      hide Fits, Onto;
      PackLeavesRoom(s[1..]);
      RoomStep(|s| - 1, Pack(s[1..]), s[0]);
    }
  }

  predicate Even(p: bv16) { p & 1 == 0 }

  lemma RoomIsOdd(n: nat, p: bv16)
    requires n < 16 && Fits(p, n)
    ensures Even(p)
  {
  }

  /** One bit backwards: the lowest bit of the polynomial tells which of the two fed back. */
  lemma Backwards(c: bv16, d: bv16, u: bool, v: bool, p: bv16, q: bv16)
    requires Even(p) && Even(q) && Xor(FeedBit(c, u), p) == Xor(FeedBit(d, v), q)
    ensures Xor(c, Onto(u, p)) == Xor(d, Onto(v, q))
  {
    hide Shift, Mark, Xor, Even, Half;
    var x, y := Xor(c, Mark(u)), Xor(d, Mark(v));
    XorAssoc(c, Mark(u), Half(p));
    XorAssoc(d, Mark(v), Half(q));
    BackwardsShift(x, y, p, q);
  }

  lemma BackwardsShift(x: bv16, y: bv16, p: bv16, q: bv16)
    requires Even(p) && Even(q) && Xor(Shift(x), p) == Xor(Shift(y), q)
    ensures Xor(x, Half(p)) == Xor(y, Half(q))
  {
    hide Shift, Xor, Even;
    ShiftIs(x);
    ShiftIs(y);
    XorIs(Shift(x), p);
    XorIs(Shift(y), q);
    EvenIs(p);
    EvenIs(q);
    BackwardsBits(x, y, p, q, Shift(x), Shift(y));
    XorIs(x, Half(p));
    XorIs(y, Half(q));
  }

  lemma EvenIs(p: bv16)
    ensures Even(p) <==> p & 1 == 0
  {
  }

  lemma XorAssoc(c: bv16, m: bv16, h: bv16)
    ensures Xor(c, Xor(m, h)) == Xor(Xor(c, m), h)
  {
    hide Xor;
    XorIs(m, h);
    XorIs(c, m);
    XorIs(c, Xor(m, h));
    XorIs(Xor(c, m), h);
    AssocBits(c, m, h, Xor(m, h), Xor(c, m));
  }

  lemma AssocBits(c: bv16, m: bv16, h: bv16, r: bv16, x: bv16)
    requires r == m ^ h && x == c ^ m
    ensures c ^ r == x ^ h
  {
  }

  lemma BackwardsBits(x: bv16, y: bv16, p: bv16, q: bv16, sx: bv16, sy: bv16)
    requires p & 1 == 0 && q & 1 == 0
    requires sx == (x << 1) ^ (if x & 0x8000 != 0 then 0x1021 else 0)
    requires sy == (y << 1) ^ (if y & 0x8000 != 0 then 0x1021 else 0)
    requires sx ^ p == sy ^ q
    ensures x ^ (p >> 1) == y ^ (q >> 1)
  {
    LowBit(x, p, sx);
    LowBit(y, q, sy);
    HighBits(x, p, sx);
    HighBits(y, q, sy);
    if x & 0x8000 == y & 0x8000 { SameHigh(x, y, p, q); }
  }

  /** The lowest bit says whether the polynomial was fed back. */
  lemma LowBit(x: bv16, p: bv16, sx: bv16)
    requires p & 1 == 0 && sx == (x << 1) ^ (if x & 0x8000 != 0 then 0x1021 else 0)
    ensures (sx ^ p) & 1 == if x & 0x8000 != 0 then 1 else 0
  {
  }

  lemma HighBits(x: bv16, p: bv16, sx: bv16)
    requires sx == (x << 1) ^ (if x & 0x8000 != 0 then 0x1021 else 0)
    ensures (sx ^ p) ^ (if x & 0x8000 != 0 then 0x1021 else 0) == (x << 1) ^ p
  {
  }

  lemma SameHigh(x: bv16, y: bv16, p: bv16, q: bv16)
    requires x & 0x8000 == y & 0x8000 && (x << 1) ^ p == (y << 1) ^ q && p & 1 == 0 && q & 1 == 0
    ensures x ^ (p >> 1) == y ^ (q >> 1)
  {
  }

  lemma {:induction false} FoldFront(c: bv16, s: seq<bool>)
    requires s != []
    ensures Fold(FeedBit, c, s) == Fold(FeedBit, FeedBit(c, s[0]), s[1..])
  {
    FoldAppend(FeedBit, c, [s[0]], s[1..]);
    assert [s[0]] + s[1..] == s && [s[0]][..0] == [];
  }

  /** Up to 16 bits act on the register through one exclusive or, so they can be read back. */
  lemma {:induction false} WindowInjective(c: bv16, d: bv16, u: seq<bool>, v: seq<bool>)
    requires |u| == |v| <= 16
    requires Fold(FeedBit, c, u) == Fold(FeedBit, d, v)
    ensures Xor(c, Pack(u)) == Xor(d, Pack(v))
    decreases |u|
  {
    hide FeedBit, Xor, Even, Fits, Onto;
    if u != [] {
      FoldFront(c, u);
      FoldFront(d, v);
      WindowInjective(FeedBit(c, u[0]), FeedBit(d, v[0]), u[1..], v[1..]);
      PackLeavesRoom(u[1..]);
      PackLeavesRoom(v[1..]);
      RoomIsOdd(|u| - 1, Pack(u[1..]));
      RoomIsOdd(|u| - 1, Pack(v[1..]));
      Backwards(c, d, u[0], v[0], Pack(u[1..]), Pack(v[1..]));
    }
  }

  lemma XorCancels(c: bv16, p: bv16, q: bv16)
    requires Xor(c, p) == Xor(c, q) || Xor(p, c) == Xor(q, c)
    ensures p == q
  {
  }

  lemma OntoInjective(u: bool, v: bool, p: bv16, q: bv16)
    requires Even(p) && Even(q) && Onto(u, p) == Onto(v, q)
    ensures u == v && p == q
  {
  }

  lemma {:induction false} PackInjective(u: seq<bool>, v: seq<bool>)
    requires |u| == |v| <= 16 && Pack(u) == Pack(v)
    ensures u == v
    decreases |u|
  {
    hide Even, Fits, Onto;
    if u != [] {
      PackLeavesRoom(u[1..]);
      PackLeavesRoom(v[1..]);
      RoomIsOdd(|u| - 1, Pack(u[1..]));
      RoomIsOdd(|u| - 1, Pack(v[1..]));
      OntoInjective(u[0], v[0], Pack(u[1..]), Pack(v[1..]));
      PackInjective(u[1..], v[1..]);
      assert u == [u[0]] + u[1..] && v == [v[0]] + v[1..];
    }
  }

  lemma ByteBitsInjective(a: bv8, b: bv8)
    requires ByteBits(a) == ByteBits(b)
    ensures a == b
  {
    var s, t := ByteBits(a), ByteBits(b);
    assert s[0] == t[0] && s[1] == t[1] && s[2] == t[2] && s[3] == t[3];
    assert s[4] == t[4] && s[5] == t[5] && s[6] == t[6] && s[7] == t[7];
    SameBits(a, b);
  }

  lemma SameBits(a: bv8, b: bv8)
    requires (a & 0x80 != 0) == (b & 0x80 != 0) && (a & 0x40 != 0) == (b & 0x40 != 0)
    requires (a & 0x20 != 0) == (b & 0x20 != 0) && (a & 0x10 != 0) == (b & 0x10 != 0)
    requires (a & 0x08 != 0) == (b & 0x08 != 0) && (a & 0x04 != 0) == (b & 0x04 != 0)
    requires (a & 0x02 != 0) == (b & 0x02 != 0) && (a & 0x01 != 0) == (b & 0x01 != 0)
    ensures a == b
  {
  }

  lemma {:induction false} BitsInjective(a: seq<bv8>, b: seq<bv8>)
    requires |a| == |b| && Bits(a) == Bits(b)
    ensures a == b
  {
    if a != [] {
      var n := |a| - 1;
      var x, y := Bits(a[..n]), Bits(b[..n]);
      assert x == (x + ByteBits(a[n]))[..8 * n] == (y + ByteBits(b[n]))[..8 * n] == y;
      assert ByteBits(a[n]) == (x + ByteBits(a[n]))[8 * n..] == (y + ByteBits(b[n]))[8 * n..] == ByteBits(b[n]);
      BitsInjective(a[..n], b[..n]);
      ByteBitsInjective(a[n], b[n]);
      assert a == a[..n] + [a[n]] && b == b[..n] + [b[n]];
    }
  }

  /** All differences between two bit strings lie in the 16 bits from `p`. */
  predicate Burst(x: seq<bool>, y: seq<bool>, p: nat) {
    |x| == |y| && forall k :: 0 <= k < |x| && !(p <= k < p + 16) ==> x[k] == y[k]
  }

  /** Messages of one length that differ, but only inside 16 consecutive bits, never share a checksum. */
  lemma BurstDetected(a: seq<bv8>, b: seq<bv8>, p: nat)
    requires |a| == |b| && a != b && Burst(Bits(a), Bits(b), p)
    ensures Crc(a) != Crc(b)
  {
    hide Feed, FeedBit, Bits, Fold;
    FeedsBits(START, a);
    FeedsBits(START, b);
    if Crc(a) == Crc(b) {
      SameWithBurst(START, Bits(a), Bits(b), p);
      BitsInjective(a, b);
    }
  }

  lemma SameWithBurst(c: bv16, x: seq<bool>, y: seq<bool>, p: nat)
    requires Burst(x, y, p) && Fold(FeedBit, c, x) == Fold(FeedBit, c, y)
    ensures x == y
  {
    hide Feed, FeedBit, Fold;
    var lo := if p < |x| then p else |x|;
    var hi := if lo + 16 < |x| then lo + 16 else |x|;
    var u, v := x[lo..hi], y[lo..hi];
    assert y[..lo] == x[..lo];
    assert y[hi..] == x[hi..];
    Cut(x, lo, hi);
    Cut(y, lo, hi);
    WindowTold(c, x[..lo], u, v, x[hi..]);
  }

  lemma Cut(x: seq<bool>, lo: nat, hi: nat)
    requires lo <= hi <= |x|
    ensures x == x[..lo] + (x[lo..hi] + x[hi..])
  {
  }

  /** Between one beginning and one end, two windows of at most 16 bits are told apart. */
  lemma WindowTold(c: bv16, pre: seq<bool>, u: seq<bool>, v: seq<bool>, post: seq<bool>)
    requires |u| == |v| <= 16
    requires Fold(FeedBit, c, pre + (u + post)) == Fold(FeedBit, c, pre + (v + post))
    ensures u == v
  {
    hide FeedBit, Fold, Pack, Xor;
    var d := Fold(FeedBit, c, pre);
    FoldAppend(FeedBit, c, pre, u + post);
    FoldAppend(FeedBit, c, pre, v + post);
    FoldAppend(FeedBit, d, u, post);
    FoldAppend(FeedBit, d, v, post);
    TailInjective(Fold(FeedBit, d, u), Fold(FeedBit, d, v), post);
    WindowInjective(d, d, u, v);
    XorCancels(d, Pack(u), Pack(v));
    PackInjective(u, v);
  }

  // ---------------------------------------------------------------- a message with its checksum

  /** The checksum of a message and two more bytes is 0 exactly when the two are the message's
      own checksum, high byte first. */
  lemma SelfCheckIff(m: seq<bv8>, hi: bv8, lo: bv8)
    ensures Crc(m + [hi, lo]) == 0 <==> hi == Hi(Crc(m)) && lo == Lo(Crc(m))
  {
    hide Enter, Shift, Hi, Lo;
    var c := Crc(m);
    FoldAppend(Feed, START, m, [hi, lo]);
    FoldStep(Feed, c, [hi, lo], 0);
    FoldStep(Feed, c, [hi, lo], 1);
    assert [hi, lo][..2] == [hi, lo];
    var x := Enter(c, hi);
    var y := lo as bv16;
    TurnZeroIff(Enter(Feed(c, hi), lo), 8);
    EnterZeroIff(Feed(c, hi), lo);
    NoFeedback(lo, y);
    if Turn(x, 8) == y << 8 { TurnInjective(x, y, 8); }
    EnterIs(c, hi, lo);
  }

  lemma {:induction false} TurnInjective(x: bv16, y: bv16, n: nat)
    requires Turn(x, n) == Turn(y, n)
    ensures x == y
  {
    hide Shift;
    if n > 0 {
      ShiftInjective(Turn(x, n - 1), Turn(y, n - 1));
      TurnInjective(x, y, n - 1);
    }
  }

  lemma {:induction false} TurnZeroIff(x: bv16, n: nat)
    ensures Turn(x, n) == 0 <==> x == 0
  {
    if n > 0 {
      TurnZeroIff(x, n - 1);
      ShiftZeroIff(Turn(x, n - 1));
    }
  }

  lemma ShiftZeroIff(x: bv16)
    ensures Shift(x) == 0 <==> x == 0
  {
  }

  lemma EnterZeroIff(c: bv16, b: bv8)
    ensures Enter(c, b) == 0 <==> c == (b as bv16) << 8
  {
  }

  lemma EnterIs(c: bv16, hi: bv8, lo: bv8)
    ensures Enter(c, hi) == (lo as bv16) <==> hi == Hi(c) && lo == Lo(c)
  {
  }

  /** A byte in the low half moves up without feedback. */
  lemma NoFeedback(b: bv8, y: bv16)
    requires y == b as bv16
    ensures Turn(y, 8) == y << 8
  {
    hide Shift, Twice, Top;
    UpIs(y);
    LowTops(b, y);
    TurnIsUp(y, 8);
  }

  lemma LowTops(b: bv8, y: bv16)
    requires y == b as bv16
    ensures !Top(y) && !Top(y << 1) && !Top(y << 2) && !Top(y << 3)
    ensures !Top(y << 4) && !Top(y << 5) && !Top(y << 6) && !Top(y << 7)
  {
  }

  lemma {:induction false} TurnIsUp(y: bv16, n: nat)
    requires forall i: nat :: i < n ==> !Top(Up(y, i))
    ensures Turn(y, n) == Up(y, n)
  {
    if n > 0 {
      TurnIsUp(y, n - 1);
      ShiftIsTwice(Up(y, n - 1));
    }
  }

  lemma ShiftIsTwice(w: bv16)
    requires !Top(w)
    ensures Shift(w) == Twice(w)
  {
  }
}
