/** A key-value record: its sizes, the bytes it is written as, and how far those differ from
    erased flash. */
module KvRecord {
  import opened Words
  import opened Numbers
  import Crc32

  type byte = bv8
  type Key = seq<byte>
  type Val = seq<byte>

  const FF: byte := 0xFF
  const KV_HDR_SIZE := 40
  const KV_NAME_MAX := 64
  // Words of the record header after its five status words.
  const HDR_BODY_WORDS := 5
  // Offsets in a record header, after five status words.
  const MAGIC_OFFSET := 20
  const LEN_OFFSET := 24
  const MAGIC: seq<byte> := [0x4B, 0x56, 0x30, 0x30]

  // ---------------------------------------------------------------- sizes

  /** Words that hold `n` bytes. */
  function WordsFor(n: nat): nat { (n + 3) / 4 }

  function WgAlign(n: nat): (r: nat)
    ensures n <= r < n + 4
  {
    4 * WordsFor(n)
  }

  /** Words of a record behind its status table: header, name, value. */
  function BodyWords(key: Key, val: Val): (n: nat)
    ensures n >= HDR_BODY_WORDS
  {
    HDR_BODY_WORDS + WordsFor(|key|) + WordsFor(|val|)
  }

  function KvSize(key: Key, val: Val): (n: nat)
    ensures n >= KV_HDR_SIZE && n == KV_HDR_SIZE + WgAlign(|key|) + WgAlign(|val|)
  {
    MAGIC_OFFSET + 4 * BodyWords(key, val)
  }

  /** A record the code can write: its key length is one byte, its size fits a word. */
  predicate Sized(key: Key, val: Val) { |key| < 255 && KvSize(key, val) <= UINT_MAX }

  // ---------------------------------------------------------------- bytes

  function Fill(n: nat): (s: seq<byte>)
    ensures |s| == n && forall k :: 0 <= k < n ==> s[k] == FF
  {
    seq(n, _ => FF)
  }

  function Padded(s: seq<byte>): (r: seq<byte>)
    ensures |r| == WgAlign(|s|) && s <= r
  {
    s + Fill(WgAlign(|s|) - |s|)
  }

  function CrcBytes(c: bv32): (s: seq<byte>)
    ensures |s| == 4
  {
    [Byte(c, 0), Byte(c, 1), Byte(c, 2), Byte(c, 3)]
  }

  function CrcOf(s: seq<byte>): bv32
    requires |s| == 4
  {
    Join32(s[3], s[2], s[1], s[0])
  }

  lemma CrcRoundTrip(c: bv32)
    ensures CrcOf(CrcBytes(c)) == c
  {
    hide Byte, Join32;
    SplitJoin32(c);
  }

  /** What the checksum covers: key length, value length, padded key, padded value. */
  function Checked(key: Key, val: Val): (s: seq<byte>)
    requires Sized(key, val)
    ensures |s| == KvSize(key, val) - KV_HDR_SIZE + 8
  {
    [Digit(|key|), FF, FF, FF] + Le(|val|) + Padded(key) + Padded(val)
  }

  /** All bytes after the status table. */
  function Body(key: Key, val: Val): (s: seq<byte>)
    requires Sized(key, val)
    ensures |s| == 4 * BodyWords(key, val)
  {
    MAGIC + Le(KvSize(key, val)) + CrcBytes(Crc32.Crc(0, Checked(key, val))) + Checked(key, val)
  }

  lemma Part(mem: seq<byte>, at: nat, s: seq<byte>, i: nat, j: nat)
    requires at + |s| <= |mem| && mem[at..at + |s|] == s && i <= j <= |s|
    ensures mem[at + i..at + j] == s[i..j]
  {
    forall k: nat | k < j - i ensures mem[at + i..at + j][k] == s[i..j][k] {
      assert s[i + k] == mem[at..at + |s|][i + k] == mem[at + i + k];
    }
  }

  lemma BodyParts(key: Key, val: Val)
    requires Sized(key, val)
    ensures Body(key, val)[..4] == MAGIC
    ensures Body(key, val)[4..8] == Le(KvSize(key, val))
    ensures Body(key, val)[8..12] == CrcBytes(Crc32.Crc(0, Checked(key, val)))
    ensures Body(key, val)[12..] == Body(key, val)[12..KvSize(key, val) - 20] == Checked(key, val)
  {
    hide Le, CrcBytes, Checked, Crc32.Crc, KvSize;
  }

  /** Where the fields of a record stand behind its status table: magic word, length, checksum, the length of the key in
      one byte, the length of the value, then the key and the value, both padded. */
  lemma BodyFields(key: Key, val: Val)
    requires Sized(key, val)
    ensures var b, v := Body(key, val), 20 + WgAlign(|key|);
      && |b| == v + WgAlign(|val|) && b[..4] == [0x4B, 0x56, 0x30, 0x30] && b[13..16] == [0xFF, 0xFF, 0xFF]
      && FromLe(b[4..8]) == |b| + 20 && FromLe(b[16..20]) == |val| && Value(b[12]) == |key|
      && Spelled(b[8..12], Crc32.Crc(0, b[12..]))
      && b[20..20 + |key|] == key && b[v..v + |val|] == val
      && (forall i :: 20 + |key| <= i < v ==> b[i] == 0xFF) && (forall i :: v + |val| <= i < |b| ==> b[i] == 0xFF)
  {
    hide Le, FromLe, CrcBytes, Checked, Crc32.Crc, Digit, Value, Body, WgAlign, Spelled, BodyWords;
    var b, c := Body(key, val), Checked(key, val);
    BodyParts(key, val);
    CheckedAt(key, val);
    LeRoundTrip(KvSize(key, val));
    LeRoundTrip(|val|);
    DigitValue(|key|);
    CrcSpelled(Crc32.Crc(0, c));
    assert c == b[12..];
    assert b[16..20] == c[4..8] && b[13..16] == c[1..4];
    assert b[20..20 + |key|] == c[8..8 + |key|];
    var v := 20 + WgAlign(|key|);
    assert b[v..v + |val|] == c[v - 12..v - 12 + |val|];
  }

  /** A word spelled by four bytes, least significant first. */
  predicate Spelled(s: seq<byte>, c: bv32)
    requires |s| == 4
  {
    ((s[3] as bv32) << 24) | ((s[2] as bv32) << 16) | ((s[1] as bv32) << 8) | (s[0] as bv32) == c
  }

  lemma CrcSpelled(c: bv32)
    ensures Spelled(CrcBytes(c), c)
  {
    Spelled32(c);
  }

  lemma PaddedRest(s: seq<byte>)
    ensures forall i :: |s| <= i < |Padded(s)| ==> Padded(s)[i] == 0xFF
  {
  }

  lemma CheckedAt(key: Key, val: Val)
    requires Sized(key, val)
    ensures var c, v := Checked(key, val), 8 + WgAlign(|key|);
      && |c| == v + WgAlign(|val|) && c[0] == Digit(|key|) && c[1..4] == [0xFF, 0xFF, 0xFF] && c[4..8] == Le(|val|)
      && c[8..8 + |key|] == key && c[v..v + |val|] == val
      && (forall i :: 8 + |key| <= i < v ==> c[i] == 0xFF) && (forall i :: v + |val| <= i < |c| ==> c[i] == 0xFF)
  {
    hide Le, Digit, WgAlign;
    var c, v := Checked(key, val), 8 + WgAlign(|key|);
    var head := [Digit(|key|), FF, FF, FF] + Le(|val|);
    assert c == head + (Padded(key) + Padded(val));
    assert head[1..4] == [0xFF, 0xFF, 0xFF] && head[4..8] == Le(|val|);
    assert c[1..4] == head[1..4] && c[4..8] == head[4..8];
    assert c[..8] == head && c[8..v] == Padded(key) && c[v..] == Padded(val);
    assert Padded(key)[..|key|] == key && Padded(val)[..|val|] == val;
    assert c[8..8 + |key|] == c[8..v][..|key|];
    assert c[v..v + |val|] == c[v..][..|val|];
    PaddedRest(key);
    PaddedRest(val);
    forall i | 8 + |key| <= i < v ensures c[i] == 0xFF { assert c[i] == Padded(key)[i - 8]; }
    forall i | v + |val| <= i < |c| ensures c[i] == 0xFF { assert c[i] == Padded(val)[i - v]; }
  }

  // ---------------------------------------------------------------- written words that look erased

  /** The `i`-th word is what erased flash holds. */
  predicate Blank(b: seq<byte>, i: nat) {
    4 * i + 4 <= |b| && b[4 * i] == FF && b[4 * i + 1] == FF && b[4 * i + 2] == FF && b[4 * i + 3] == FF
  }

  /** How many of the first `w` words there are up to the last one that does not look erased. */
  function LastInk(b: seq<byte>, w: nat): (n: nat)
    requires 4 * w <= |b|
    ensures n <= w && (n > 0 ==> !Blank(b, n - 1)) && forall i :: n <= i < w ==> Blank(b, i)
  {
    if w == 0 || !Blank(b, w - 1) then w else LastInk(b, w - 1)
  }

  /** What follows the last word with ink in it is erased, byte by byte. */
  lemma {:induction false} BlankBytes(b: seq<byte>, w: nat)
    requires 4 * w <= |b|
    ensures forall i :: 4 * LastInk(b, w) <= i < 4 * w ==> b[i] == FF
  {
    if w > 0 && Blank(b, w - 1) { BlankBytes(b, w - 1); }
  }

  lemma {:induction false} InkIs(b: seq<byte>, w: nat, i: nat)
    requires 4 * w <= |b| && i < w && !Blank(b, i)
    ensures LastInk(b, w) > i
  {
    if i < w - 1 { InkIs(b, w - 1, i); }
  }

  /** The magic word, the length and both length words of the data never look erased. */
  lemma HeaderInk(key: Key, val: Val)
    requires Sized(key, val)
    ensures var b := Body(key, val); !Blank(b, 0) && !Blank(b, 1) && !Blank(b, 3) && !Blank(b, 4)
  {
    hide Le, CrcBytes, Checked, Crc32.Crc, KvSize, Digit, WgAlign;
    var b := Body(key, val);
    BodyParts(key, val);
    assert b[0] == b[..4][0] == 0x4B;
    LeNotErased(KvSize(key, val));
    assert b[4..8] == [b[4], b[5], b[6], b[7]];
    CheckedHead(key, val);
    assert b[12] == b[12..][0];
    assert b[12..][4..8] == [b[16], b[17], b[18], b[19]];
  }

  lemma CheckedHead(key: Key, val: Val)
    requires Sized(key, val)
    ensures var c := Checked(key, val); |c| >= 8 && c[0] != FF && c[4..8] == Le(|val|) != [FF, FF, FF, FF]
  {
    hide Le, Digit;
    DigitValue(|key|);
    ErasedNumber();
    LeNotErased(|val|);
    assert Checked(key, val)[4..8] == Le(|val|);
  }

  /** The last word of the record does not look erased. */
  predicate Solid(key: Key, val: Val) {
    Sized(key, val) && !Blank(Body(key, val), BodyWords(key, val) - 1)
  }

  /** So a record is solid when its value ends in a word with any byte but 0xFF in it. */
  lemma SolidIff(key: Key, val: Val)
    requires Sized(key, val) && val != []
    ensures Solid(key, val) <==> exists k :: 4 * (WordsFor(|val|) - 1) <= k < |val| && val[k] != FF
  {
    hide Body, BodyWords;
    var b, p, lo := Body(key, val), Padded(val), 4 * (WordsFor(|val|) - 1);
    LastWord(key, val);
    assert |p| == lo + 4 && |b| == 4 * (BodyWords(key, val) - 1) + 4;
    var x, y := b[|b| - 4..], p[|p| - 4..];
    assert x[0] == y[0] && x[1] == y[1] && x[2] == y[2] && x[3] == y[3];
    if Solid(key, val) {
      var k :| lo <= k < lo + 4 && Padded(val)[k] != FF;
      assert k < |val|;
    }
    if k :| lo <= k < |val| && val[k] != FF {
      assert Padded(val)[k] == val[k];
    }
  }

  lemma LastWord(key: Key, val: Val)
    requires Sized(key, val) && val != []
    ensures var b, p := Body(key, val), Padded(val); |p| >= 4 && |b| >= 4 && b[|b| - 4..] == p[|p| - 4..]
  {
    hide Le, CrcBytes, Crc32.Crc, Digit, Padded;
    var b, c := Body(key, val), Checked(key, val);
    var head := [Digit(|key|), FF, FF, FF] + Le(|val|) + Padded(key);
    assert c == head + Padded(val);
    assert b == (MAGIC + Le(KvSize(key, val)) + CrcBytes(Crc32.Crc(0, c)) + head) + Padded(val);
  }

  // ---------------------------------------------------------------- how far a slot reaches into the flash

  /** Words of a slot up to the last one that does not look erased, once its PRE_WRITE mark and
      `written` further words are programmed. */
  function InkWords(key: Key, val: Val, written: nat): (n: nat)
    ensures n >= 1 && (written <= BodyWords(key, val) ==> n <= HDR_BODY_WORDS + written)
  {
    if written == 0 then 1
    else if !Sized(key, val) || written > BodyWords(key, val) then HDR_BODY_WORDS + 1
    else HDR_BODY_WORDS + LastInk(Body(key, val), written)
  }

  lemma InkBounds(key: Key, val: Val, written: nat)
    requires Sized(key, val) && written <= BodyWords(key, val)
    ensures written >= 1 ==> InkWords(key, val, written) >= 6
    ensures written >= 2 ==> InkWords(key, val, written) >= 7
    ensures written >= 5 ==> InkWords(key, val, written) >= 10
    ensures written == BodyWords(key, val) ==> (InkWords(key, val, written) == 5 + written <==> Solid(key, val))
  {
    hide Body, Blank;
    var b := Body(key, val);
    HeaderInk(key, val);
    if written >= 1 { InkIs(b, written, 0); }
    if written >= 2 { InkIs(b, written, 1); }
    if written >= 5 { InkIs(b, written, 4); }
  }
}
