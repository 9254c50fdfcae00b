/** CRC-32 as the database computes it: a byte table over a running register that is inverted
    on entry and exit. The reference is the bit-serial reflected CRC-32 of section 8 of RFC 1952. */
module Crc32 {
  import opened Folding

  // ---------------------------------------------------------------- reference: one bit at a time

  /** Eight shifts, each feeding the reflected polynomial back when a one falls out. */
  function Shift8(c: bv32): bv32 {
    var c1 := (c >> 1) ^ (if c & 1 == 1 then 0xEDB88320 else 0);
    var c2 := (c1 >> 1) ^ (if c1 & 1 == 1 then 0xEDB88320 else 0);
    var c3 := (c2 >> 1) ^ (if c2 & 1 == 1 then 0xEDB88320 else 0);
    var c4 := (c3 >> 1) ^ (if c3 & 1 == 1 then 0xEDB88320 else 0);
    var c5 := (c4 >> 1) ^ (if c4 & 1 == 1 then 0xEDB88320 else 0);
    var c6 := (c5 >> 1) ^ (if c5 & 1 == 1 then 0xEDB88320 else 0);
    var c7 := (c6 >> 1) ^ (if c6 & 1 == 1 then 0xEDB88320 else 0);
    (c7 >> 1) ^ (if c7 & 1 == 1 then 0xEDB88320 else 0)
  }

  function Absorb(c: bv32, b: bv8): bv32 { Shift8(c ^ (b as bv32)) }

  function Invert(c: bv32): bv32 { c ^ 0xFFFFFFFF }

  /** The checksum of `s` continued from the checksum `crc` of what came before it; each byte
      enters least significant bit first. */
  function Crc(crc: bv32, s: seq<bv8>): bv32 {
    Invert(Fold(Absorb, Invert(crc), s))
  }

  // ---------------------------------------------------------------- the byte table, in rows of sixteen

  function Row0(l: bv32): bv32 {
    if l == 0 then 0x00000000 else if l == 1 then 0x77073096 else if l == 2 then 0xee0e612c else if l == 3 then 0x990951ba else
    if l == 4 then 0x076dc419 else if l == 5 then 0x706af48f else if l == 6 then 0xe963a535 else if l == 7 then 0x9e6495a3 else
    if l == 8 then 0x0edb8832 else if l == 9 then 0x79dcb8a4 else if l == 10 then 0xe0d5e91e else if l == 11 then 0x97d2d988 else
    if l == 12 then 0x09b64c2b else if l == 13 then 0x7eb17cbd else if l == 14 then 0xe7b82d07 else 0x90bf1d91
  }

  function Row1(l: bv32): bv32 {
    if l == 0 then 0x1db71064 else if l == 1 then 0x6ab020f2 else if l == 2 then 0xf3b97148 else if l == 3 then 0x84be41de else
    if l == 4 then 0x1adad47d else if l == 5 then 0x6ddde4eb else if l == 6 then 0xf4d4b551 else if l == 7 then 0x83d385c7 else
    if l == 8 then 0x136c9856 else if l == 9 then 0x646ba8c0 else if l == 10 then 0xfd62f97a else if l == 11 then 0x8a65c9ec else
    if l == 12 then 0x14015c4f else if l == 13 then 0x63066cd9 else if l == 14 then 0xfa0f3d63 else 0x8d080df5
  }

  function Row2(l: bv32): bv32 {
    if l == 0 then 0x3b6e20c8 else if l == 1 then 0x4c69105e else if l == 2 then 0xd56041e4 else if l == 3 then 0xa2677172 else
    if l == 4 then 0x3c03e4d1 else if l == 5 then 0x4b04d447 else if l == 6 then 0xd20d85fd else if l == 7 then 0xa50ab56b else
    if l == 8 then 0x35b5a8fa else if l == 9 then 0x42b2986c else if l == 10 then 0xdbbbc9d6 else if l == 11 then 0xacbcf940 else
    if l == 12 then 0x32d86ce3 else if l == 13 then 0x45df5c75 else if l == 14 then 0xdcd60dcf else 0xabd13d59
  }

  function Row3(l: bv32): bv32 {
    if l == 0 then 0x26d930ac else if l == 1 then 0x51de003a else if l == 2 then 0xc8d75180 else if l == 3 then 0xbfd06116 else
    if l == 4 then 0x21b4f4b5 else if l == 5 then 0x56b3c423 else if l == 6 then 0xcfba9599 else if l == 7 then 0xb8bda50f else
    if l == 8 then 0x2802b89e else if l == 9 then 0x5f058808 else if l == 10 then 0xc60cd9b2 else if l == 11 then 0xb10be924 else
    if l == 12 then 0x2f6f7c87 else if l == 13 then 0x58684c11 else if l == 14 then 0xc1611dab else 0xb6662d3d
  }

  function Row4(l: bv32): bv32 {
    if l == 0 then 0x76dc4190 else if l == 1 then 0x01db7106 else if l == 2 then 0x98d220bc else if l == 3 then 0xefd5102a else
    if l == 4 then 0x71b18589 else if l == 5 then 0x06b6b51f else if l == 6 then 0x9fbfe4a5 else if l == 7 then 0xe8b8d433 else
    if l == 8 then 0x7807c9a2 else if l == 9 then 0x0f00f934 else if l == 10 then 0x9609a88e else if l == 11 then 0xe10e9818 else
    if l == 12 then 0x7f6a0dbb else if l == 13 then 0x086d3d2d else if l == 14 then 0x91646c97 else 0xe6635c01
  }

  function Row5(l: bv32): bv32 {
    if l == 0 then 0x6b6b51f4 else if l == 1 then 0x1c6c6162 else if l == 2 then 0x856530d8 else if l == 3 then 0xf262004e else
    if l == 4 then 0x6c0695ed else if l == 5 then 0x1b01a57b else if l == 6 then 0x8208f4c1 else if l == 7 then 0xf50fc457 else
    if l == 8 then 0x65b0d9c6 else if l == 9 then 0x12b7e950 else if l == 10 then 0x8bbeb8ea else if l == 11 then 0xfcb9887c else
    if l == 12 then 0x62dd1ddf else if l == 13 then 0x15da2d49 else if l == 14 then 0x8cd37cf3 else 0xfbd44c65
  }

  function Row6(l: bv32): bv32 {
    if l == 0 then 0x4db26158 else if l == 1 then 0x3ab551ce else if l == 2 then 0xa3bc0074 else if l == 3 then 0xd4bb30e2 else
    if l == 4 then 0x4adfa541 else if l == 5 then 0x3dd895d7 else if l == 6 then 0xa4d1c46d else if l == 7 then 0xd3d6f4fb else
    if l == 8 then 0x4369e96a else if l == 9 then 0x346ed9fc else if l == 10 then 0xad678846 else if l == 11 then 0xda60b8d0 else
    if l == 12 then 0x44042d73 else if l == 13 then 0x33031de5 else if l == 14 then 0xaa0a4c5f else 0xdd0d7cc9
  }

  function Row7(l: bv32): bv32 {
    if l == 0 then 0x5005713c else if l == 1 then 0x270241aa else if l == 2 then 0xbe0b1010 else if l == 3 then 0xc90c2086 else
    if l == 4 then 0x5768b525 else if l == 5 then 0x206f85b3 else if l == 6 then 0xb966d409 else if l == 7 then 0xce61e49f else
    if l == 8 then 0x5edef90e else if l == 9 then 0x29d9c998 else if l == 10 then 0xb0d09822 else if l == 11 then 0xc7d7a8b4 else
    if l == 12 then 0x59b33d17 else if l == 13 then 0x2eb40d81 else if l == 14 then 0xb7bd5c3b else 0xc0ba6cad
  }

  function Row8(l: bv32): bv32 {
    if l == 0 then 0xedb88320 else if l == 1 then 0x9abfb3b6 else if l == 2 then 0x03b6e20c else if l == 3 then 0x74b1d29a else
    if l == 4 then 0xead54739 else if l == 5 then 0x9dd277af else if l == 6 then 0x04db2615 else if l == 7 then 0x73dc1683 else
    if l == 8 then 0xe3630b12 else if l == 9 then 0x94643b84 else if l == 10 then 0x0d6d6a3e else if l == 11 then 0x7a6a5aa8 else
    if l == 12 then 0xe40ecf0b else if l == 13 then 0x9309ff9d else if l == 14 then 0x0a00ae27 else 0x7d079eb1
  }

  function Row9(l: bv32): bv32 {
    if l == 0 then 0xf00f9344 else if l == 1 then 0x8708a3d2 else if l == 2 then 0x1e01f268 else if l == 3 then 0x6906c2fe else
    if l == 4 then 0xf762575d else if l == 5 then 0x806567cb else if l == 6 then 0x196c3671 else if l == 7 then 0x6e6b06e7 else
    if l == 8 then 0xfed41b76 else if l == 9 then 0x89d32be0 else if l == 10 then 0x10da7a5a else if l == 11 then 0x67dd4acc else
    if l == 12 then 0xf9b9df6f else if l == 13 then 0x8ebeeff9 else if l == 14 then 0x17b7be43 else 0x60b08ed5
  }

  function Row10(l: bv32): bv32 {
    if l == 0 then 0xd6d6a3e8 else if l == 1 then 0xa1d1937e else if l == 2 then 0x38d8c2c4 else if l == 3 then 0x4fdff252 else
    if l == 4 then 0xd1bb67f1 else if l == 5 then 0xa6bc5767 else if l == 6 then 0x3fb506dd else if l == 7 then 0x48b2364b else
    if l == 8 then 0xd80d2bda else if l == 9 then 0xaf0a1b4c else if l == 10 then 0x36034af6 else if l == 11 then 0x41047a60 else
    if l == 12 then 0xdf60efc3 else if l == 13 then 0xa867df55 else if l == 14 then 0x316e8eef else 0x4669be79
  }

  function Row11(l: bv32): bv32 {
    if l == 0 then 0xcb61b38c else if l == 1 then 0xbc66831a else if l == 2 then 0x256fd2a0 else if l == 3 then 0x5268e236 else
    if l == 4 then 0xcc0c7795 else if l == 5 then 0xbb0b4703 else if l == 6 then 0x220216b9 else if l == 7 then 0x5505262f else
    if l == 8 then 0xc5ba3bbe else if l == 9 then 0xb2bd0b28 else if l == 10 then 0x2bb45a92 else if l == 11 then 0x5cb36a04 else
    if l == 12 then 0xc2d7ffa7 else if l == 13 then 0xb5d0cf31 else if l == 14 then 0x2cd99e8b else 0x5bdeae1d
  }

  function Row12(l: bv32): bv32 {
    if l == 0 then 0x9b64c2b0 else if l == 1 then 0xec63f226 else if l == 2 then 0x756aa39c else if l == 3 then 0x026d930a else
    if l == 4 then 0x9c0906a9 else if l == 5 then 0xeb0e363f else if l == 6 then 0x72076785 else if l == 7 then 0x05005713 else
    if l == 8 then 0x95bf4a82 else if l == 9 then 0xe2b87a14 else if l == 10 then 0x7bb12bae else if l == 11 then 0x0cb61b38 else
    if l == 12 then 0x92d28e9b else if l == 13 then 0xe5d5be0d else if l == 14 then 0x7cdcefb7 else 0x0bdbdf21
  }

  function Row13(l: bv32): bv32 {
    if l == 0 then 0x86d3d2d4 else if l == 1 then 0xf1d4e242 else if l == 2 then 0x68ddb3f8 else if l == 3 then 0x1fda836e else
    if l == 4 then 0x81be16cd else if l == 5 then 0xf6b9265b else if l == 6 then 0x6fb077e1 else if l == 7 then 0x18b74777 else
    if l == 8 then 0x88085ae6 else if l == 9 then 0xff0f6a70 else if l == 10 then 0x66063bca else if l == 11 then 0x11010b5c else
    if l == 12 then 0x8f659eff else if l == 13 then 0xf862ae69 else if l == 14 then 0x616bffd3 else 0x166ccf45
  }

  function Row14(l: bv32): bv32 {
    if l == 0 then 0xa00ae278 else if l == 1 then 0xd70dd2ee else if l == 2 then 0x4e048354 else if l == 3 then 0x3903b3c2 else
    if l == 4 then 0xa7672661 else if l == 5 then 0xd06016f7 else if l == 6 then 0x4969474d else if l == 7 then 0x3e6e77db else
    if l == 8 then 0xaed16a4a else if l == 9 then 0xd9d65adc else if l == 10 then 0x40df0b66 else if l == 11 then 0x37d83bf0 else
    if l == 12 then 0xa9bcae53 else if l == 13 then 0xdebb9ec5 else if l == 14 then 0x47b2cf7f else 0x30b5ffe9
  }

  function Row15(l: bv32): bv32 {
    if l == 0 then 0xbdbdf21c else if l == 1 then 0xcabac28a else if l == 2 then 0x53b39330 else if l == 3 then 0x24b4a3a6 else
    if l == 4 then 0xbad03605 else if l == 5 then 0xcdd70693 else if l == 6 then 0x54de5729 else if l == 7 then 0x23d967bf else
    if l == 8 then 0xb3667a2e else if l == 9 then 0xc4614ab8 else if l == 10 then 0x5d681b02 else if l == 11 then 0x2a6f2b94 else
    if l == 12 then 0xb40bbe37 else if l == 13 then 0xc30c8ea1 else if l == 14 then 0x5a05df1b else 0x2d02ef8d
  }

  function Quarter0(h: bv32, l: bv32): bv32 {
    if h == 0 then Row0(l) else if h == 1 then Row1(l) else if h == 2 then Row2(l) else Row3(l)
  }

  function Quarter1(h: bv32, l: bv32): bv32 {
    if h == 4 then Row4(l) else if h == 5 then Row5(l) else if h == 6 then Row6(l) else Row7(l)
  }

  function Quarter2(h: bv32, l: bv32): bv32 {
    if h == 8 then Row8(l) else if h == 9 then Row9(l) else if h == 10 then Row10(l) else Row11(l)
  }

  function Quarter3(h: bv32, l: bv32): bv32 {
    if h == 12 then Row12(l) else if h == 13 then Row13(l) else if h == 14 then Row14(l) else Row15(l)
  }

  function Table(i: bv32): bv32
    requires i < 256
  {
    var h, l := i >> 4, i & 0xF;
    if h < 4 then Quarter0(h, l) else if h < 8 then Quarter1(h, l)
    else if h < 12 then Quarter2(h, l) else Quarter3(h, l)
  }

  // ---------------------------------------------------------------- the table is the bit-serial step

  lemma Row0IsShift8(l: bv32)
    requires l < 16
    ensures Row0(l) == Shift8(0 | l)
  {
  }

  lemma Row1IsShift8(l: bv32)
    requires l < 16
    ensures Row1(l) == Shift8(16 | l)
  {
  }

  lemma Row2IsShift8(l: bv32)
    requires l < 16
    ensures Row2(l) == Shift8(32 | l)
  {
  }

  lemma Row3IsShift8(l: bv32)
    requires l < 16
    ensures Row3(l) == Shift8(48 | l)
  {
  }

  lemma Row4IsShift8(l: bv32)
    requires l < 16
    ensures Row4(l) == Shift8(64 | l)
  {
  }

  lemma Row5IsShift8(l: bv32)
    requires l < 16
    ensures Row5(l) == Shift8(80 | l)
  {
  }

  lemma Row6IsShift8(l: bv32)
    requires l < 16
    ensures Row6(l) == Shift8(96 | l)
  {
  }

  lemma Row7IsShift8(l: bv32)
    requires l < 16
    ensures Row7(l) == Shift8(112 | l)
  {
  }

  lemma Row8IsShift8(l: bv32)
    requires l < 16
    ensures Row8(l) == Shift8(128 | l)
  {
  }

  lemma Row9IsShift8(l: bv32)
    requires l < 16
    ensures Row9(l) == Shift8(144 | l)
  {
  }

  lemma Row10IsShift8(l: bv32)
    requires l < 16
    ensures Row10(l) == Shift8(160 | l)
  {
  }

  lemma Row11IsShift8(l: bv32)
    requires l < 16
    ensures Row11(l) == Shift8(176 | l)
  {
  }

  lemma Row12IsShift8(l: bv32)
    requires l < 16
    ensures Row12(l) == Shift8(192 | l)
  {
  }

  lemma Row13IsShift8(l: bv32)
    requires l < 16
    ensures Row13(l) == Shift8(208 | l)
  {
  }

  lemma Row14IsShift8(l: bv32)
    requires l < 16
    ensures Row14(l) == Shift8(224 | l)
  {
  }

  lemma Row15IsShift8(l: bv32)
    requires l < 16
    ensures Row15(l) == Shift8(240 | l)
  {
  }

  lemma Quarter0IsShift8(h: bv32, l: bv32)
    requires l < 16 && 0 <= h < 4
    ensures Quarter0(h, l) == Shift8((h << 4) | l)
  {
    if h == 0 { Row0IsShift8(l); }
    if h == 1 { Row1IsShift8(l); }
    if h == 2 { Row2IsShift8(l); }
    if h == 3 { Row3IsShift8(l); }
  }

  lemma Quarter1IsShift8(h: bv32, l: bv32)
    requires l < 16 && 4 <= h < 8
    ensures Quarter1(h, l) == Shift8((h << 4) | l)
  {
    if h == 4 { Row4IsShift8(l); }
    if h == 5 { Row5IsShift8(l); }
    if h == 6 { Row6IsShift8(l); }
    if h == 7 { Row7IsShift8(l); }
  }

  lemma Quarter2IsShift8(h: bv32, l: bv32)
    requires l < 16 && 8 <= h < 12
    ensures Quarter2(h, l) == Shift8((h << 4) | l)
  {
    if h == 8 { Row8IsShift8(l); }
    if h == 9 { Row9IsShift8(l); }
    if h == 10 { Row10IsShift8(l); }
    if h == 11 { Row11IsShift8(l); }
  }

  lemma Quarter3IsShift8(h: bv32, l: bv32)
    requires l < 16 && 12 <= h < 16
    ensures Quarter3(h, l) == Shift8((h << 4) | l)
  {
    if h == 12 { Row12IsShift8(l); }
    if h == 13 { Row13IsShift8(l); }
    if h == 14 { Row14IsShift8(l); }
    if h == 15 { Row15IsShift8(l); }
  }

  lemma Nibbles(i: bv32)
    requires i < 256
    ensures i & 0xF < 16 && i >> 4 < 16 && ((i >> 4) << 4) | (i & 0xF) == i
  {
  }

  lemma TableIsShift8(i: bv32)
    requires i < 256
    ensures Table(i) == Shift8(i)
  {
    Nibbles(i);
    var h, l := i >> 4, i & 0xF;
    if h < 4 {
      Quarter0IsShift8(h, l);
    } else if h < 8 {
      Quarter1IsShift8(h, l);
    } else if h < 12 {
      Quarter2IsShift8(h, l);
    } else {
      Quarter3IsShift8(h, l);
    }
  }

  /** Only the low byte of the register feeds back during eight shifts. */
  lemma Shift8Splits(x: bv32)
    ensures Shift8(x) == Shift8(x & 0xFF) ^ (x >> 8)
  {
  }

  lemma HighBytes(c: bv32, b: bv8)
    ensures (c ^ (b as bv32)) >> 8 == c >> 8
  {
  }

  lemma LowByte(x: bv32)
    ensures x & 0xFF < 256
  {
  }

  lemma TableSplits(x: bv32)
    ensures x & 0xFF < 256
    ensures Table(x & 0xFF) ^ (x >> 8) == Shift8(x)
  {
    LowByte(x);
    TableIsShift8(x & 0xFF);
    Shift8Splits(x);
  }

  lemma TableTurn(x: bv32, c: bv32)
    requires x >> 8 == c >> 8
    ensures Table(x & 0xFF) ^ (c >> 8) == Shift8(x)
  {
    TableSplits(x);
  }

  /** One turn of the table loop is eight shifts of the reference. */
  lemma TableStep(x: bv32, c: bv32, b: bv8)
    requires x == c ^ (b as bv32)
    ensures x & 0xFF < 256 && Table(x & 0xFF) ^ (c >> 8) == Absorb(c, b)
  {
    HighBytes(c, b);
    TableTurn(x, c);
  }

  /** The table loop computes the bit-serial checksum. */
  method CalcCrc32(crc: bv32, buf: seq<bv8>) returns (r: bv32)
    ensures r == Crc(crc, buf)
  {
    r := Invert(crc);
    for i := 0 to |buf|
      invariant r == Fold(Absorb, Invert(crc), buf[..i])
    {
      var x := r ^ (buf[i] as bv32);
      TableStep(x, r, buf[i]);
      FoldStep(Absorb, Invert(crc), buf, i);
      r := Table(x & 0xFF) ^ (r >> 8);
    }
    assert buf[..|buf|] == buf;
    r := Invert(r);
  }

  // ---------------------------------------------------------------- chunking

  lemma InvertTwice(c: bv32)
    ensures Invert(Invert(c)) == c
  {
  }

  /** A checksum continued over the next chunk is the checksum of both chunks together. */
  lemma CrcAppend(crc: bv32, a: seq<bv8>, b: seq<bv8>)
    ensures Crc(crc, a + b) == Crc(Crc(crc, a), b)
  {
    FoldAppend(Absorb, Invert(crc), a, b);
    InvertTwice(Fold(Absorb, Invert(crc), a));
  }

  // ---------------------------------------------------------------- a changed byte changes the checksum

  function ShiftOne(c: bv32): bv32 { (c >> 1) ^ (if c & 1 == 1 then 0xEDB88320 else 0) }

  lemma ShiftOneInjective(x: bv32, y: bv32)
    requires ShiftOne(x) == ShiftOne(y)
    ensures x == y
  {
  }

  lemma Shift8Injective(x: bv32, y: bv32)
    requires Shift8(x) == Shift8(y)
    ensures x == y
  {
    hide ShiftOne;
    Shift8Is(x);
    Shift8Is(y);
    ShiftFourInjective(ShiftFour(x), ShiftFour(y));
    ShiftFourInjective(x, y);
  }

  function ShiftFour(c: bv32): bv32 { ShiftOne(ShiftOne(ShiftOne(ShiftOne(c)))) }

  lemma Shift8Is(c: bv32)
    ensures Shift8(c) == ShiftFour(ShiftFour(c))
  {
    hide ShiftOne, Shift8;
    EightSteps(c, ShiftOne(c), ShiftOne(ShiftOne(c)), ShiftOne(ShiftOne(ShiftOne(c))));
  }

  lemma EightSteps(c: bv32, c1: bv32, c2: bv32, c3: bv32)
    requires c1 == ShiftOne(c) && c2 == ShiftOne(c1) && c3 == ShiftOne(c2)
    ensures Shift8(c) == ShiftOne(ShiftOne(ShiftOne(ShiftOne(ShiftOne(c3)))))
  {
  }

  lemma ShiftFourInjective(x: bv32, y: bv32)
    requires ShiftFour(x) == ShiftFour(y)
    ensures x == y
  {
    hide ShiftOne;
    ShiftOneInjective(ShiftOne(ShiftOne(ShiftOne(x))), ShiftOne(ShiftOne(ShiftOne(y))));
    ShiftOneInjective(ShiftOne(ShiftOne(x)), ShiftOne(ShiftOne(y)));
    ShiftOneInjective(ShiftOne(x), ShiftOne(y));
    ShiftOneInjective(x, y);
  }

  function Mix(c: bv32, b: bv8): bv32 { c ^ (b as bv32) }

  lemma AbsorbIs(c: bv32, b: bv8)
    ensures Absorb(c, b) == Shift8(Mix(c, b))
  {
    hide Shift8;
  }

  lemma MixTells(c: bv32, d: bv32, a: bv8, b: bv8)
    ensures Mix(c, a) == Mix(d, a) ==> c == d
    ensures Mix(c, a) == Mix(c, b) ==> a == b
  {
  }

  lemma AbsorbInjective(c: bv32, d: bv32, b: bv8)
    requires Absorb(c, b) == Absorb(d, b)
    ensures c == d
  {
    hide Shift8, Absorb, Mix;
    AbsorbIs(c, b);
    AbsorbIs(d, b);
    Shift8Injective(Mix(c, b), Mix(d, b));
    MixTells(c, d, b, b);
  }

  lemma AbsorbTells(c: bv32, a: bv8, b: bv8)
    requires Absorb(c, a) == Absorb(c, b)
    ensures a == b
  {
    hide Shift8, Absorb, Mix;
    AbsorbIs(c, a);
    AbsorbIs(c, b);
    Shift8Injective(Mix(c, a), Mix(c, b));
    MixTells(c, c, a, b);
  }

  lemma {:induction false} FoldInjective(c: bv32, d: bv32, s: seq<bv8>)
    requires Fold(Absorb, c, s) == Fold(Absorb, d, s)
    ensures c == d
  {
    hide Absorb;
    if s != [] {
      var n := |s| - 1;
      AbsorbInjective(Fold(Absorb, c, s[..n]), Fold(Absorb, d, s[..n]), s[n]);
      FoldInjective(c, d, s[..n]);
    }
  }

  /** Changing one byte of a message always changes its checksum. */
  lemma OneByte(crc: bv32, s: seq<bv8>, i: nat, b: bv8)
    requires i < |s| && s[i] != b
    ensures Crc(crc, s[i := b]) != Crc(crc, s)
  {
    hide Absorb;
    var t, c := s[i := b], Invert(crc);
    assert s == s[..i + 1] + s[i + 1..] && t == t[..i + 1] + s[i + 1..] && t[..i] == s[..i];
    FoldAppend(Absorb, c, s[..i + 1], s[i + 1..]);
    FoldAppend(Absorb, c, t[..i + 1], s[i + 1..]);
    FoldStep(Absorb, c, s, i);
    FoldStep(Absorb, c, t, i);
    if Crc(crc, t) == Crc(crc, s) {
      InvertTwice(Fold(Absorb, c, s));
      InvertTwice(Fold(Absorb, c, t));
      FoldInjective(Fold(Absorb, c, s[..i + 1]), Fold(Absorb, c, t[..i + 1]), s[i + 1..]);
      AbsorbTells(Fold(Absorb, c, s[..i]), s[i], b);
    }
  }

  /** The hash the key cache stores: the top half of the name's checksum. */
  function NameHash(name: seq<bv8>): bv16 {
    (Crc(0, name) >> 16) as bv16
  }

  /** Two keys with one hash, the shorter one a prefix of the longer. */
  lemma SharedHash()
    ensures NameHash([0x6B]) == 0x0862 && NameHash([0x6B, 0x7B, 0x4C]) == 0x0862
  {
    hide Absorb, Invert;
    Constants();
    var short: seq<bv8>, long: seq<bv8> := [0x6B], [0x6B, 0x7B, 0x4C];
    FoldStep(Absorb, 0xFFFFFFFF, short, 0);
    FoldStep(Absorb, 0xFFFFFFFF, long, 0);
    FoldStep(Absorb, 0xFFFFFFFF, long, 1);
    FoldStep(Absorb, 0xFFFFFFFF, long, 2);
    assert short[..1] == short && long[..3] == long && short[..0] == long[..0] == [];
  }

  lemma Constants()
    ensures Invert(0) == 0xFFFFFFFF && Invert(0xF79DA8A2) == 0x0862575D && Invert(0xF79DAFAA) == 0x08625055
    ensures Absorb(0xFFFFFFFF, 0x6B) == 0xF79DA8A2
    ensures Absorb(0xF79DA8A2, 0x7B) == 0xFFF8F7D8
    ensures Absorb(0xFFF8F7D8, 0x4C) == 0xF79DAFAA
  {
  }
}
