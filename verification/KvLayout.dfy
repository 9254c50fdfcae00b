/** How a record and a sector header are laid out in bytes, and how a record is read back. */
module KvLayout {
  import opened Words
  import opened Numbers
  import opened KvRecord
  import opened KvFlash
  import opened Folding
  import Crc32

  const WRITTEN: byte := 0x00
  const DB_SIZE := SECTOR_NUM * SEC_SIZE
  const KV_STATUS_NUM := 6

  // ---------------------------------------------------------------- the checksum, built and recomputed

  method FillCrc(crc: bv32, n: nat) returns (r: bv32)
    ensures r == Crc32.Crc(crc, Fill(n))
  {
    r := crc;
    assert Fill(0) == [];
    CrcEmpty(crc);
    for i := 0 to n
      invariant r == Crc32.Crc(crc, Fill(i))
    {
      Crc32.CrcAppend(crc, Fill(i), [FF]);
      assert Fill(i) + [FF] == Fill(i + 1);
      r := Crc32.CalcCrc32(r, [FF]);
    }
  }

  lemma CrcEmpty(crc: bv32)
    ensures Crc32.Crc(crc, []) == crc
  {
    Crc32.InvertTwice(crc);
  }

  /** The checksum put together piece by piece, padding byte by byte. */
  method CreateCrc(key: Key, val: Val) returns (crc: bv32)
    requires Sized(key, val)
    ensures crc == Crc32.Crc(0, Checked(key, val))
  {
    hide Digit, Le;
    var nameLen := [Digit(|key|), FF, FF, FF];
    crc := Crc32.CalcCrc32(0, nameLen);
    crc := Crc32.CalcCrc32(crc, Le(|val|));
    Crc32.CrcAppend(0, nameLen, Le(|val|));
    crc := PaddedCrc(crc, key);
    Crc32.CrcAppend(0, nameLen + Le(|val|), Padded(key));
    crc := PaddedCrc(crc, val);
    Crc32.CrcAppend(0, nameLen + Le(|val|) + Padded(key), Padded(val));
  }

  method PaddedCrc(crc: bv32, s: seq<byte>) returns (r: bv32)
    ensures r == Crc32.Crc(crc, Padded(s))
  {
    r := Crc32.CalcCrc32(crc, s);
    r := FillCrc(r, WgAlign(|s|) - |s|);
    Crc32.CrcAppend(crc, s, Fill(WgAlign(|s|) - |s|));
  }

  lemma Joined(mem: seq<byte>, a: nat, b: nat, c: nat)
    requires a <= b <= c <= |mem|
    ensures mem[a..b] + mem[b..c] == mem[a..c]
  {
  }

  /** The checksum of a stretch of flash, read 32 bytes at a time. */
  method ChunkedCrc(crc: bv32, mem: seq<byte>, from: nat, size: nat) returns (r: bv32)
    requires from + size <= |mem|
    ensures r == Crc32.Crc(crc, mem[from..from + size])
  {
    r := crc;
    CrcEmpty(crc);
    assert mem[from..from] == [];
    var len := 0;
    while len < size
      invariant 0 <= len <= size && r == Crc32.Crc(crc, mem[from..from + len])
    {
      var n := if len + 32 < size then 32 else size - len;
      var buf := mem[from + len..from + len + n];
      Crc32.CrcAppend(crc, mem[from..from + len], buf);
      Joined(mem, from, from + len, from + len + n);
      r := Crc32.CalcCrc32(r, buf);
      len := len + n;
    }
  }

  // ---------------------------------------------------------------- status tables

  /** The status a table of `n - 1` words shows: the last word that is written, counting from one. */
  function StatusAt(mem: seq<byte>, o: nat, n: nat): (st: nat)
    requires n >= 1 && o + 4 * (n - 1) <= |mem|
    ensures st < n
    ensures st > 0 ==> mem[o + 4 * (st - 1)] == WRITTEN
    ensures forall i :: st <= i < n - 1 ==> mem[o + 4 * i] != WRITTEN
  {
    if n == 1 then 0
    else if mem[o + 4 * (n - 2)] == WRITTEN then n - 1
    else StatusAt(mem, o, n - 1)
  }

  /** Search a status table from its end for the first written word. */
  method GetStatus(mem: seq<byte>, o: nat, num: nat) returns (st: nat)
    requires num >= 1 && o + 4 * (num - 1) <= |mem|
    ensures st == StatusAt(mem, o, num)
  {
    var i := 0;
    var left := num - 1;
    while left > 0
      invariant 0 <= left <= num - 1 && i == num - 1 - left
      invariant StatusAt(mem, o, left + 1) == StatusAt(mem, o, num)
    {
      left := left - 1;
      if mem[o + 4 * left] == WRITTEN {
        break;
      }
      i := i + 1;
    }
    st := num - 1 - i;
  }

  // ---------------------------------------------------------------- reading a record

  /** What reading a record yields; `key` and `val` only when the checksum is right. */
  datatype Seen = Seen(status: nat, len: nat, crcOk: bool, key: Key, val: Val)

  predicate LenBad(len: nat) { len == UINT_MAX || len > DB_SIZE || len < KV_HDR_SIZE }

  function LenAt(mem: seq<byte>, o: nat): nat
    requires o + KV_HDR_SIZE <= |mem|
  {
    FromLe(mem[o + LEN_OFFSET..o + LEN_OFFSET + 4])
  }

  /** The record's length leaves it inside the flash. */
  predicate Readable(mem: seq<byte>, o: nat) {
    o + KV_HDR_SIZE <= |mem| && (!LenBad(LenAt(mem, o)) ==> o + LenAt(mem, o) <= |mem|)
  }

  predicate CrcGood(mem: seq<byte>, o: nat, len: nat)
    requires len >= KV_HDR_SIZE && o + len <= |mem|
  {
    Crc32.Crc(0, mem[o + 32..o + len]) == CrcOf(mem[o + 28..o + 32])
  }

  /** What the bytes at `o` say, with the checksum taken in one go. */
  function Read(mem: seq<byte>, o: nat): Seen
    requires Readable(mem, o)
  {
    var status := StatusAt(mem, o, KV_STATUS_NUM);
    var len := LenAt(mem, o);
    if LenBad(len) then Seen(5, KV_HDR_SIZE, false, [], [])
    else if !CrcGood(mem, o, len) then Seen(status, len, false, [], [])
    else
      var nameLen := Value(mem[o + 32]);
      var valLen := FromLe(mem[o + 36..o + 40]);
      var valAt := o + KV_HDR_SIZE + WgAlign(nameLen);
      if valAt + valLen <= |mem| then
        Seen(status, len, true, mem[o + KV_HDR_SIZE..o + KV_HDR_SIZE + Cut(nameLen)], mem[valAt..valAt + valLen])
      else Seen(status, len, true, [], [])
  }

  /** A key of the maximum length or more comes back one byte short of the maximum. */
  function Cut(nameLen: nat): (n: nat)
    ensures n <= nameLen && (nameLen <= 63 ==> n == nameLen) && (nameLen >= 64 ==> n == 63)
  {
    if nameLen >= KV_NAME_MAX then KV_NAME_MAX - 1 else nameLen
  }

  method ReadKv(mem: seq<byte>, o: nat) returns (kv: Seen)
    requires Readable(mem, o)
    ensures kv == Read(mem, o)
  {
    hide StatusAt, FromLe, CrcOf, WgAlign, Value, Cut;
    var status := GetStatus(mem, o, KV_STATUS_NUM);
    var len := LenAt(mem, o);
    if len == UINT_MAX || len > DB_SIZE || len < KV_HDR_SIZE {
      return Seen(5, KV_HDR_SIZE, false, [], []);
    }
    var crc := Crc32.CalcCrc32(0, mem[o + 32..o + 36]);
    crc := Crc32.CalcCrc32(crc, mem[o + 36..o + 40]);
    crc := ChunkedCrc(crc, mem, o + KV_HDR_SIZE, len - KV_HDR_SIZE);
    CrcInParts(mem, o, len);
    if crc != CrcOf(mem[o + 28..o + 32]) {
      return Seen(status, len, false, [], []);
    }
    var nameLen := Value(mem[o + 32]);
    var valLen := FromLe(mem[o + 36..o + 40]);
    var valAt := o + KV_HDR_SIZE + WgAlign(nameLen);
    if valAt + valLen <= |mem| {
      kv := Seen(status, len, true, mem[o + KV_HDR_SIZE..o + KV_HDR_SIZE + Cut(nameLen)], mem[valAt..valAt + valLen]);
    } else {
      kv := Seen(status, len, true, [], []);
    }
  }

  lemma CrcInParts(mem: seq<byte>, o: nat, len: nat)
    requires KV_HDR_SIZE <= len && o + len <= |mem|
    ensures Crc32.Crc(Crc32.Crc(Crc32.Crc(0, mem[o + 32..o + 36]), mem[o + 36..o + 40]), mem[o + KV_HDR_SIZE..o + KV_HDR_SIZE + (len - KV_HDR_SIZE)])
         == Crc32.Crc(0, mem[o + 32..o + len])
  {
    Crc32.CrcAppend(0, mem[o + 32..o + 36], mem[o + 36..o + 40]);
    Joined(mem, o + 32, o + 36, o + 40);
    Crc32.CrcAppend(0, mem[o + 32..o + 40], mem[o + 40..o + len]);
    Joined(mem, o + 32, o + 40, o + len);
  }

  /** The bytes of a record, after its status table. */
  predicate Holds(mem: seq<byte>, o: nat, key: Key, val: Val) {
    && Sized(key, val) && KvSize(key, val) <= DB_SIZE && o + KvSize(key, val) <= |mem|
    && mem[o + MAGIC_OFFSET..o + KvSize(key, val)] == Body(key, val)
  }

  /** A record written in full reads back as itself, with the key cut when it is too long. */
  lemma ReadWritten(mem: seq<byte>, o: nat, key: Key, val: Val)
    requires Holds(mem, o, key, val)
    ensures Readable(mem, o)
    ensures Read(mem, o) == Seen(StatusAt(mem, o, KV_STATUS_NUM), KvSize(key, val), true, key[..Cut(|key|)], val)
  {
    hide Value, FromLe, StatusAt, Cut, WgAlign, Holds, CrcGood;
    FieldsWritten(mem, o, key, val);
  }

  /** The code accepts keys of 64 bytes, but only shorter ones come back as they were stored. */
  lemma KeyComesBackIff(mem: seq<byte>, o: nat, key: Key, val: Val)
    requires Holds(mem, o, key, val)
    ensures Readable(mem, o) && (Read(mem, o).key == key <==> |key| < KV_NAME_MAX)
  {
    hide Read, Readable, Holds;
    ReadWritten(mem, o, key, val);
    if |key| >= KV_NAME_MAX {
      assert |key[..Cut(|key|)]| < |key|;
    } else {
      assert key[..Cut(|key|)] == key;
    }
  }

  /** The length words, the name and the value at `o`. */
  predicate DataAt(mem: seq<byte>, o: nat, key: Key, val: Val) {
    var a := o + KV_HDR_SIZE + WgAlign(|key|);
    && a + |val| <= |mem|
    && Value(mem[o + 32]) == |key| && FromLe(mem[o + 36..o + 40]) == |val|
    && mem[o + 40..o + 40 + Cut(|key|)] == key[..Cut(|key|)] && mem[a..a + |val|] == val
  }

  lemma FieldsWritten(mem: seq<byte>, o: nat, key: Key, val: Val)
    requires Holds(mem, o, key, val)
    ensures var n := KvSize(key, val); n <= DB_SIZE && o + n <= |mem| && LenAt(mem, o) == n && CrcGood(mem, o, n)
    ensures DataAt(mem, o, key, val)
  {
    hide Value, FromLe, CrcOf, Crc32.Crc, Checked, Cut, WgAlign, Body;
    HeaderWritten(mem, o, key, val);
    DataWritten(mem, o, key, val, Checked(key, val));
  }

  /** The length and checksum words at `o`, and the bytes of length `n` that the checksum `c` covers. */
  predicate HeaderAt(mem: seq<byte>, o: nat, n: nat, c: seq<byte>) {
    && KV_HDR_SIZE <= n && o + n <= |mem| && LenAt(mem, o) == n
    && CrcOf(mem[o + 28..o + 32]) == Crc32.Crc(0, c) && mem[o + 32..o + n] == c
  }

  lemma HeaderWritten(mem: seq<byte>, o: nat, key: Key, val: Val)
    requires Holds(mem, o, key, val)
    ensures HeaderAt(mem, o, KvSize(key, val), Checked(key, val))
  {
    hide Le, FromLe, CrcBytes, CrcOf, Crc32.Crc, Body, Checked;
    var n := KvSize(key, val);
    BodyParts(key, val);
    Part(mem, o + 20, Body(key, val), 4, 8);
    Part(mem, o + 20, Body(key, val), 8, 12);
    Part(mem, o + 20, Body(key, val), 12, n - 20);
    LeRoundTrip(n);
    CrcRoundTrip(Crc32.Crc(0, Checked(key, val)));
  }

  lemma DataWritten(mem: seq<byte>, o: nat, key: Key, val: Val, c: seq<byte>)
    requires Sized(key, val) && c == Checked(key, val) && o + 32 + |c| <= |mem| && mem[o + 32..o + 32 + |c|] == c
    ensures DataAt(mem, o, key, val)
  {
    hide Digit, Value, Le, FromLe, Checked, Cut, WgAlign;
    var a := WgAlign(|key|);
    CheckedParts(key, val);
    Part(mem, o + 32, c, 0, 1);
    Part(mem, o + 32, c, 4, 8);
    Part(mem, o + 32, c, 8, 8 + Cut(|key|));
    Part(mem, o + 32, c, 8 + a, 8 + a + |val|);
    assert mem[o + 32] == mem[o + 32..o + 33][0] == c[0];
    LeRoundTrip(|val|);
    DigitValue(|key|);
  }

  lemma CheckedParts(key: Key, val: Val)
    requires Sized(key, val)
    ensures var c, a := Checked(key, val), WgAlign(|key|);
            && c[0] == Digit(|key|) && c[4..8] == Le(|val|) && c[8..8 + Cut(|key|)] == key[..Cut(|key|)]
            && 8 + a + |val| <= |c| && c[8 + a..8 + a + |val|] == val
  {
    hide Le, Digit, Cut, WgAlign, Fill;
    var c, a := Checked(key, val), WgAlign(|key|);
    var head := [Digit(|key|), FF, FF, FF] + Le(|val|);
    assert c == head + (Padded(key) + Padded(val));
    assert c == (head + Padded(key)) + Padded(val);
    assert c[8..8 + Cut(|key|)] == Padded(key)[..Cut(|key|)] == key[..Cut(|key|)];
    assert c[8 + a..8 + a + |val|] == Padded(val)[..|val|] == val;
  }
}
