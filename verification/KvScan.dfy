/** A sector's bytes, the scan that finds its records by their magic word, and the traversal that
    works out where its free space starts. */
module KvScan {
  import opened KvRecord
  import opened KvFlash
  import opened KvLayout
  import Crc32
  import opened Numbers

  const SCAN_END := SEC_SIZE - SECTOR_HDR_SIZE
  const SEC_MAGIC: seq<byte> := [0x46, 0x44, 0x42, 0x30]
  const MARK: seq<byte> := [0x00, 0xFF, 0xFF, 0xFF]

  // ---------------------------------------------------------------- the bytes of a sector

  predicate ErasedAt(mem: seq<byte>, lo: nat, hi: nat) {
    hi <= |mem| && forall k :: lo <= k < hi ==> mem[k] == FF
  }

  /** A status word is erased or marked. */
  predicate TableWord(mem: seq<byte>, o: nat) {
    o + 4 <= |mem| && (mem[o] == FF || mem[o] == WRITTEN) && mem[o + 1] == FF && mem[o + 2] == FF && mem[o + 3] == FF
  }

  predicate Table3(mem: seq<byte>, o: nat) { TableWord(mem, o) && TableWord(mem, o + 4) && TableWord(mem, o + 8) }

  predicate Table5(mem: seq<byte>, o: nat) { Table3(mem, o) && TableWord(mem, o + 12) && TableWord(mem, o + 16) }

  function Code(st: Status): nat {
    match st
    case Unused => 0 case PreWrite => 1 case Write => 2 case PreDelete => 3 case Deleted => 4 case ErrHdr => 5
  }

  /** The status of a record can be told from its table. */
  lemma CodesApart(a: Status, b: Status)
    ensures Code(a) == Code(b) <==> a == b
    ensures Code(a) < KV_STATUS_NUM == 6
  {
  }

  function StoreCode(st: Store): nat {
    match st case StoreUnused => 0 case Empty => 1 case Using => 2 case Full => 3
  }

  /** Up to where a slot shows the words programmed for it: a later slot may have begun inside it. */
  function Kept(o: nat, end: nat, written: nat): (v: nat)
    ensures v <= end && v <= o + MAGIC_OFFSET + 4 * written
  {
    if end < o + MAGIC_OFFSET + 4 * written then end else o + MAGIC_OFFSET + 4 * written
  }

  /** The `j`-th slot at offset `o`, as far as the next slot lets one see it, up to `end`. A slot
      nobody sees is just its PRE_WRITE mark; the status of a slot without a length word does not
      matter, since every reader takes it for a bad header. */
  predicate SlotBytes(mem: seq<byte>, o: nat, end: nat, j: nat, r: Rec) {
    if !Visible(j, r) then o + 4 <= |mem| && mem[o..o + 4] == MARK
    else
      && o + 24 <= end <= |mem| && (r.written >= 2 ==> o + 28 <= end) && Table5(mem, o)
      && Sized(r.key, r.val) && r.written <= Total(r)
      && (r.status == PreWrite || r.written >= 1 ==> mem[o] == WRITTEN)
      && (if r.written >= 2 then StatusAt(mem, o, KV_STATUS_NUM) == Code(r.status) else ErasedAt(mem, o + 4, o + 16))
      && var v := Kept(o, end, r.written);
      && mem[o + MAGIC_OFFSET..v] == Body(r.key, r.val)[..v - o - MAGIC_OFFSET] && ErasedAt(mem, v, end)
  }

  predicate SlotOf(mem: seq<byte>, recs: seq<Rec>, j: int) {
    0 <= j < |recs| && SlotBytes(mem, Off(recs, j), Off(recs, j + 1), j, recs[j])
  }

  predicate Slots(mem: seq<byte>, recs: seq<Rec>) {
    forall j {:trigger SlotOf(mem, recs, j)} :: 0 <= j < |recs| ==> SlotOf(mem, recs, j)
  }

  /** What lies behind the last slot. A USING sector that lost its first record may carry a
      reader's ERR_HDR mark where that record was to start. */
  predicate Tail(mem: seq<byte>, sec: Sector) {
    if sec.store == Using && sec.recs == [] then
      ErasedAt(mem, SECTOR_HDR_SIZE, 52) && TableWord(mem, 52) && ErasedAt(mem, 56, SEC_SIZE)
    else ErasedAt(mem, Off(sec.recs, |sec.recs|), SEC_SIZE)
  }

  predicate HeaderBytes(mem: seq<byte>, sec: Sector) {
    && |mem| == SEC_SIZE && Table3(mem, 0) && Table3(mem, 12)
    && StatusAt(mem, 0, 4) == StoreCode(sec.store) && StatusAt(mem, 12, 4) == Rank(sec.dirty)
    && (if sec.ok then mem[24..28] == SEC_MAGIC else ErasedAt(mem, 24, 28))
    && ErasedAt(mem, 28, 36)
  }

  predicate Represents(mem: seq<byte>, sec: Sector) {
    HeaderBytes(mem, sec) && Slots(mem, sec.recs) && Tail(mem, sec)
  }

  // ---------------------------------------------------------------- the scan

  predicate MagicAt(mem: seq<byte>, q: nat) {
    q + 4 <= |mem| && mem[q] == 0x4B && mem[q + 1] == 0x56 && mem[q + 2] == 0x30 && mem[q + 3] == 0x30
  }

  lemma MagicIs(mem: seq<byte>, q: nat)
    requires q + 4 <= |mem|
    ensures MagicAt(mem, q) <==> mem[q..q + 4] == MAGIC
  {
    var s := mem[q..q + 4];
    if s == MAGIC { assert s[0] == 0x4B && s[1] == 0x56 && s[2] == 0x30 && s[3] == 0x30; }
  }

  /** The next record by magic word: windows of 32 bytes that overlap by one word. When the sector
      cache knows the free space to start right here, there is nothing to look for. */
  method FindNextKvAddr(mem: seq<byte>, start: nat, end: nat, cached: Option<nat>) returns (r: Option<nat>)
    requires end <= |mem| && start >= MAGIC_OFFSET
    ensures cached == Some(start) ==> r == None
    ensures cached != Some(start) && r.None? ==> forall q: nat :: start + MAGIC_OFFSET <= q < end - 32 ==> !MagicAt(mem, q)
    ensures r.Some? ==> start <= r.value < r.value + MAGIC_OFFSET < end && MagicAt(mem, r.value + MAGIC_OFFSET)
    ensures r.Some? ==> forall q: nat :: start + MAGIC_OFFSET <= q < r.value + MAGIC_OFFSET ==> !MagicAt(mem, q)
  {
    hide MagicAt;
    if cached == Some(start) {
      return None;
    }
    var s := start;
    while s < end && s + 32 < end
      invariant start <= s
      invariant forall q: nat :: start + MAGIC_OFFSET <= q < s ==> !MagicAt(mem, q)
    {
      var buf := mem[s..s + 32];
      var i := 0;
      while i < 28 && s + i < end
        invariant 0 <= i <= 28
        invariant forall q: nat :: start + MAGIC_OFFSET <= q < s + i ==> !MagicAt(mem, q)
      {
        InWindow(mem, s, i);
        if buf[i..i + 4] == MAGIC && s + i - MAGIC_OFFSET >= start {
          return Some(s + i - MAGIC_OFFSET);
        }
        i := i + 1;
      }
      s := s + 28;
    }
    return None;
  }

  lemma InWindow(mem: seq<byte>, s: nat, i: nat)
    requires s + 32 <= |mem| && i + 4 <= 32
    ensures mem[s..s + 32][i..i + 4] == MAGIC <==> MagicAt(mem, s + i)
  {
    MagicIs(mem, s + i);
    Part(mem, s, mem[s..s + 32], i, i + 4);
  }

  // ---------------------------------------------------------------- between the records there is no magic word

  /** Bytes that cannot start a magic word. */
  predicate Plain(mem: seq<byte>, lo: nat, hi: nat) {
    hi <= |mem| && forall k :: lo <= k < hi ==> mem[k] == FF || mem[k] == WRITTEN
  }

  lemma PlainHasNoMagic(mem: seq<byte>, lo: nat, hi: nat, q: nat)
    requires Plain(mem, lo, hi) && lo <= q < hi
    ensures !MagicAt(mem, q)
  {
  }

  lemma TableIsPlain(mem: seq<byte>, o: nat)
    requires Table5(mem, o)
    ensures Plain(mem, o, o + 20)
  {
    WordIsPlain(mem, o);
    WordIsPlain(mem, o + 4);
    WordIsPlain(mem, o + 8);
    WordIsPlain(mem, o + 12);
    WordIsPlain(mem, o + 16);
  }

  lemma WordIsPlain(mem: seq<byte>, o: nat)
    requires TableWord(mem, o)
    ensures Plain(mem, o, o + 4)
  {
  }

  function NextVisible(recs: seq<Rec>, j: nat): (n: nat)
    requires j <= |recs|
    ensures j <= n <= |recs|
    ensures n < |recs| ==> Visible(n, recs[n])
    ensures forall i :: j <= i < n ==> !Visible(i, recs[i])
    decreases |recs| - j
  {
    if j == |recs| || Visible(j, recs[j]) then j else NextVisible(recs, j + 1)
  }

  /** From one slot's end to the next visible slot's magic word, and from the last one's to the
      end of the sector, only status words and erased bytes. */
  lemma {:induction false} GapIsPlain(mem: seq<byte>, sec: Sector, j: nat)
    requires Represents(mem, sec) && 0 < j <= |sec.recs|
    ensures Plain(mem, Off(sec.recs, j), NextTable(sec.recs, j))
    decreases |sec.recs| - j
  {
    hide Off, Counted, HeaderBytes, Body, StatusAt, Span, InkWords, KvSize, Table5, Plain;
    if j < |sec.recs| {
      assert SlotOf(mem, sec.recs, j);
      if Visible(j, sec.recs[j]) {
        TableIsPlain(mem, Off(sec.recs, j));
      } else {
        GapIsPlain(mem, sec, j + 1);
        MarkIsPlain(mem, Off(sec.recs, j));
        OffStep(sec.recs, j);
        PlainJoin(mem, Off(sec.recs, j), Off(sec.recs, j) + 4, NextTable(sec.recs, j));
      }
    } else {
      TailIsPlain(mem, sec);
    }
  }

  /** Where the status table of the next visible slot ends, or the sector. */
  function NextTable(recs: seq<Rec>, j: nat): nat
    requires j <= |recs|
  {
    var n := NextVisible(recs, j);
    if n < |recs| then Off(recs, n) + MAGIC_OFFSET else SEC_SIZE
  }

  lemma PlainJoin(mem: seq<byte>, a: nat, b: nat, c: nat)
    requires Plain(mem, a, b) && Plain(mem, b, c)
    ensures Plain(mem, a, c)
  {
  }

  lemma TailIsPlain(mem: seq<byte>, sec: Sector)
    requires Represents(mem, sec) && sec.recs != []
    ensures Plain(mem, Off(sec.recs, |sec.recs|), SEC_SIZE)
  {
    hide HeaderBytes, Slots, Off;
  }

  lemma MarkIsPlain(mem: seq<byte>, o: nat)
    requires o + 4 <= |mem| && mem[o..o + 4] == MARK
    ensures Plain(mem, o, o + 4)
  {
    assert mem[o] == mem[o..o + 4][0] && mem[o + 1] == mem[o..o + 4][1];
    assert mem[o + 2] == mem[o..o + 4][2] && mem[o + 3] == mem[o..o + 4][3];
  }

  /** What is left of a record that was cut off does not contain the magic word behind its own,
      and does not check out when a later slot has begun inside it. */
  ghost predicate CleanTorn(mem: seq<byte>, recs: seq<Rec>) {
    && (forall j: nat, q: nat {:trigger Inside(recs, j, q), MagicAt(mem, q)} :: Inside(recs, j, q) ==> !MagicAt(mem, q))
    && (forall j: nat {:trigger Overlapped(recs, j)} :: Overlapped(recs, j) ==> !GoodAt(mem, Off(recs, j), Size(recs[j])))
  }

  predicate Torn(r: Rec) { 2 <= r.written < Total(r) }

  predicate Inside(recs: seq<Rec>, j: nat, q: nat) {
    j < |recs| && Torn(recs[j]) && Off(recs, j) + 24 <= q < Off(recs, j + 1)
  }

  predicate Overlapped(recs: seq<Rec>, j: nat) {
    j < |recs| && Torn(recs[j]) && Off(recs, j + 1) < Off(recs, j) + Size(recs[j])
  }

  predicate GoodAt(mem: seq<byte>, o: nat, len: nat) { KV_HDR_SIZE <= len && o + len <= |mem| && CrcGood(mem, o, len) }

  /** The scan's answer: the first place from `s` on with a magic word where a record has it. */
  ghost predicate Found(mem: seq<byte>, s: nat, r: Option<nat>) {
    && (r.None? ==> forall q: nat :: s + MAGIC_OFFSET <= q < SCAN_END - 32 ==> !MagicAt(mem, q))
    && (r.Some? ==> s <= r.value < r.value + MAGIC_OFFSET < SCAN_END && MagicAt(mem, r.value + MAGIC_OFFSET)
                    && forall q: nat :: s + MAGIC_OFFSET <= q < r.value + MAGIC_OFFSET ==> !MagicAt(mem, q))
  }

  /** Where a reader looks next: behind a record that checks out, else one word into it. */
  predicate LooksFrom(recs: seq<Rec>, j: nat, s: nat)
    requires j < |recs|
  {
    s == Off(recs, j + 1) || (s == Off(recs, j) + 4 && !Complete(recs[j]))
  }

  lemma NothingBetween(mem: seq<byte>, sec: Sector, j: nat, s: nat, q: nat)
    requires Represents(mem, sec) && CleanTorn(mem, sec.recs) && j < |sec.recs| && Visible(j, sec.recs[j])
    requires LooksFrom(sec.recs, j, s) && s + MAGIC_OFFSET <= q < NextTable(sec.recs, j + 1)
    ensures !MagicAt(mem, q)
  {
    hide Off, Counted, HeaderBytes, Body, StatusAt, InkWords, KvSize, Table5, NextTable, MagicAt, Tail, GoodAt;
    var o, r := Off(sec.recs, j), sec.recs[j];
    if q >= Off(sec.recs, j + 1) {
      GapIsPlain(mem, sec, j + 1);
      PlainHasNoMagic(mem, Off(sec.recs, j + 1), NextTable(sec.recs, j + 1), q);
    } else if r.written >= 2 {
      assert SlotOf(mem, sec.recs, j);
      assert Inside(sec.recs, j, q);
    } else {
      assert SlotOf(mem, sec.recs, j);
      PlainHasNoMagic(mem, o + 24, Off(sec.recs, j + 1), q);
    }
  }

  lemma VisibleHasMagic(mem: seq<byte>, sec: Sector, j: nat)
    requires Represents(mem, sec) && j < |sec.recs| && sec.recs[j].written >= 1
    ensures MagicAt(mem, Off(sec.recs, j) + MAGIC_OFFSET)
  {
    hide Body, MagicAt, StatusAt, Tail, HeaderBytes, Table5, Off;
    assert SlotOf(mem, sec.recs, j);
    var o, end, r := Off(sec.recs, j), Off(sec.recs, j + 1), sec.recs[j];
    var b, n := Body(r.key, r.val), Kept(o, end, r.written) - o - MAGIC_OFFSET;
    BodyParts(r.key, r.val);
    Part(mem, o + MAGIC_OFFSET, b[..n], 0, 4);
    Part(b, 0, b[..n], 0, 4);
    MagicIs(mem, o + MAGIC_OFFSET);
  }

  lemma OffGrows(recs: seq<Rec>, j: nat)
    requires j < |recs|
    ensures Off(recs, j) + 4 <= Off(recs, j + 1)
  {
  }

  lemma SlotFits(sec: Sector, j: nat)
    requires SectorShape(sec) && j < |sec.recs|
    ensures Off(sec.recs, j) + Size(sec.recs[j]) + REMAIN_THRESHOLD < SEC_SIZE && Size(sec.recs[j]) >= KV_HDR_SIZE
    ensures RecShape(sec.recs[j])
  {
    assert SlotReserved(sec.recs, j);
  }

  /** The scan goes from each record to the next one a reader can see, and misses none. */
  lemma ScanFinds(mem: seq<byte>, sec: Sector, j: nat, s: nat, r: Option<nat>)
    requires Represents(mem, sec) && SectorShape(sec) && CleanTorn(mem, sec.recs)
    requires j < |sec.recs| && Visible(j, sec.recs[j]) && LooksFrom(sec.recs, j, s) && Found(mem, s, r)
    ensures var n := NextVisible(sec.recs, j + 1); r == if n < |sec.recs| then Some(Off(sec.recs, n)) else None
  {
    hide MagicAt, SlotBytes, Tail, HeaderBytes, RecShape, Off, Counted, CleanTorn;
    var n := NextVisible(sec.recs, j + 1);
    if n < |sec.recs| {
      VisibleHasMagic(mem, sec, n);
      SlotFits(sec, n);
      OffMono(sec.recs, j + 1, n);
      OffGrows(sec.recs, j);
      if r.Some? && r.value < Off(sec.recs, n) {
        NothingBetween(mem, sec, j, s, r.value + MAGIC_OFFSET);
      }
    } else if r.Some? {
      NothingBetween(mem, sec, j, s, r.value + MAGIC_OFFSET);
    }
  }

  // ---------------------------------------------------------------- reading the slots

  lemma SlotWords(mem: seq<byte>, o: nat, end: nat, j: nat, r: Rec)
    requires SlotBytes(mem, o, end, j, r) && r.written >= 2
    ensures FromLe(mem[o + LEN_OFFSET..o + LEN_OFFSET + 4]) == Size(r)
    ensures Complete(r) && end == o + Size(r) ==> mem[o + MAGIC_OFFSET..o + Size(r)] == Body(r.key, r.val)
  {
    hide FromLe, Le, Body, StatusAt, Table5;
    var b, n := Body(r.key, r.val), Kept(o, end, r.written) - o - MAGIC_OFFSET;
    Part(mem, o + MAGIC_OFFSET, b[..n], 4, 8);
    assert b[..n][4..8] == b[4..8];
    BodyParts(r.key, r.val);
    LeRoundTrip(Size(r));
    if Complete(r) && end == o + Size(r) { assert b[..n] == b; }
  }

  lemma ErasedLen(mem: seq<byte>, o: nat)
    requires ErasedAt(mem, o + LEN_OFFSET, o + LEN_OFFSET + 4)
    ensures FromLe(mem[o + LEN_OFFSET..o + LEN_OFFSET + 4]) == UINT_MAX
  {
    hide Value;
    ErasedNumber();
  }

  lemma MarkedLen(mem: seq<byte>, o: nat)
    requires o + LEN_OFFSET + 4 <= |mem| && mem[o + LEN_OFFSET..o + LEN_OFFSET + 4] == MARK
    ensures FromLe(mem[o + LEN_OFFSET..o + LEN_OFFSET + 4]) == UINT_MAX - 255
  {
    hide Value;
    ErasedNumber();
    ZeroNumber();
  }

  lemma ZeroNumber()
    ensures Value(0) == 0
  {
  }

  /** What a reader sees of a slot: a finished record as it is, one cut off before its length as a
      bad header, any other with its status and length. */
  predicate SeenAs(mem: seq<byte>, o: nat, r: Rec) {
    && Readable(mem, o)
    && var kv := Read(mem, o);
    && kv.len == Span(r)
    && (Complete(r) ==> kv == Seen(Code(r.status), Size(r), true, r.key, r.val))
    && (r.written < 2 ==> kv.status == 5 && !kv.crcOk)
    && (r.written >= 2 ==> kv.status == Code(r.status) && (kv.crcOk <==> GoodAt(mem, o, Size(r))))
  }

  lemma ReadFinished(mem: seq<byte>, o: nat, end: nat, j: nat, r: Rec)
    requires |mem| == SEC_SIZE && SlotBytes(mem, o, end, j, r) && RecShape(r) && Complete(r) && end == o + Size(r)
    ensures SeenAs(mem, o, r)
  {
    hide StatusAt, Body, Read, Readable, FromLe, Value, Cut, ErasedAt, Table5, LenBad, CrcGood;
    SlotWords(mem, o, end, j, r);
    FieldsWritten(mem, o, r.key, r.val);
    ReadWritten(mem, o, r.key, r.val);
    KeyComesBackIff(mem, o, r.key, r.val);
  }

  lemma ReadTorn(mem: seq<byte>, o: nat, end: nat, j: nat, r: Rec)
    requires |mem| == SEC_SIZE && SlotBytes(mem, o, end, j, r) && RecShape(r) && o + Size(r) <= SEC_SIZE && Torn(r)
    ensures SeenAs(mem, o, r)
  {
    hide StatusAt, Body, CrcGood, FromLe, Value, Cut, ErasedAt, Table5;
    SlotWords(mem, o, end, j, r);
  }

  lemma ReadHeaderless(mem: seq<byte>, o: nat, r: Rec)
    requires |mem| == SEC_SIZE && o + KV_HDR_SIZE <= SEC_SIZE && r.written < 2 && LenBad(LenAt(mem, o))
    ensures SeenAs(mem, o, r)
  {
    hide StatusAt, CrcGood, FromLe, Value, Cut, LenBad;
  }

  /** What a slot without a length word shows where that word would be, unless the next slot starts there. */
  lemma LengthErased(mem: seq<byte>, o: nat, end: nat, j: nat, r: Rec)
    requires SlotBytes(mem, o, end, j, r) && Visible(j, r) && r.written < 2
    ensures o + 24 <= end && (end >= o + 28 ==> ErasedAt(mem, o + 24, o + 28))
  {
    hide StatusAt, Body, Table5;
  }

  /** Where a slot has no length word, a reader finds erased bytes, or the mark of the next slot. */
  lemma LengthMissing(mem: seq<byte>, sec: Sector, j: nat)
    requires Represents(mem, sec) && SectorShape(sec) && j < |sec.recs| && Visible(j, sec.recs[j]) && sec.recs[j].written < 2
    ensures Off(sec.recs, j) + KV_HDR_SIZE <= SEC_SIZE == |mem| && LenBad(LenAt(mem, Off(sec.recs, j)))
  {
    hide StatusAt, FromLe, Value, Off, Counted, SectorShape, Size, SlotBytes, HeaderBytes, Tail;
    var recs := sec.recs;
    var o, end := Off(recs, j), Off(recs, j + 1);
    WholePage(mem, sec);
    assert SlotOf(mem, recs, j);
    LengthErased(mem, o, end, j, recs[j]);
    SlotFits(sec, j);
    var a, _ := OffAligned(recs, j);
    var b, _ := OffAligned(recs, j + 1);
    if end == o + 24 && j + 1 < |recs| {
      NextMark(mem, sec, j + 1);
      MarkedLen(mem, o);
    } else {
      if j + 1 == |recs| { TailErased(mem, sec, end); }
      ErasedLen(mem, o);
    }
  }

  lemma WholePage(mem: seq<byte>, sec: Sector)
    requires Represents(mem, sec)
    ensures |mem| == SEC_SIZE
  {
  }

  /** Every slot but the first starts with its PRE_WRITE mark. */
  lemma NextMark(mem: seq<byte>, sec: Sector, j: nat)
    requires Represents(mem, sec) && 0 < j < |sec.recs|
    ensures Off(sec.recs, j) + 4 <= |mem| && mem[Off(sec.recs, j)..Off(sec.recs, j) + 4] == MARK
  {
    hide HeaderBytes, StatusAt, Body, Off, Counted, Tail;
    assert SlotOf(mem, sec.recs, j);
    var o := Off(sec.recs, j);
    if Visible(j, sec.recs[j]) { assert mem[o..o + 4] == [mem[o], mem[o + 1], mem[o + 2], mem[o + 3]]; }
  }

  lemma ReadSlot(mem: seq<byte>, sec: Sector, j: nat)
    requires Represents(mem, sec) && SectorShape(sec) && j < |sec.recs| && Visible(j, sec.recs[j])
    ensures SeenAs(mem, Off(sec.recs, j), sec.recs[j])
  {
    hide SlotBytes, SeenAs, Tail, LenAt, Off, Counted, Size, Table3, StatusAt, RecShape;
    var o, end, r := Off(sec.recs, j), Off(sec.recs, j + 1), sec.recs[j];
    SlotFits(sec, j);
    assert SlotOf(mem, sec.recs, j) && SlotReserved(sec.recs, j);
    if Complete(r) {
      WholeStep(sec.recs, j);
      ReadFinished(mem, o, end, j, r);
    } else if r.written >= 2 {
      WrittenFits(r);
      ReadTorn(mem, o, end, j, r);
    } else {
      LengthMissing(mem, sec, j);
      ReadHeaderless(mem, o, r);
    }
  }

  lemma WrittenFits(r: Rec)
    requires RecShape(r) && !Complete(r) && r.written >= 2
    ensures Torn(r)
  {
  }

  lemma {:induction false} OffAligned(recs: seq<Rec>, j: nat) returns (a: nat, c: nat)
    requires j <= |recs|
    ensures Off(recs, j) == 4 * a && Counted(recs, j) == 4 * c
  {
    hide Span, Inked;
    if j == 0 {
      a, c := 9, 9;
    } else {
      a, c := OffAligned(recs, j - 1);
      var x, y := SpanAligned(recs[j - 1]);
      c := if Visible(j - 1, recs[j - 1]) then c + x else c;
      a := Max(c, a + y);
    }
  }

  lemma SpanAligned(r: Rec) returns (x: nat, y: nat)
    ensures Span(r) == 4 * x && Inked(r) == 4 * y
  {
    hide BodyWords, InkWords;
    x := if r.written >= 2 then 5 + Total(r) else 10;
    y := InkWords(r.key, r.val, r.written);
  }

  // ---------------------------------------------------------------- where the free space starts

  /** Where the erased bytes that end at `p` start, looking no further back than `lo`. */
  function RunStart(mem: seq<byte>, lo: nat, p: nat): (a: nat)
    requires lo <= p <= |mem|
    ensures lo <= a <= p && ErasedAt(mem, a, p)
    ensures a > lo ==> mem[a - 1] != FF
  {
    if p == lo || mem[p - 1] != FF then p else RunStart(mem, lo, p - 1)
  }

  /** The start of the erased rest of a stretch, or its end when the last byte is written. */
  function FfAddr(mem: seq<byte>, lo: nat, hi: nat): nat
    requires lo <= hi <= |mem|
    ensures FfAddr(mem, lo, hi) < hi + 4 && (hi % 4 == 0 ==> FfAddr(mem, lo, hi) <= hi)
  {
    if lo < hi && mem[hi - 1] == FF then WgAlign(RunStart(mem, lo, hi)) else hi
  }

  method ContinueFfAddr(mem: seq<byte>, start: nat, end: nat) returns (r: nat)
    requires start <= end <= |mem|
    ensures r == FfAddr(mem, start, end)
  {
    var lastData := WRITTEN;
    var addr, s := start, start;
    while s < end
      invariant start <= s && (s < end || end <= s)
      invariant var p := if s < end then s else end;
        && (p == start ==> lastData == WRITTEN) && (p > start ==> lastData == mem[p - 1])
        && (lastData == FF ==> addr == RunStart(mem, start, p))
    {
      var size := if s + 32 < end then 32 else end - s;
      var buf := mem[s..s + size];
      for i := 0 to size
        invariant s + i == start ==> lastData == WRITTEN
        invariant s + i > start ==> lastData == mem[s + i - 1]
        invariant lastData == FF ==> addr == RunStart(mem, start, s + i)
      {
        if lastData != FF && buf[i] == FF {
          addr := s + i;
          assert RunStart(mem, start, s + i) == s + i;
        }
        lastData := buf[i];
      }
      s := s + 32;
    }
    if lastData == FF {
      return WgAlign(addr);
    }
    return end;
  }

  lemma {:induction false} CountedSkips(recs: seq<Rec>, j: nat)
    requires j <= |recs|
    ensures Counted(recs, NextVisible(recs, j)) == Counted(recs, j)
    decreases |recs| - j
  {
    if j < |recs| && !Visible(j, recs[j]) { CountedSkips(recs, j + 1); }
  }

  /** Where the search for the next record starts: behind a record that checks out, else one word on. */
  function LookFrom(o: nat, kv: Seen): nat { if kv.crcOk then o + kv.len else o + 4 }

  /** When the search starts at the true start of the free space, the scan finds nothing: the
      shortcut through the sector cache and the scan agree. */
  lemma ShortcutAgrees(mem: seq<byte>, sec: Sector)
    requires Represents(mem, sec) && sec.store == Using
    ensures Found(mem, End(sec), None)
  {
    hide HeaderBytes, Slots, MagicAt;
    forall q: nat | End(sec) + MAGIC_OFFSET <= q < SCAN_END - 32 ensures !MagicAt(mem, q) {
      PlainHasNoMagic(mem, End(sec), SEC_SIZE, q);
    }
  }

  /** The record after the one `kv` read at `o`, or the first one when there is none before it. */
  method GetNextKvAddr(mem: seq<byte>, ghost sec: Sector, store: Store, o: Option<nat>, kv: Seen, cached: Option<nat>)
    returns (r: Option<nat>)
    requires Represents(mem, sec) && store == sec.store && (store == Using || store == Empty)
    requires o.Some? ==> o.value >= SECTOR_HDR_SIZE
    requires store == Using && cached.Some? ==> cached.value == End(sec)
    ensures store == Empty ==> r == None
    ensures store == Using && o == None ==> r == Some(SECTOR_HDR_SIZE)
    ensures store == Using && o.Some? ==> Found(mem, LookFrom(o.value, kv), r)
  {
    if store == Empty {
      return None;
    }
    if o == None {
      return Some(SECTOR_HDR_SIZE);
    }
    assert |mem| == SEC_SIZE;
    ShortcutAgrees(mem, sec);
    hide Represents, MagicAt;
    var addr := if kv.crcOk then o.value + kv.len else o.value + 4;
    r := FindNextKvAddr(mem, addr, SCAN_END, cached);
  }

  /** A traversal about to read slot `j`, or past the last one, has added up the slots before it. */
  predicate At(recs: seq<Rec>, j: nat, next: Option<nat>, total: nat) {
    if recs == [] then
      j <= 1 && next == (if j == 0 then Some(SECTOR_HDR_SIZE) else None)
      && total == SECTOR_HDR_SIZE + if j == 0 then 0 else KV_HDR_SIZE
    else
      j <= |recs| && total == Counted(recs, j) && (j < |recs| ==> Visible(j, recs[j]))
      && next == if j < |recs| then Some(Off(recs, j)) else None
  }

  ghost function After(recs: seq<Rec>, j: nat): (n: nat)
    requires j < |recs| || (recs == [] && j == 0)
    ensures n > j
  {
    if recs == [] then 1 else NextVisible(recs, j + 1)
  }

  lemma ReadBlank(mem: seq<byte>, sec: Sector)
    requires Represents(mem, sec) && sec.recs == [] && sec.store == Using
    ensures Readable(mem, SECTOR_HDR_SIZE) && Read(mem, SECTOR_HDR_SIZE) == Seen(5, KV_HDR_SIZE, false, [], [])
    ensures forall q: nat :: SECTOR_HDR_SIZE <= q < SEC_SIZE ==> !MagicAt(mem, q)
  {
    hide Slots, StatusAt, FromLe, CrcGood, Value, Cut, WgAlign;
    ErasedLen(mem, SECTOR_HDR_SIZE);
    assert LenAt(mem, SECTOR_HDR_SIZE) == UINT_MAX;
    WordIsPlain(mem, 52);
    assert Plain(mem, SECTOR_HDR_SIZE, SEC_SIZE);
    forall q: nat | SECTOR_HDR_SIZE <= q < SEC_SIZE ensures !MagicAt(mem, q) {
      PlainHasNoMagic(mem, SECTOR_HDR_SIZE, SEC_SIZE, q);
    }
  }

  lemma CountedFits(sec: Sector, j: nat)
    requires SectorShape(sec) && j <= |sec.recs|
    ensures Counted(sec.recs, j) <= SEC_SIZE
  {
    EndReserved(sec);
    OffMono(sec.recs, j, |sec.recs|);
  }

  /** One turn of the traversal. */
  lemma TraverseStep(mem: seq<byte>, sec: Sector, j: nat, o: nat, total: nat)
    requires Represents(mem, sec) && SectorShape(sec) && CleanTorn(mem, sec.recs) && sec.store == Using
    requires At(sec.recs, j, Some(o), total)
    ensures Readable(mem, o) && o >= SECTOR_HDR_SIZE
    ensures var kv := Read(mem, o);
            && (kv.crcOk || kv.status == 1 || kv.status == 5) && total + kv.len <= SEC_SIZE
            && forall r :: Found(mem, LookFrom(o, kv), r) ==> At(sec.recs, After(sec.recs, j), r, total + kv.len)
  {
    if sec.recs == [] {
      hide Represents, Read, Readable;
      ReadBlank(mem, sec);
      hide MagicAt;
    } else {
      TraverseRecord(mem, sec, j, o, total);
    }
  }

  /** Behind a slot that checks out nothing has begun inside it. */
  lemma LooksRight(mem: seq<byte>, sec: Sector, j: nat)
    requires Represents(mem, sec) && SectorShape(sec) && CleanTorn(mem, sec.recs) && j < |sec.recs| && Visible(j, sec.recs[j])
    requires SeenAs(mem, Off(sec.recs, j), sec.recs[j])
    ensures LooksFrom(sec.recs, j, LookFrom(Off(sec.recs, j), Read(mem, Off(sec.recs, j))))
  {
    hide Represents, Read, Readable, KvSize, Off, Counted, Found, GoodAt;
    var r := sec.recs[j];
    assert RecShape(r) && SlotReserved(sec.recs, j);
    OffStep(sec.recs, j);
    if Complete(r) {
      WholeStep(sec.recs, j);
    } else if Torn(r) {
      assert Overlapped(sec.recs, j) ==> !GoodAt(mem, Off(sec.recs, j), Size(r));
    }
  }

  lemma TraverseRecord(mem: seq<byte>, sec: Sector, j: nat, o: nat, total: nat)
    requires Represents(mem, sec) && SectorShape(sec) && CleanTorn(mem, sec.recs) && sec.recs != []
    requires At(sec.recs, j, Some(o), total)
    ensures Readable(mem, o) && o >= SECTOR_HDR_SIZE
    ensures var kv := Read(mem, o);
            && (kv.crcOk || kv.status == 1 || kv.status == 5) && total + kv.len <= SEC_SIZE
            && forall r :: Found(mem, LookFrom(o, kv), r) ==> At(sec.recs, After(sec.recs, j), r, total + kv.len)
  {
    hide Represents, Read, Readable, Found, CleanTorn, Reserved, KvSize, WgAlign, GoodAt, Off, LooksFrom;
    var recs := sec.recs;
    var r := recs[j];
    ReadSlot(mem, sec, j);
    LooksRight(mem, sec, j);
    assert RecShape(r);
    var kv := Read(mem, o);
    assert Counted(recs, j + 1) == total + kv.len;
    CountedFits(sec, j + 1);
    CountedSkips(recs, j + 1);
    forall f | Found(mem, LookFrom(o, kv), f) ensures At(recs, After(recs, j), f, total + kv.len) {
      ScanFinds(mem, sec, j, LookFrom(o, kv), f);
    }
  }

  /** The last byte in front of the free space does not look erased, unless the traversal has
      counted up to there. */
  lemma InkShows(mem: seq<byte>, sec: Sector) returns (k: nat)
    requires Represents(mem, sec) && sec.recs != [] && Lags(sec.recs)
    ensures var end := Off(sec.recs, |sec.recs|); end - 4 <= k < end <= |mem| && mem[k] != FF
  {
    hide HeaderBytes, StatusAt, Body, Table5, Blank;
    var n := |sec.recs| - 1;
    var o, end, r := Off(sec.recs, n), Off(sec.recs, n + 1), sec.recs[n];
    assert SlotOf(mem, sec.recs, n);
    if !Visible(n, r) {
      assert mem[o] == mem[o..o + 4][0];
      k := o;
    } else {
      k := WordShows(mem, o, r.key, r.val, r.written);
    }
  }

  /** The last word of what is written that does not look erased, as bytes. */
  lemma WordShows(mem: seq<byte>, o: nat, key: Key, val: Val, written: nat) returns (k: nat)
    requires Sized(key, val) && 1 <= written <= BodyWords(key, val)
    requires var v := o + 4 * InkWords(key, val, written);
      v <= |mem| && o + MAGIC_OFFSET <= v && mem[o + MAGIC_OFFSET..v] == Body(key, val)[..v - o - MAGIC_OFFSET]
    ensures var v := o + 4 * InkWords(key, val, written); v - 4 <= k < v && mem[k] != FF
  {
    hide Body;
    InkBounds(key, val, written);
    var b, n := Body(key, val), LastInk(Body(key, val), written) - 1;
    assert !Blank(b, n);
    var i: nat :| i < 4 && b[4 * n + i] != FF;
    k := o + MAGIC_OFFSET + 4 * n + i;
    var v := o + 4 * InkWords(key, val, written);
    assert mem[o + MAGIC_OFFSET..v][4 * n + i] == b[..v - o - MAGIC_OFFSET][4 * n + i];
  }

  /** Putting the count right by the erased rest of the sector gives the start of the free space. */
  lemma FreeFromIs(mem: seq<byte>, sec: Sector)
    requires Represents(mem, sec) && sec.recs != [] && Off(sec.recs, |sec.recs|) < SEC_SIZE
    ensures FfAddr(mem, Counted(sec.recs, |sec.recs|), SEC_SIZE) == Off(sec.recs, |sec.recs|)
  {
    hide HeaderBytes, Slots, Off, Counted;
    var n := |sec.recs|;
    var x, _ := OffAligned(sec.recs, n);
    var lo, end := Counted(sec.recs, n), Off(sec.recs, n);
    var a := RunStart(mem, lo, SEC_SIZE);
    if Lags(sec.recs) {
      var k := InkShows(mem, sec);
      assert a > k;
    }
  }

  /** Read every record of a sector, add up their lengths, and put the result right by looking for
      the erased rest of the sector: the free offset and the remaining size are the true ones. */
  method Traverse(mem: seq<byte>, ghost sec: Sector, store: Store) returns (emptyKv: nat, remain: nat)
    requires Represents(mem, sec) && SectorShape(sec) && CleanTorn(mem, sec.recs) && store == sec.store
    requires store == Using || store == Empty
    ensures emptyKv == End(sec) && remain == SEC_SIZE - End(sec)
  {
    if store == Empty {
      return SECTOR_HDR_SIZE, SEC_SIZE - SECTOR_HDR_SIZE;
    }
    emptyKv, remain := TraverseUsing(mem, sec);
  }

  method TraverseUsing(mem: seq<byte>, ghost sec: Sector) returns (emptyKv: nat, remain: nat)
    requires Represents(mem, sec) && SectorShape(sec) && CleanTorn(mem, sec.recs) && sec.store == Using
    ensures emptyKv == End(sec) && remain == SEC_SIZE - End(sec)
  {
    hide Represents, SectorShape, CleanTorn, Read, Readable, Found, FfAddr, Off, Counted;
    TraverseEnds(mem, sec);
    emptyKv, remain := SECTOR_HDR_SIZE, SEC_SIZE - SECTOR_HDR_SIZE;
    var next := Some(SECTOR_HDR_SIZE);
    ghost var j := 0;
    while next.Some?
      invariant At(sec.recs, j, next, emptyKv) && emptyKv <= SEC_SIZE && remain == SEC_SIZE - emptyKv
      decreases |sec.recs| + 1 - j
    {
      var o := next.value;
      TraverseStep(mem, sec, j, o, emptyKv);
      var kv := ReadKv(mem, o);
      // Only a record past PRE_WRITE with a bad checksum would stop the traversal; there is none.
      if !kv.crcOk && kv.status != 1 && kv.status != 5 {
        assert false;
      }
      emptyKv := emptyKv + kv.len;
      remain := remain - kv.len;
      next := GetNextKvAddr(mem, sec, Using, Some(o), kv, None);
      j := After(sec.recs, j);
    }
    var ff := ContinueFfAddr(mem, emptyKv, SEC_SIZE);
    if emptyKv != ff {
      emptyKv := ff;
      remain := SEC_SIZE - ff;
    }
  }

  /** Where a traversal starts, and what its count comes to in the end. */
  lemma TraverseEnds(mem: seq<byte>, sec: Sector)
    requires Represents(mem, sec) && SectorShape(sec) && sec.store == Using
    ensures |mem| == SEC_SIZE && At(sec.recs, 0, Some(SECTOR_HDR_SIZE), SECTOR_HDR_SIZE)
    ensures var lo := if sec.recs == [] then SECTOR_HDR_SIZE + KV_HDR_SIZE else Counted(sec.recs, |sec.recs|);
            lo <= SEC_SIZE && FfAddr(mem, lo, SEC_SIZE) == End(sec) <= SEC_SIZE
  {
    hide Slots, StatusAt, Table3, SectorShape;
    EndReserved(sec);
    if sec.recs != [] {
      FreeFromIs(mem, sec);
    } else {
      assert RunStart(mem, 76, SEC_SIZE) == 76;
    }
  }

  // ---------------------------------------------------------------- when a later record reaches into a finished one

  /** A finished record ends where the next slot starts exactly when it was begun where the
      traversal had counted to, or does not end in a word that looks erased. */
  lemma WholeIff(recs: seq<Rec>, j: nat)
    requires j < |recs| && Complete(recs[j]) && Sized(recs[j].key, recs[j].val)
    ensures Off(recs, j + 1) == Off(recs, j) + Size(recs[j]) <==> Off(recs, j) == Counted(recs, j) || Solid(recs[j].key, recs[j].val)
    ensures Off(recs, j) + KV_HDR_SIZE <= Off(recs, j + 1) <= Off(recs, j) + Size(recs[j])
  {
    InkBounds(recs[j].key, recs[j].val, recs[j].written);
    OffStep(recs, j);
  }

  /** Programming the mark of the next record, where a traversal finds the free space to start,
      leaves the last finished record readable exactly under that condition. */
  lemma KeptIff(mem: seq<byte>, mem': seq<byte>, sec: Sector)
    requires Represents(mem, sec) && sec.recs != [] && Complete(sec.recs[|sec.recs| - 1])
    requires var n := |sec.recs| - 1; Off(sec.recs, n) + Size(sec.recs[n]) + 4 <= SEC_SIZE
    requires var a := FfAddr(mem, Counted(sec.recs, |sec.recs|), SEC_SIZE);
             a + 4 <= SEC_SIZE && |mem'| == |mem| && mem'[a] == WRITTEN && forall k :: 0 <= k < |mem| && k != a ==> mem'[k] == mem[k]
    ensures var n := |sec.recs| - 1; var o, r := Off(sec.recs, n), sec.recs[n];
            && GoodAt(mem, o, Size(r))
            && (GoodAt(mem', o, Size(r)) <==> !Lags(sec.recs[..n]) || Solid(r.key, r.val))
  {
    hide FfAddr, Off, Counted, Size, Represents, Solid, GoodAt, Body;
    var recs, n := sec.recs, |sec.recs| - 1;
    var o, r, end := Off(recs, n), recs[n], Off(recs, n + 1);
    WholePage(mem, sec);
    LastBytes(mem, sec);
    WholeIff(recs, n);
    OffSame(recs[..n], recs, n);
    FreeFromIs(mem, sec);
    LastGood(mem, o, r);
    if end == o + Size(r) {
      CrcSame(mem, mem', o, Size(r));
    } else {
      TailErased(mem, sec, end);
      CrcBroken(mem, mem', o, Size(r), end);
    }
  }

  lemma LastGood(mem: seq<byte>, o: nat, r: Rec)
    requires Sized(r.key, r.val) && o + Size(r) <= |mem| == SEC_SIZE && mem[o + MAGIC_OFFSET..o + Size(r)] == Body(r.key, r.val)
    ensures GoodAt(mem, o, Size(r))
  {
    hide Body, CrcGood, DataAt, LenAt;
    FieldsWritten(mem, o, r.key, r.val);
  }

  lemma TailErased(mem: seq<byte>, sec: Sector, k: nat)
    requires Represents(mem, sec) && sec.recs != [] && Off(sec.recs, |sec.recs|) <= k
    ensures forall i :: k <= i < |mem| ==> mem[i] == FF
  {
  }

  /** The bytes of the last record in full: where the free space reaches into it they look erased. */
  lemma LastBytes(mem: seq<byte>, sec: Sector)
    requires Represents(mem, sec) && sec.recs != [] && Complete(sec.recs[|sec.recs| - 1])
    requires Off(sec.recs, |sec.recs| - 1) + Size(sec.recs[|sec.recs| - 1]) <= SEC_SIZE
    ensures HoldsBody(mem, Off(sec.recs, |sec.recs| - 1), sec.recs[|sec.recs| - 1])
  {
    hide StatusAt, Table5, Table3, Body, Blank, Off, Counted, InkWords, KvSize;
    var n := |sec.recs| - 1;
    var o, r, end := Off(sec.recs, n), sec.recs[n], Off(sec.recs, n + 1);
    assert SlotOf(mem, sec.recs, n);
    OffStep(sec.recs, n);
    InkRest(mem, o, r.key, r.val, r.written, end);
  }

  predicate HoldsBody(mem: seq<byte>, o: nat, r: Rec) {
    Sized(r.key, r.val) && o + Size(r) <= |mem| && mem[o + MAGIC_OFFSET..o + Size(r)] == Body(r.key, r.val)
  }

  /** What is programmed behind the last word that does not look erased is what erased flash holds. */
  lemma InkRest(mem: seq<byte>, o: nat, key: Key, val: Val, written: nat, end: nat)
    requires Sized(key, val) && 1 <= written <= BodyWords(key, val) && |mem| == SEC_SIZE
    requires o + 4 * InkWords(key, val, written) <= end && o + MAGIC_OFFSET + 4 * written <= SEC_SIZE
    requires var v := Kept(o, end, written); o + MAGIC_OFFSET <= v && mem[o + MAGIC_OFFSET..v] == Body(key, val)[..v - o - MAGIC_OFFSET]
    requires ErasedAt(mem, Kept(o, end, written), SEC_SIZE)
    ensures mem[o + MAGIC_OFFSET..o + MAGIC_OFFSET + 4 * written] == Body(key, val)[..4 * written]
  {
    hide Body, BodyWords;
    var b, v := Body(key, val), Kept(o, end, written);
    BlankBytes(b, written);
    forall i: nat | i < 4 * written ensures mem[o + MAGIC_OFFSET + i] == b[i] {
      if o + MAGIC_OFFSET + i < v {
        assert mem[o + MAGIC_OFFSET..v][i] == b[..v - o - MAGIC_OFFSET][i];
      }
    }
  }

  lemma CrcSame(mem: seq<byte>, mem': seq<byte>, o: nat, len: nat)
    requires len >= KV_HDR_SIZE && o + len <= |mem| == |mem'| && mem'[o + 28..o + len] == mem[o + 28..o + len] && GoodAt(mem, o, len)
    ensures GoodAt(mem', o, len)
  {
    Part(mem', o + 28, mem[o + 28..o + len], 0, 4);
    Part(mem', o + 28, mem[o + 28..o + len], 4, len - 28);
    Part(mem, o + 28, mem[o + 28..o + len], 0, 4);
    Part(mem, o + 28, mem[o + 28..o + len], 4, len - 28);
  }

  /** One byte changed behind the header breaks the checksum. */
  lemma CrcBroken(mem: seq<byte>, mem': seq<byte>, o: nat, len: nat, a: nat)
    requires o + KV_HDR_SIZE <= a < o + len <= |mem| == |mem'| && GoodAt(mem, o, len)
    requires mem[a] == FF && mem'[a] == WRITTEN && forall k :: 0 <= k < |mem| && k != a ==> mem'[k] == mem[k]
    ensures !GoodAt(mem', o, len)
  {
    hide Crc32.Crc, CrcOf;
    var x, y, i := mem[o + 32..o + len], mem'[o + 32..o + len], a - o - 32;
    assert y == x[i := WRITTEN];
    assert mem'[o + 28..o + 32] == mem[o + 28..o + 32];
    Crc32.OneByte(0, x, i, WRITTEN);
  }

  /** A sector in which the condition fails: a record, a slot lost after its PRE_WRITE mark, and a
      record whose value is four erased bytes. */
  const LOOSE := Sector(true, Using, Clean, [Rec(Write, [0x61], [0x31], 7), Rec(PreWrite, [0x62], [0x32], 0),
                                             Rec(Write, [0x63], [0xFF, 0xFF, 0xFF, 0xFF], 7)])

  lemma LooseOffsets()
    ensures Off(LOOSE.recs, 2) == 88 && Counted(LOOSE.recs, 2) == 84 && Size(LOOSE.recs[2]) == 48 && Complete(LOOSE.recs[2])
    ensures !Solid(LOOSE.recs[2].key, LOOSE.recs[2].val)
  {
    hide InkWords, Solid;
    var recs := LOOSE.recs;
    assert Size(recs[0]) == 48 && Total(recs[0]) == 7 && recs[1].written == 0;
    assert Counted(recs, 0) == Off(recs, 0) == 36;
    OffStep(recs, 0);
    OffStep(recs, 1);
    SolidIff(recs[2].key, recs[2].val);
  }

  /** The next record the code writes into it destroys the last one: its mark lands on the last word
      of the value, and the record no longer checks out. */
  lemma LossExample(mem: seq<byte>, mem': seq<byte>)
    requires Represents(mem, LOOSE)
    requires var a := FfAddr(mem, Counted(LOOSE.recs, 3), SEC_SIZE);
             a + 4 <= SEC_SIZE && |mem'| == |mem| && mem'[a] == WRITTEN && forall k :: 0 <= k < |mem| && k != a ==> mem'[k] == mem[k]
    ensures GoodAt(mem, 88, 48) && !GoodAt(mem', 88, 48)
    ensures !Placeable(LOOSE.recs[..2], LOOSE.recs[2].key, LOOSE.recs[2].val)
  {
    hide Represents, GoodAt, FfAddr, Off, Counted, Solid, Size;
    LooseOffsets();
    OffSame(LOOSE.recs[..2], LOOSE.recs, 2);
    KeptIff(mem, mem', LOOSE);
  }
}
