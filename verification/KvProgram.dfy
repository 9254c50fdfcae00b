/** Every change the database makes is one word programmed onto erased flash, and the bytes keep
    representing the records. */
module KvProgram {
  import opened KvRecord
  import opened KvFlash
  import opened KvLayout
  import opened KvScan
  import FalPort

  datatype Program = Program(at: nat, word: seq<byte>)

  /** The word a change programs, and where. */
  function WordOf(f: Flash, op: Op): (p: Program)
    requires Can(f, op) && !op.OpErase? && SectorShape(f[SecOf(op)])
    ensures |p.word| == 4
  {
    match op
    case OpUsing(_) => Program(4, MARK)
    case OpDirty(_, d) => Program(12 + 4 * (Rank(d) - 1), MARK)
    case OpBegin(s, _, _, blank) => Program(Start(f[s], blank), MARK)
    case OpWord(s) => LastSized(f[s]); NextWord(f[s].recs)
    case OpStatus(l, st) => Program(Off(f[l.sec].recs, l.idx) + 4 * (Code(st) - 1), MARK)
    case OpHdrStore(_) => Program(0, MARK)
    case OpHdrDirty(_) => Program(12, MARK)
    case OpHdrMagic(_) => Program(24, SEC_MAGIC)
  }

  /** The next word of the last record. */
  function NextWord(recs: seq<Rec>): (p: Program)
    requires recs != [] && var r := recs[|recs| - 1]; r.written < Total(r) && Sized(r.key, r.val)
    ensures |p.word| == 4
  {
    var n := |recs| - 1;
    var r := recs[n];
    Program(Off(recs, n) + MAGIC_OFFSET + 4 * r.written, Body(r.key, r.val)[4 * r.written..4 * r.written + 4])
  }

  lemma LastSized(sec: Sector)
    requires SectorShape(sec) && sec.recs != []
    ensures var r := sec.recs[|sec.recs| - 1]; Sized(r.key, r.val) && Off(sec.recs, |sec.recs| - 1) + Size(r) + REMAIN_THRESHOLD < SEC_SIZE
  {
    var n := |sec.recs| - 1;
    assert RecShape(sec.recs[n]) && SlotReserved(sec.recs, n);
  }

  /** Memory after one word was programmed. */
  predicate Put(mem: seq<byte>, mem': seq<byte>, a: nat, w: seq<byte>) {
    && |w| == 4 && a + 4 <= |mem| && |mem'| == |mem|
    && mem'[a] == w[0] && mem'[a + 1] == w[1] && mem'[a + 2] == w[2] && mem'[a + 3] == w[3]
    && forall k :: 0 <= k < |mem| && !(a <= k < a + 4) ==> mem'[k] == mem[k]
  }

  lemma SplicedPut(mem: seq<byte>, a: nat, w: seq<byte>)
    requires |w| == 4 && a + 4 <= |mem|
    ensures Put(mem, FalPort.Spliced(mem, a, w), a, w)
  {
  }

  // ---------------------------------------------------------------- status tables

  /** What fixes the status a table shows. */
  lemma {:induction false} StatusIs(mem: seq<byte>, o: nat, n: nat, st: nat)
    requires n >= 1 && o + 4 * (n - 1) <= |mem| && st < n
    requires st > 0 ==> mem[o + 4 * (st - 1)] == WRITTEN
    requires forall i :: st <= i < n - 1 ==> mem[o + 4 * i] != WRITTEN
    ensures StatusAt(mem, o, n) == st
  {
    if n > st + 1 { StatusIs(mem, o, n - 1, st); }
  }

  lemma {:induction false} StatusSame(mem: seq<byte>, mem': seq<byte>, o: nat, n: nat, a: nat, w: seq<byte>)
    requires Put(mem, mem', a, w) && n >= 1 && o + 4 * (n - 1) <= |mem|
    requires a + 4 <= o || o + 4 * (n - 1) <= a
    ensures StatusAt(mem', o, n) == StatusAt(mem, o, n)
  {
    if n > 1 { StatusSame(mem, mem', o, n - 1, a, w); }
  }

  /** Marking the word of a later status moves the table to that status. */
  lemma StatusMarked(mem: seq<byte>, mem': seq<byte>, o: nat, n: nat, st: nat)
    requires n >= 1 && o + 4 * (n - 1) <= |mem| && StatusAt(mem, o, n) <= st < n && st > 0
    requires Put(mem, mem', o + 4 * (st - 1), MARK)
    ensures StatusAt(mem', o, n) == st
  {
    forall i | st <= i < n - 1 ensures mem'[o + 4 * i] != WRITTEN {
      assert mem[o + 4 * i] != WRITTEN;
    }
    StatusIs(mem', o, n, st);
  }


  // ---------------------------------------------------------------- slots the change does not touch

  lemma SlotSame(mem: seq<byte>, mem': seq<byte>, o: nat, end: nat, j: nat, r: Rec, a: nat, w: seq<byte>)
    requires SlotBytes(mem, o, end, j, r) && Put(mem, mem', a, w) && o + 4 <= end && (a + 4 <= o || end <= a)
    ensures SlotBytes(mem', o, end, j, r)
  {
    hide Body;
    if Visible(j, r) {
      if r.written >= 2 { StatusSame(mem, mem', o, KV_STATUS_NUM, a, w); }
      SliceSame(mem, mem', o + MAGIC_OFFSET, Kept(o, end, r.written));
    } else {
      SliceSame(mem, mem', o, o + 4);
    }
  }

  lemma SliceSame(mem: seq<byte>, mem': seq<byte>, lo: nat, hi: nat)
    requires lo <= hi <= |mem| == |mem'| && forall k :: lo <= k < hi ==> mem'[k] == mem[k]
    ensures mem'[lo..hi] == mem[lo..hi]
  {
  }

  /** All slots but the `x`-th, when the change stays inside the `x`-th slot or behind all slots. */
  lemma OtherSlots(mem: seq<byte>, mem': seq<byte>, recs: seq<Rec>, recs': seq<Rec>, x: nat, a: nat, w: seq<byte>)
    requires Slots(mem, recs) && Put(mem, mem', a, w) && x <= |recs| && x <= |recs'|
    requires Off(recs, x) <= a && (x + 1 < |recs'| ==> x + 1 < |recs| && a + 4 <= Off(recs, x + 1))
    requires forall j :: 0 <= j < |recs'| && j != x ==> j < |recs| && recs'[j] == recs[j]
    requires x + 1 < |recs'| ==> SamePlace(recs'[x], recs[x])
    ensures forall j :: 0 <= j < |recs'| && j != x ==> SlotOf(mem', recs', j)
  {
    hide SlotBytes, Off, Counted;
    forall j | 0 <= j < |recs'| && j != x ensures SlotOf(mem', recs', j) {
      var r := recs'[j];
      assert SlotOf(mem, recs, j);
      OffSame(recs', recs, j);
      OffSame(recs', recs, j + 1);
      OffGrows(recs, j);
      if j < x {
        OffMono(recs, j + 1, x);
      } else {
        OffMono(recs, x + 1, j);
      }
      SlotSame(mem, mem', Off(recs, j), Off(recs, j + 1), j, recs[j], a, w);
    }
  }

  lemma HeaderSame(mem: seq<byte>, mem': seq<byte>, sec: Sector, sec': Sector, a: nat, w: seq<byte>)
    requires HeaderBytes(mem, sec) && Put(mem, mem', a, w) && a >= SECTOR_HDR_SIZE
    requires sec'.ok == sec.ok && sec'.store == sec.store && sec'.dirty == sec.dirty
    ensures HeaderBytes(mem', sec')
  {
    StatusSame(mem, mem', 0, 4, a, w);
    StatusSame(mem, mem', 12, 4, a, w);
    SliceSame(mem, mem', 24, 28);
  }

  /** The word can be programmed: it is erased, or holds what is programmed. */
  predicate Takes(mem: seq<byte>, a: nat, w: seq<byte>) {
    a + |w| <= |mem| && (ErasedAt(mem, a, a + |w|) || mem[a..a + |w|] == w)
  }

  // ---------------------------------------------------------------- one lemma per change

  lemma BodyStays(mem: seq<byte>, mem': seq<byte>, sec: Sector, sec': Sector, a: nat, w: seq<byte>)
    requires Represents(mem, sec) && Put(mem, mem', a, w) && a + 4 <= SECTOR_HDR_SIZE && sec'.recs == sec.recs
    requires sec'.store == sec.store || (sec.recs == [] && sec.store == Empty && sec'.store == Using)
             || (sec.recs == [] && sec.store == StoreUnused && sec'.store == Empty)
    ensures Slots(mem', sec'.recs) && Tail(mem', sec')
  {
    hide SlotBytes, Counted;
    forall j | 0 <= j < |sec.recs| ensures SlotOf(mem', sec.recs, j) {
      assert SlotOf(mem, sec.recs, j);
      OffGrows(sec.recs, j);
      SlotSame(mem, mem', Off(sec.recs, j), Off(sec.recs, j + 1), j, sec.recs[j], a, w);
    }
  }

  lemma PutUsing(mem: seq<byte>, mem': seq<byte>, sec: Sector)
    requires Represents(mem, sec) && SectorShape(sec) && sec.ok && sec.store == Empty && Put(mem, mem', 4, MARK)
    ensures Takes(mem, 4, MARK) && Represents(mem', sec.(store := Using))
  {
    BodyStays(mem, mem', sec, sec.(store := Using), 4, MARK);
    hide Slots, Tail, SectorShape;
    StatusMarked(mem, mem', 0, 4, 2);
    StatusSame(mem, mem', 12, 4, 4, MARK);
    SliceSame(mem, mem', 24, 28);
    assert mem[0 + 4 * 1] != WRITTEN;
  }

  lemma PutDirty(mem: seq<byte>, mem': seq<byte>, sec: Sector, d: Dirty)
    requires Represents(mem, sec) && SectorShape(sec) && sec.ok && sec.store == Using && Rank(sec.dirty) <= Rank(d)
    requires Put(mem, mem', 12 + 4 * (Rank(d) - 1), MARK)
    ensures Takes(mem, 12 + 4 * (Rank(d) - 1), MARK) && Represents(mem', sec.(dirty := d))
  {
    hide Slots, Tail, Reserved, Off;
    var a := 12 + 4 * (Rank(d) - 1);
    BodyStays(mem, mem', sec, sec.(dirty := d), a, MARK);
    StatusMarked(mem, mem', 12, 4, Rank(d));
    StatusSame(mem, mem', 0, 4, a, MARK);
    SliceSame(mem, mem', 24, 28);
    if Rank(sec.dirty) < Rank(d) {
      assert mem[12 + 4 * (Rank(d) - 1)] != WRITTEN;
    } else {
      assert d == sec.dirty;
      MarkedWord(mem, a);
    }
  }

  lemma MarkedWord(mem: seq<byte>, a: nat)
    requires TableWord(mem, a) && mem[a] == WRITTEN
    ensures mem[a..a + 4] == MARK
  {
  }

  lemma PutHeader(mem: seq<byte>, mem': seq<byte>, sec: Sector, step: nat)
    requires Represents(mem, sec) && step < 3
    requires sec == Sector(false, if step == 0 then StoreUnused else Empty, if step == 2 then Clean else DirtyUnused, [])
    requires Put(mem, mem', 12 * step, if step == 2 then SEC_MAGIC else MARK)
    ensures Takes(mem, 12 * step, if step == 2 then SEC_MAGIC else MARK)
    ensures Represents(mem', if step == 0 then sec.(store := Empty) else if step == 1 then sec.(dirty := Clean) else sec.(ok := true))
  {
    var w := if step == 2 then SEC_MAGIC else MARK;
    if step == 0 {
      BodyStays(mem, mem', sec, sec.(store := Empty), 0, w);
      StatusMarked(mem, mem', 0, 4, 1);
      StatusSame(mem, mem', 12, 4, 0, w);
      assert mem[0 + 4 * 0] != WRITTEN;
    } else if step == 1 {
      BodyStays(mem, mem', sec, sec.(dirty := Clean), 12, w);
      StatusMarked(mem, mem', 12, 4, 1);
      StatusSame(mem, mem', 0, 4, 12, w);
      assert mem[12 + 4 * 0] != WRITTEN;
    } else {
      BodyStays(mem, mem', sec, sec.(ok := true), 24, w);
      StatusSame(mem, mem', 0, 4, 24, w);
      StatusSame(mem, mem', 12, 4, 24, w);
      assert mem'[24..28] == SEC_MAGIC;
    }
  }

  lemma Erased(mem: seq<byte>)
    requires |mem| == SEC_SIZE && ErasedAt(mem, 0, SEC_SIZE)
    ensures Represents(mem, Sector(false, StoreUnused, DirtyUnused, []))
  {
    StatusIs(mem, 0, 4, 0);
    StatusIs(mem, 12, 4, 0);
  }

  lemma PutStatus(mem: seq<byte>, mem': seq<byte>, sec: Sector, i: nat, st: Status)
    requires Represents(mem, sec) && SectorShape(sec) && i < |sec.recs| && Forward(sec.recs[i].status, st)
    requires sec.recs[i].written >= 2
    requires Put(mem, mem', Off(sec.recs, i) + 4 * (Code(st) - 1), MARK)
    ensures Takes(mem, Off(sec.recs, i) + 4 * (Code(st) - 1), MARK)
    ensures Represents(mem', sec.(recs := sec.recs[i := sec.recs[i].(status := st)]))
  {
    hide SlotBytes, HeaderBytes, SectorShape, Takes, Put, ErasedAt, Off, Counted, InkWords;
    var recs, r := sec.recs, sec.recs[i];
    var r' := r.(status := st);
    var recs' := recs[i := r'];
    var o, end := Off(recs, i), Off(recs, i + 1);
    var a := o + 4 * (Code(st) - 1);
    assert SlotOf(mem, recs, i);
    StatusFits(mem, o, end, i, r, st);
    OffMono(recs, i + 1, |recs|);
    UpdatedOff(recs, i, r');
    StatusSlot(mem, mem', o, end, i, r, st);
    OtherSlots(mem, mem', recs, recs', i, a, MARK);
    HeaderSame(mem, mem', sec, sec.(recs := recs'), a, MARK);
    ErasedSame(mem, mem', Off(recs, |recs|), a, MARK);
    Assemble(mem', sec.(recs := recs'), i);
  }

  lemma UpdatedOff(recs: seq<Rec>, i: nat, r: Rec)
    requires i < |recs| && SamePlace(r, recs[i])
    ensures Off(recs[i := r], i) == Off(recs, i) && Off(recs[i := r], i + 1) == Off(recs, i + 1)
    ensures Off(recs[i := r], |recs|) == Off(recs, |recs|)
  {
    hide Off, Counted;
    OffSame(recs[i := r], recs, i);
    OffSame(recs[i := r], recs, i + 1);
    OffSame(recs[i := r], recs, |recs|);
  }

  lemma Assemble(mem: seq<byte>, sec: Sector, x: nat)
    requires HeaderBytes(mem, sec) && Tail(mem, sec)
    requires forall j :: 0 <= j < |sec.recs| && j != x ==> SlotOf(mem, sec.recs, j)
    requires x < |sec.recs| ==> SlotOf(mem, sec.recs, x)
    ensures Represents(mem, sec)
  {
    hide HeaderBytes, Tail, SlotOf;
    forall j | 0 <= j < |sec.recs| ensures SlotOf(mem, sec.recs, j) {
      if j == x { assert SlotOf(mem, sec.recs, x); }
    }
  }

  lemma StatusFits(mem: seq<byte>, o: nat, end: nat, i: nat, r: Rec, st: Status)
    requires SlotBytes(mem, o, end, i, r) && r.written >= 2 && st != Unused
    ensures o + 4 * (Code(st) - 1) + 4 <= end
  {
  }

  lemma ErasedSame(mem: seq<byte>, mem': seq<byte>, lo: nat, a: nat, w: seq<byte>)
    requires Put(mem, mem', a, w) && ErasedAt(mem, lo, SEC_SIZE) && a + 4 <= lo
    ensures ErasedAt(mem', lo, SEC_SIZE)
  {
  }

  lemma StatusSlot(mem: seq<byte>, mem': seq<byte>, o: nat, end: nat, i: nat, r: Rec, st: Status)
    requires SlotBytes(mem, o, end, i, r) && r.written >= 2 && Forward(r.status, st) && Put(mem, mem', o + 4 * (Code(st) - 1), MARK)
    ensures Takes(mem, o + 4 * (Code(st) - 1), MARK) && SlotBytes(mem', o, end, i, r.(status := st))
  {
    hide Body, StatusAt, Total, KvSize, BodyWords;
    StatusBefore(mem, o, r.status, st);
    StatusMarked(mem, mem', o, KV_STATUS_NUM, Code(st));
    SliceSame(mem, mem', o + MAGIC_OFFSET, Kept(o, end, r.written));
  }

  lemma StatusBefore(mem: seq<byte>, o: nat, a: Status, st: Status)
    requires o + 20 <= |mem| && StatusAt(mem, o, KV_STATUS_NUM) == Code(a) && Forward(a, st)
    ensures mem[o + 4 * (Code(st) - 1)] != WRITTEN
  {
  }

  // ---------------------------------------------------------------- a new record

  lemma PutBegin(mem: seq<byte>, mem': seq<byte>, sec: Sector, key: Key, val: Val, blank: bool)
    requires Represents(mem, sec) && SectorShape(sec) && sec.ok && sec.store == Using && |key| < KV_NAME_MAX
    requires blank ==> sec.recs == []
    requires Start(sec, blank) + KvSize(key, val) + REMAIN_THRESHOLD < SEC_SIZE
    requires sec.recs == [] && !blank ==> mem[52] == FF
    requires Put(mem, mem', Start(sec, blank), MARK)
    ensures Takes(mem, Start(sec, blank), MARK)
    ensures Represents(mem', sec.(recs := Begun(sec, key, val, blank)))
  {
    hide SlotBytes, HeaderBytes, Slots, Tail, Takes, Put, SectorShape;
    if sec.recs != [] {
      BeginBehind(mem, mem', sec, key, val);
    } else if blank {
      assert [BLANK] + [Rec(PreWrite, key, val, 0)] == [BLANK, Rec(PreWrite, key, val, 0)];
      BeginAfterBlank(mem, mem', sec, key, val);
    } else {
      assert sec.recs + [Rec(PreWrite, key, val, 0)] == [Rec(PreWrite, key, val, 0)];
      BeginFirst(mem, mem', sec, key, val);
    }
  }

  lemma BeginBehind(mem: seq<byte>, mem': seq<byte>, sec: Sector, key: Key, val: Val)
    requires Represents(mem, sec) && sec.recs != [] && Put(mem, mem', Off(sec.recs, |sec.recs|), MARK)
    ensures Takes(mem, Off(sec.recs, |sec.recs|), MARK)
    ensures Represents(mem', sec.(recs := sec.recs + [Rec(PreWrite, key, val, 0)]))
  {
    hide HeaderBytes, Table5, StatusAt, Body, Off, Counted, InkWords, BodyWords;
    var recs, n := sec.recs, |sec.recs|;
    var r := Rec(PreWrite, key, val, 0);
    var a := Off(recs, n);
    OffAppend(recs, r, n);
    HeaderSame(mem, mem', sec, sec.(recs := recs + [r]), a, MARK);
    OtherSlots(mem, mem', recs, recs + [r], n, a, MARK);
    OffStep(recs + [r], n);
    assert mem'[a..a + 4] == MARK;
    Assemble(mem', sec.(recs := recs + [r]), n);
  }

  lemma BeginFirst(mem: seq<byte>, mem': seq<byte>, sec: Sector, key: Key, val: Val)
    requires Represents(mem, sec) && sec.recs == [] && sec.store == Using && mem[52] == FF && Put(mem, mem', SECTOR_HDR_SIZE, MARK)
    requires |key| < KV_NAME_MAX && KvSize(key, val) < SEC_SIZE
    ensures Takes(mem, SECTOR_HDR_SIZE, MARK)
    ensures Represents(mem', sec.(recs := [Rec(PreWrite, key, val, 0)]))
  {
    hide HeaderBytes, StatusAt, Body, Table5, Off, Counted, Takes, BodyWords;
    var r := Rec(PreWrite, key, val, 0);
    HeaderSame(mem, mem', sec, sec.(recs := [r]), SECTOR_HDR_SIZE, MARK);
    FirstSlot(mem, mem', r);
    Assemble(mem', sec.(recs := [r]), 0);
  }

  lemma FirstSlot(mem: seq<byte>, mem': seq<byte>, r: Rec)
    requires r.status == PreWrite && r.written == 0 && |r.key| < KV_NAME_MAX && Size(r) < SEC_SIZE
    requires |mem| == SEC_SIZE && ErasedAt(mem, 36, 52) && TableWord(mem, 52) && ErasedAt(mem, 56, SEC_SIZE)
    requires mem[52] == FF && Put(mem, mem', 36, MARK)
    ensures Takes(mem, 36, MARK) && Off([r], 1) == 76 && ErasedAt(mem', 76, SEC_SIZE) && SlotOf(mem', [r], 0)
  {
    hide HeaderBytes, StatusAt, Body, BodyWords;
    OffStep([r], 0);
    assert mem'[56..56] == Body(r.key, r.val)[..0];
  }

  lemma BeginAfterBlank(mem: seq<byte>, mem': seq<byte>, sec: Sector, key: Key, val: Val)
    requires Represents(mem, sec) && sec.recs == [] && sec.store == Using
    requires Put(mem, mem', SECTOR_HDR_SIZE + KV_HDR_SIZE, MARK)
    ensures Takes(mem, SECTOR_HDR_SIZE + KV_HDR_SIZE, MARK)
    ensures Represents(mem', sec.(recs := [BLANK, Rec(PreWrite, key, val, 0)]))
  {
    hide HeaderBytes, StatusAt, Body, Table5, Off, Counted, Takes;
    var recs' := [BLANK, Rec(PreWrite, key, val, 0)];
    HeaderSame(mem, mem', sec, sec.(recs := recs'), 76, MARK);
    AfterBlank(mem, mem', recs');
    Assemble(mem', sec.(recs := recs'), 0);
  }

  lemma AfterBlank(mem: seq<byte>, mem': seq<byte>, recs: seq<Rec>)
    requires |recs| == 2 && recs[0] == BLANK && recs[1].status == PreWrite && recs[1].written == 0
    requires |mem| == SEC_SIZE && ErasedAt(mem, 36, 52) && TableWord(mem, 52) && ErasedAt(mem, 56, SEC_SIZE) && Put(mem, mem', 76, MARK)
    ensures Takes(mem, 76, MARK) && Off(recs, 2) == 80 && ErasedAt(mem', 80, SEC_SIZE)
    ensures SlotOf(mem', recs, 0) && SlotOf(mem', recs, 1)
  {
    hide HeaderBytes, StatusAt, Body, BodyWords;
    BlankReserved();
    OffAppend([BLANK], recs[1], 1);
    OffAppend([BLANK], recs[1], 0);
    assert [BLANK] + [recs[1]] == recs;
    OffStep(recs, 1);
    assert mem'[76..80] == MARK && mem'[56..56] == Body([], [])[..0];
  }

  // ---------------------------------------------------------------- the next word of the last record

  /** A slot being written, with erased flash behind it. */
  predicate Open(mem: seq<byte>, o: nat, r: Rec) {
    && |mem| == SEC_SIZE && Sized(r.key, r.val) && r.written <= Total(r) && o + MAGIC_OFFSET + 4 * r.written <= SEC_SIZE
    && Table5(mem, o) && mem[o] == WRITTEN
    && (if r.written >= 2 then StatusAt(mem, o, KV_STATUS_NUM) == Code(r.status) else ErasedAt(mem, o + 4, o + 16))
    && mem[o + MAGIC_OFFSET..o + MAGIC_OFFSET + 4 * r.written] == Body(r.key, r.val)[..4 * r.written]
    && ErasedAt(mem, o + MAGIC_OFFSET + 4 * r.written, SEC_SIZE)
  }

  /** The last slot of a sector, while its record is not finished, is open. */
  lemma LastOpen(mem: seq<byte>, sec: Sector)
    requires Represents(mem, sec) && sec.recs != [] && Unfinished(sec)
    ensures Open(mem, Off(sec.recs, |sec.recs| - 1), sec.recs[|sec.recs| - 1])
  {
    hide SlotBytes, Off, Counted, InkWords, BodyWords, HeaderBytes, Open, Body;
    var n := |sec.recs| - 1;
    var o, r, end := Off(sec.recs, n), sec.recs[n], Off(sec.recs, n + 1);
    WholePage(mem, sec);
    assert SlotOf(mem, sec.recs, n);
    OffStep(sec.recs, n);
    SlotOpen(mem, o, end, n, r);
  }

  lemma SlotOpen(mem: seq<byte>, o: nat, end: nat, n: nat, r: Rec)
    requires SlotBytes(mem, o, end, n, r) && ErasedAt(mem, end, SEC_SIZE) && |mem| == SEC_SIZE && o + Inked(r) <= end
    requires !Visible(n, r) ==> end == o + 4
    requires r.status == PreWrite && r.written <= Total(r) && Sized(r.key, r.val) && o + Size(r) <= SEC_SIZE
    ensures Open(mem, o, r)
  {
    hide StatusAt, Body, Table3, InkWords, BodyWords;
    if !Visible(n, r) {
      HiddenOpen(mem, o, r);
    } else if r.written == 0 {
      assert mem[o + MAGIC_OFFSET..o + MAGIC_OFFSET] == Body(r.key, r.val)[..0];
    } else {
      InkRest(mem, o, r.key, r.val, r.written, end);
    }
  }

  predicate Unfinished(sec: Sector)
    requires sec.recs != []
  {
    var n := |sec.recs| - 1;
    var r := sec.recs[n];
    r.status == PreWrite && r.written <= Total(r) && Sized(r.key, r.val) && Off(sec.recs, n) + Size(r) <= SEC_SIZE
  }

  lemma HiddenOpen(mem: seq<byte>, o: nat, r: Rec)
    requires |mem| == SEC_SIZE && o + MAGIC_OFFSET <= SEC_SIZE && mem[o..o + 4] == MARK && ErasedAt(mem, o + 4, SEC_SIZE)
    requires r.written == 0 && Sized(r.key, r.val)
    ensures Open(mem, o, r)
  {
    hide StatusAt, Body, BodyWords;
    assert mem[o] == mem[o..o + 4][0] && mem[o + 1] == mem[o..o + 4][1];
    assert mem[o + 2] == mem[o..o + 4][2] && mem[o + 3] == mem[o..o + 4][3];
    assert mem[o + MAGIC_OFFSET..o + MAGIC_OFFSET] == Body(r.key, r.val)[..0];
  }

  /** Programming the next word keeps a slot open; no reader may have marked it meanwhile. */
  lemma OpenGrows(mem: seq<byte>, mem': seq<byte>, o: nat, r: Rec, x: seq<byte>)
    requires Open(mem, o, r) && r.status == PreWrite && r.written < Total(r) && o + Size(r) <= SEC_SIZE
    requires r.written < 2 ==> mem[o + 16] == FF
    requires x == Body(r.key, r.val)[4 * r.written..4 * r.written + 4] && Put(mem, mem', o + MAGIC_OFFSET + 4 * r.written, x)
    ensures Takes(mem, o + MAGIC_OFFSET + 4 * r.written, x) && Open(mem', o, r.(written := r.written + 1))
  {
    hide Body, BodyWords, StatusAt, Put, Table5;
    BodyGrows(mem, mem', o + MAGIC_OFFSET, Body(r.key, r.val), 4 * r.written);
    HeadGrows(mem, mem', o, r, x);
    RestGrows(mem, mem', o + MAGIC_OFFSET + 4 * r.written, x);
  }

  /** The status of a slot whose next word is programmed: with the length word it comes into sight. */
  lemma HeadGrows(mem: seq<byte>, mem': seq<byte>, o: nat, r: Rec, x: seq<byte>)
    requires |mem| == SEC_SIZE && Table5(mem, o) && mem[o] == WRITTEN && r.status == PreWrite && (r.written < 2 ==> mem[o + 16] == FF)
    requires if r.written >= 2 then StatusAt(mem, o, KV_STATUS_NUM) == Code(r.status) else ErasedAt(mem, o + 4, o + 16)
    requires Put(mem, mem', o + MAGIC_OFFSET + 4 * r.written, x)
    ensures |mem'| == SEC_SIZE && Table5(mem', o) && mem'[o] == WRITTEN
    ensures if r.written >= 1 then StatusAt(mem', o, KV_STATUS_NUM) == Code(r.status) else ErasedAt(mem', o + 4, o + 16)
  {
    hide StatusAt;
    if r.written >= 2 {
      StatusSame(mem, mem', o, KV_STATUS_NUM, o + MAGIC_OFFSET + 4 * r.written, x);
    } else if r.written == 1 {
      StatusIs(mem', o, KV_STATUS_NUM, 1);
    }
  }

  lemma RestGrows(mem: seq<byte>, mem': seq<byte>, a: nat, x: seq<byte>)
    requires ErasedAt(mem, a, SEC_SIZE) && Put(mem, mem', a, x) && |mem| == SEC_SIZE
    ensures Takes(mem, a, x) && ErasedAt(mem', a + 4, SEC_SIZE)
  {
  }

  lemma BodyGrows(mem: seq<byte>, mem': seq<byte>, at: nat, b: seq<byte>, w: nat)
    requires w + 4 <= |b| && at + w + 4 <= |mem| && mem[at..at + w] == b[..w] && Put(mem, mem', at + w, b[w..w + 4])
    ensures mem'[at..at + w + 4] == b[..w + 4]
  {
    SliceSame(mem, mem', at, at + w);
    assert mem'[at..at + w + 4] == mem'[at..at + w] + b[w..w + 4];
    assert b[..w + 4] == b[..w] + b[w..w + 4];
  }

  /** An open slot is what a slot is to hold, wherever behind its last word that does not look
      erased the free space is taken to start. */
  lemma OpenIsSlot(mem: seq<byte>, o: nat, end: nat, j: nat, r: Rec)
    requires Open(mem, o, r) && o + Inked(r) <= end <= SEC_SIZE && r.written >= 1 && r.status == PreWrite
    ensures SlotBytes(mem, o, end, j, r) && ErasedAt(mem, end, SEC_SIZE)
  {
    hide Body, BodyWords, StatusAt, Table5, InkWords;
    var b, w, at, v := Body(r.key, r.val), 4 * r.written, o + MAGIC_OFFSET, Kept(o, end, r.written);
    InkBounds(r.key, r.val, r.written);
    OpenRest(mem, o, end, r);
    Part(mem, at, b[..w], 0, v - at);
    assert b[..w][..v - at] == b[..v - at];
  }

  lemma OpenRest(mem: seq<byte>, o: nat, end: nat, r: Rec)
    requires Open(mem, o, r) && o + Inked(r) <= end <= SEC_SIZE && r.written >= 1
    ensures ErasedAt(mem, end, SEC_SIZE) && o + MAGIC_OFFSET <= end
  {
    hide Body, BodyWords, StatusAt, Table5;
    var b, w, at := Body(r.key, r.val), 4 * r.written, o + MAGIC_OFFSET;
    BlankBytes(b, r.written);
    InkBounds(r.key, r.val, r.written);
    forall k | end <= k < SEC_SIZE ensures mem[k] == FF {
      if k < at + w { assert mem[at..at + w][k - at] == b[..w][k - at]; }
    }
  }

  lemma PutWord(mem: seq<byte>, mem': seq<byte>, sec: Sector, n: nat, o: nat, r: Rec, x: seq<byte>)
    requires Represents(mem, sec) && SectorShape(sec) && n + 1 == |sec.recs| && o == Off(sec.recs, n) && r == sec.recs[n]
    requires r.status == PreWrite && r.written < Total(r) && Sized(r.key, r.val) && o + Size(r) <= SEC_SIZE
    requires r.written < 2 ==> mem[o + 16] == FF
    requires x == Body(r.key, r.val)[4 * r.written..4 * r.written + 4] && Put(mem, mem', o + MAGIC_OFFSET + 4 * r.written, x)
    ensures Takes(mem, o + MAGIC_OFFSET + 4 * r.written, x)
    ensures Represents(mem', sec.(recs := sec.recs[n := r.(written := r.written + 1)]))
  {
    hide SlotBytes, SectorShape, Body, StatusAt, Table5, Put, Off, Counted, Reserved, HeaderBytes, ErasedAt, Takes, Open, BodyWords;
    var r' := r.(written := r.written + 1);
    var sec' := sec.(recs := sec.recs[n := r']);
    LastOpen(mem, sec);
    OpenGrows(mem, mem', o, r, x);
    SlotsBefore(mem, mem', sec.recs, sec'.recs, o + MAGIC_OFFSET + 4 * r.written, x);
    OpenEnds(sec'.recs, sec.recs, n);
    OpenIsSlot(mem', o, Off(sec'.recs, n + 1), n, r');
    HeaderSame(mem, mem', sec, sec', o + MAGIC_OFFSET + 4 * r.written, x);
    Assemble(mem', sec', n);
  }

  /** Where the last slot starts and ends after its next word. */
  lemma OpenEnds(recs': seq<Rec>, recs: seq<Rec>, n: nat)
    requires n + 1 == |recs| == |recs'| && recs' == recs[n := recs'[n]] && 1 <= recs'[n].written <= Total(recs'[n])
    requires Sized(recs'[n].key, recs'[n].val) && Off(recs, n) + Size(recs'[n]) <= SEC_SIZE
    ensures Off(recs', n) == Off(recs, n) && Off(recs', n) + Inked(recs'[n]) <= Off(recs', n + 1) <= SEC_SIZE
    ensures Off(recs', n) + 24 <= Off(recs', n + 1)
  {
    hide Off, Counted, BodyWords;
    OffSame(recs', recs, n);
    OffStep(recs', n);
    InkBounds(recs'[n].key, recs'[n].val, recs'[n].written);
  }

  lemma SlotsBefore(mem: seq<byte>, mem': seq<byte>, recs: seq<Rec>, recs': seq<Rec>, a: nat, w: seq<byte>)
    requires recs != [] && Slots(mem, recs) && Put(mem, mem', a, w) && Off(recs, |recs| - 1) <= a
    requires |recs'| == |recs| && recs' == recs[|recs| - 1 := recs'[|recs| - 1]]
    ensures forall j :: 0 <= j < |recs'| && j != |recs'| - 1 ==> SlotOf(mem', recs', j)
  {
    hide SlotOf, Put, Slots, Off;
    OtherSlots(mem, mem', recs, recs', |recs| - 1, a, w);
  }

  // ---------------------------------------------------------------- the theorem

  /** No reader came by between the power-on and the first words of a record; one that had would
      have marked the unfinished slot as a bad header. */
  predicate Unpassed(mem: seq<byte>, f: Flash, op: Op)
    requires Can(f, op)
  {
    match op
    case OpBegin(s, _, _, blank) => f[s].recs == [] && !blank ==> |mem| == SEC_SIZE && mem[52] == FF
    case OpWord(s) =>
      var n := |f[s].recs| - 1;
      f[s].recs[n].written < 2 ==> Off(f[s].recs, n) + 20 <= |mem| && mem[Off(f[s].recs, n) + 16] == FF
    case _ => true
  }

  /** Every change but a page erase is one word that the flash takes, because it is erased or
      already holds the word, and the bytes then represent the changed records. */
  lemma WriteOnce(mem: seq<byte>, f: Flash, op: Op)
    requires Can(f, op) && !op.OpErase? && SectorShape(f[SecOf(op)]) && Represents(mem, f[SecOf(op)]) && Unpassed(mem, f, op)
    ensures var p := WordOf(f, op);
            && Takes(mem, p.at, p.word) && FalPort.AllStick(mem, p.at, p.word)
            && Represents(FalPort.Spliced(mem, p.at, p.word), NewSector(f, op))
  {
    var p := WordOf(f, op);
    var sec := f[SecOf(op)];
    InSector(mem, f, op);
    var mem' := FalPort.Spliced(mem, p.at, p.word);
    SplicedPut(mem, p.at, p.word);
    WordTaken(mem, mem', f, op);
    TakenSticks(mem, p.at, p.word);
  }

  /** The bytes of all sectors represent the flash. */
  ghost predicate Pictured(mems: seq<seq<byte>>, f: Flash) {
    |mems| == |f| && forall s {:trigger mems[s]} :: 0 <= s < |f| ==> Represents(mems[s], f[s])
  }

  lemma InSector(mem: seq<byte>, f: Flash, op: Op)
    requires Can(f, op) && !op.OpErase? && SectorShape(f[SecOf(op)]) && Represents(mem, f[SecOf(op)])
    ensures WordOf(f, op).at + 4 <= |mem|
  {
    hide Body, Off, Counted, Slots, Tail, StatusAt, Table3, InkWords, Blank, Solid, Placeable, KvSize;
    match op
    case OpWord(s) => LastSized(f[s]);
    case OpStatus(l, st) => assert SlotReserved(f[l.sec].recs, l.idx);
    case _ =>
  }

  lemma TakenSticks(mem: seq<byte>, a: nat, w: seq<byte>)
    requires Takes(mem, a, w)
    ensures FalPort.AllStick(mem, a, w)
  {
    if ErasedAt(mem, a, a + |w|) {
      FalPort.ErasedTakesAll(mem, a, w);
    } else {
      forall k | 0 <= k < |w| ensures FalPort.Sticks(mem[a + k], w[k]) {
        assert mem[a + k] == mem[a..a + |w|][k];
        SameSticks(w[k]);
      }
    }
  }

  lemma SameSticks(b: byte)
    ensures FalPort.Sticks(b, b)
  {
  }

  lemma WordTaken(mem: seq<byte>, mem': seq<byte>, f: Flash, op: Op)
    requires Can(f, op) && !op.OpErase? && SectorShape(f[SecOf(op)]) && Represents(mem, f[SecOf(op)]) && Unpassed(mem, f, op)
    requires Put(mem, mem', WordOf(f, op).at, WordOf(f, op).word)
    ensures Takes(mem, WordOf(f, op).at, WordOf(f, op).word) && Represents(mem', NewSector(f, op))
  {
    hide Represents, Takes, Put, Body, Reserved, KvSize, Off, Counted, Span, WgAlign, Solid, Placeable, InkWords, Blank;
    var sec := f[SecOf(op)];
    match op
    case OpUsing(_) => PutUsing(mem, mem', sec);
    case OpDirty(_, d) => PutDirty(mem, mem', sec, d);
    case OpBegin(_, key, val, blank) => PutBegin(mem, mem', sec, key, val, blank);
    case OpWord(_) =>
      var n := |sec.recs| - 1;
      LastSized(sec);
      PutWord(mem, mem', sec, n, Off(sec.recs, n), sec.recs[n], WordOf(f, op).word);
    case OpStatus(l, st) =>
      assert RecShape(sec.recs[l.idx]);
      PutStatus(mem, mem', sec, l.idx, st);
    case OpHdrStore(_) => PutHeader(mem, mem', sec, 0);
    case OpHdrDirty(_) => PutHeader(mem, mem', sec, 1);
    case OpHdrMagic(_) => PutHeader(mem, mem', sec, 2);
  }

  /** Write bytes of any length as whole words: the last one is filled up with erased bytes. */
  method AlignWrite(fl: FalPort.Flash, at: nat, buf: seq<byte>) returns (ok: bool)
    requires at + WgAlign(|buf|) <= fl.mem.Length && ErasedAt(fl.mem[..], at, at + WgAlign(|buf|))
    modifies fl.mem, fl`log
    ensures ok && fl.mem[..] == FalPort.Spliced(old(fl.mem[..]), at, Padded(buf))
  {
    hide FalPort.Left, FalPort.AllStick, FalPort.Spliced, FalPort.SameOutside, ErasedAt, Padded, Fill;
    ghost var m := fl.mem[..];
    var down := |buf| / 4 * 4;
    var head, rest := buf[..down], buf[down..];
    PaddedParts(buf, down);
    ErasedPart(m, at, at + WgAlign(|buf|), at, head);
    var r := fl.Write(at, head, |head|);
    if rest != [] {
      var word := rest + Fill(4 - |rest|);
      RestErased(m, at, at + WgAlign(|buf|), head);
      ErasedPart(fl.mem[..], at + down, at + WgAlign(|buf|), at + down, word);
      r := fl.Write(at + down, word, 4);
      SplicedTwice(m, at, head, word);
    }
    ok := r >= 0;
  }

  lemma PaddedParts(buf: seq<byte>, down: nat)
    requires down == |buf| / 4 * 4
    ensures if down == |buf| then Padded(buf) == buf[..down] && WgAlign(|buf|) == down && buf[down..] == []
            else Padded(buf) == buf[..down] + (buf[down..] + Fill(4 - |buf[down..]|)) && WgAlign(|buf|) == down + 4
  {
  }

  lemma ErasedPart(m: seq<byte>, lo: nat, hi: nat, at: nat, w: seq<byte>)
    requires ErasedAt(m, lo, hi) && lo <= at && at + |w| <= hi
    ensures FalPort.AllStick(m, at, w)
  {
    FalPort.ErasedTakesAll(m, at, w);
  }

  lemma RestErased(m: seq<byte>, at: nat, hi: nat, w: seq<byte>)
    requires ErasedAt(m, at, hi) && at + |w| <= hi
    ensures ErasedAt(FalPort.Spliced(m, at, w), at + |w|, hi)
  {
  }

  lemma SplicedTwice(m: seq<byte>, at: nat, a: seq<byte>, b: seq<byte>)
    requires at + |a| + |b| <= |m|
    ensures FalPort.Spliced(FalPort.Spliced(m, at, a), at + |a|, b) == FalPort.Spliced(m, at, a + b)
  {
  }
}
