/** The bytes of the whole partition along a run: every change of the records is one page erase, or
    one word programmed that the flash takes. */
module KvTape {
  import opened Numbers
  import opened KvRecord
  import opened KvFlash
  import opened KvDisk
  import opened KvLayout
  import opened KvScan
  import opened KvProgram
  import Crc32
  import FalPort

  type Image = seq<seq<byte>>

  // ---------------------------------------------------------------- one change of the bytes

  /** One word is programmed, and the flash takes it. */
  ghost predicate WordChange(m: seq<byte>, m': seq<byte>) {
    exists at: nat, w: seq<byte> {:trigger FalPort.Spliced(m, at, w)} ::
      |w| == 4 && at + 4 <= |m| && FalPort.AllStick(m, at, w) && m' == FalPort.Spliced(m, at, w)
  }

  ghost predicate PageChange(a: Image, b: Image, s: nat) {
    && s < |a| == |b| && (forall t :: 0 <= t < |a| && t != s ==> b[t] == a[t])
    && (b[s] == Fill(SEC_SIZE) || WordChange(a[s], b[s]))
  }

  /** One page is erased, or one word is programmed that the flash takes. */
  ghost predicate OneChange(a: Image, b: Image) { exists s: nat :: PageChange(a, b, s) }

  // ---------------------------------------------------------------- the tape

  ghost predicate TapeStep(trail: seq<Image>, log: seq<Flash>, i: int) {
    0 <= i < |log| && i + 1 < |trail| && Pictured(trail[i + 1], log[i]) && OneChange(trail[i], trail[i + 1])
  }

  /** `trail` holds the bytes before the first change and after each one of `log`. */
  ghost predicate Taped(trail: seq<Image>, log: seq<Flash>, f: Flash) {
    && |trail| == |log| + 1 && Pictured(trail[|log|], f)
    && forall i {:trigger TapeStep(trail, log, i)} :: 0 <= i < |log| ==> TapeStep(trail, log, i)
  }

  /** The bytes after a change. */
  function Wrote(mems: Image, f: Flash, op: Op): (mems': Image)
    requires Can(f, op) && |mems| == |f| && Shape(f)
    requires !op.OpErase? ==> Represents(mems[SecOf(op)], f[SecOf(op)])
    ensures |mems'| == |mems|
  {
    var s := SecOf(op);
    if op.OpErase? then mems[s := Fill(SEC_SIZE)]
    else
      assert SectorShape(f[s]);
      InSector(mems[s], f, op);
      var p := WordOf(f, op);
      mems[s := FalPort.Spliced(mems[s], p.at, p.word)]
  }

  lemma TapeNext(trail: seq<Image>, log: seq<Flash>, f: Flash, op: Op)
    requires Taped(trail, log, f) && Shape(f) && Can(f, op) && Unpassed(trail[|log|][SecOf(op)], f, op)
    ensures Represents(trail[|log|][SecOf(op)], f[SecOf(op)])
    ensures Taped(trail + [Wrote(trail[|log|], f, op)], log + [Apply(f, op)], Apply(f, op))
  {
    hide Represents, Unpassed, WordOf, Apply;
    var s, mems := SecOf(op), trail[|log|];
    WroteIs(mems, f, op);
    var mems' := Wrote(mems, f, op);
    var trail', log' := trail + [mems'], log + [Apply(f, op)];
    forall i | 0 <= i < |log'| ensures TapeStep(trail', log', i) {
      if i < |log| { assert TapeStep(trail, log, i); }
    }
  }

  lemma WroteIs(mems: Image, f: Flash, op: Op)
    requires Pictured(mems, f) && Shape(f) && Can(f, op) && Unpassed(mems[SecOf(op)], f, op)
    ensures Represents(mems[SecOf(op)], f[SecOf(op)])
    ensures Pictured(Wrote(mems, f, op), Apply(f, op)) && OneChange(mems, Wrote(mems, f, op))
  {
    hide Represents, Unpassed, WordOf;
    var s, mems' := SecOf(op), Wrote(mems, f, op);
    assert SectorShape(f[s]);
    if op.OpErase? {
      Erased(Fill(SEC_SIZE));
    } else {
      WriteOnce(mems[s], f, op);
      var p := WordOf(f, op);
      assert mems'[s] == FalPort.Spliced(mems[s], p.at, p.word);
    }
    assert PageChange(mems, mems', s);
  }

  // ---------------------------------------------------------------- no reader comes between the first words of a record

  /** No reader has marked the last slot of the sector as a bad header. */
  predicate Untouched(mem: seq<byte>, sec: Sector) {
    && |mem| == SEC_SIZE
    && if sec.recs == [] then mem[52] == FF
       else
         var n := |sec.recs| - 1;
         sec.recs[n].status == PreWrite && sec.recs[n].written < 2 ==> Off(sec.recs, n) + 20 <= |mem| && mem[Off(sec.recs, n) + 16] == FF
  }

  lemma UntouchedGoes(mem: seq<byte>, f: Flash, op: Op)
    requires op.OpBegin? || op.OpWord?
    requires Can(f, op) && (op.OpWord? || (f[op.s].recs == [] && !op.blank) ==> Untouched(mem, f[SecOf(op)]))
    ensures Unpassed(mem, f, op)
  {
  }

  /** A sector just taken into use. */
  lemma UntouchedUsing(mem: seq<byte>, mem': seq<byte>, sec: Sector)
    requires Represents(mem, sec) && SectorShape(sec) && sec.ok && sec.store == Empty && Put(mem, mem', 4, MARK)
    ensures Untouched(mem', sec.(store := Using))
  {
    hide StatusAt, Slots, Table3;
  }

  /** A record just begun: what is behind its mark is erased. */
  lemma UntouchedBegin(mem: seq<byte>, mem': seq<byte>, sec: Sector, key: Key, val: Val, blank: bool)
    requires Represents(mem, sec) && sec.store == Using && (blank ==> sec.recs == []) && |mem| == SEC_SIZE
    requires sec.recs == [] && !blank ==> mem[52] == FF
    requires Start(sec, blank) + 20 <= SEC_SIZE && Put(mem, mem', Start(sec, blank), MARK)
    ensures Untouched(mem', sec.(recs := Begun(sec, key, val, blank)))
  {
    hide StatusAt, Slots, Table3, HeaderBytes;
    var recs := Begun(sec, key, val, blank);
    var n := |recs| - 1;
    BlankReserved();
    OffAppend(Before(sec, blank), recs[n], n);
    assert recs == Before(sec, blank) + [recs[n]];
    assert Off(recs, n) == Start(sec, blank);
  }

  lemma UntouchedWord(mem: seq<byte>, mem': seq<byte>, sec: Sector, x: seq<byte>)
    requires Untouched(mem, sec) && sec.recs != []
    requires var n := |sec.recs| - 1; sec.recs[n].status == PreWrite && Put(mem, mem', Off(sec.recs, n) + MAGIC_OFFSET + 4 * sec.recs[n].written, x)
    ensures var n := |sec.recs| - 1; var r := sec.recs[n];
            Untouched(mem', sec.(recs := sec.recs[n := r.(written := r.written + 1)]))
  {
    hide Off, Counted;
    var n := |sec.recs| - 1;
    var r := sec.recs[n];
    OffSame(sec.recs[n := r.(written := r.written + 1)], sec.recs, n);
  }

  /** The changes that open a record, one after the other, keep its slot untouched. */
  lemma UntouchedAfter(mems: Image, f: Flash, op: Op)
    requires Shape(f) && |mems| == |f| && Can(f, op) && Represents(mems[SecOf(op)], f[SecOf(op)])
    requires match op
             case OpUsing(_) => true
             case OpBegin(s, _, _, blank) => f[s].recs == [] && !blank ==> Untouched(mems[s], f[s])
             case OpWord(s) => Untouched(mems[s], f[s])
             case _ => false
    ensures Untouched(Wrote(mems, f, op)[SecOf(op)], Apply(f, op)[SecOf(op)])
  {
    hide Represents, Untouched;
    var s := SecOf(op);
    assert SectorShape(f[s]);
    InSector(mems[s], f, op);
    var p := WordOf(f, op);
    SplicedPut(mems[s], p.at, p.word);
    PutUntouched(mems[s], FalPort.Spliced(mems[s], p.at, p.word), f, op);
  }

  lemma PutUntouched(mem: seq<byte>, mem': seq<byte>, f: Flash, op: Op)
    requires Can(f, op) && SectorShape(f[SecOf(op)]) && Represents(mem, f[SecOf(op)])
    requires match op
             case OpUsing(_) => true
             case OpBegin(s, _, _, blank) => f[s].recs == [] && !blank ==> Untouched(mem, f[s])
             case OpWord(s) => Untouched(mem, f[s])
             case _ => false
    requires Put(mem, mem', WordOf(f, op).at, WordOf(f, op).word)
    ensures Untouched(mem', NewSector(f, op))
  {
    hide Put, Off, Counted, Body, Slots, Tail, StatusAt, Table3, Reserved, KvSize;
    match op
    case OpUsing(s) => UntouchedUsing(mem, mem', f[s]);
    case OpBegin(s, key, val, blank) => UntouchedBegin(mem, mem', f[s], key, val, blank);
    case OpWord(s) => UntouchedWord(mem, mem', f[s], WordOf(f, op).word);
  }

  /** A reader that meets a slot without a length word marks it as a bad header: the flash takes the
      mark, and the bytes represent the same records as before. */
  lemma PassedKeeps(mem: seq<byte>, mem': seq<byte>, sec: Sector, j: nat)
    requires Represents(mem, sec) && SectorShape(sec) && j < |sec.recs| && Visible(j, sec.recs[j]) && sec.recs[j].written < 2
    requires Put(mem, mem', Off(sec.recs, j) + 16, MARK)
    ensures Takes(mem, Off(sec.recs, j) + 16, MARK) && Represents(mem', sec)
  {
    hide StatusAt, Body, Off, Counted, BodyWords, InkWords, HeaderBytes, SectorShape;
    var recs := sec.recs;
    var o, end, r := Off(recs, j), Off(recs, j + 1), recs[j];
    assert SlotOf(mem, recs, j);
    OffMono(recs, j + 1, |recs|);
    OtherSlots(mem, mem', recs, recs, j, o + 16, MARK);
    assert mem'[o + MAGIC_OFFSET..Kept(o, end, r.written)] == mem[o + MAGIC_OFFSET..Kept(o, end, r.written)];
    if mem[o + 16] == WRITTEN { MarkedWord(mem, o + 16); }
    HeaderSame(mem, mem', sec, sec, o + 16, MARK);
    Assemble(mem', sec, j);
  }

  // ---------------------------------------------------------------- what a lookup through the cache compares

  /** The bytes behind a record's header, where the cache compares a key, are its name and value,
      then the first byte of the next slot, or erased flash. Keys hold no zero byte. */
  lemma ShownIs(mem: seq<byte>, sec: Sector, j: nat, key: Key)
    requires Represents(mem, sec) && SectorShape(sec) && j < |sec.recs| && Complete(sec.recs[j])
    requires |key| <= KV_NAME_MAX && forall k :: 0 <= k < |key| ==> key[k] != 0
    ensures var at := Off(sec.recs, j) + KV_HDR_SIZE;
            at + |key| <= |mem| && (mem[at..at + |key|] == key <==> key <= Shown(sec.recs, j))
  {
    hide StatusAt, Body, Off, Counted, BodyWords, InkWords, SectorShape, NameArea, Represents, Size;
    var recs := sec.recs;
    var at, a := Off(recs, j) + KV_HDR_SIZE, NameArea(recs[j]);
    AreaAt(mem, sec, j);
    if |key| <= |a| {
      assert mem[at..at + |key|] == mem[at..at + |a|][..|key|];
      assert key <= Shown(recs, j) <==> key == a[..|key|];
    } else if j + 1 < |recs| {
      NextMark(mem, sec, j + 1);
      assert mem[at + |a|] == mem[at + |a|..at + |a| + 4][0] == MARK[0] == 0;
      MarkDiffers(mem, at, a, key);
    } else {
      LastErased(mem, sec);
      FillAgrees(mem, at, a, key);
    }
  }

  /** A finished record's name and value stand behind its header, up to the next slot. */
  lemma AreaAt(mem: seq<byte>, sec: Sector, j: nat)
    requires Represents(mem, sec) && SectorShape(sec) && j < |sec.recs| && Complete(sec.recs[j])
    ensures var at, a := Off(sec.recs, j) + KV_HDR_SIZE, NameArea(sec.recs[j]);
            && at + |a| == Off(sec.recs, j + 1) && at + |a| + KV_NAME_MAX <= |mem| && mem[at..at + |a|] == a
  {
    hide StatusAt, Body, Off, Counted, InkWords, NameArea, Table3, Table5;
    var o, r := Off(sec.recs, j), sec.recs[j];
    SlotFits(sec, j);
    assert SlotOf(mem, sec.recs, j) && SlotReserved(sec.recs, j);
    WholeStep(sec.recs, j);
    AreaShows(mem, o, r);
  }

  lemma AreaShows(mem: seq<byte>, o: nat, r: Rec)
    requires Sized(r.key, r.val) && o + Size(r) <= |mem| && mem[o + MAGIC_OFFSET..o + Size(r)] == Body(r.key, r.val)
    ensures |NameArea(r)| == Size(r) - KV_HDR_SIZE && mem[o + KV_HDR_SIZE..o + Size(r)] == NameArea(r)
  {
    hide Body, NameArea;
    var b := Body(r.key, r.val);
    AreaInBody(r);
    Part(mem, o + MAGIC_OFFSET, b, 20, |b|);
  }

  lemma AreaInBody(r: Rec)
    requires Sized(r.key, r.val)
    ensures |NameArea(r)| == Size(r) - KV_HDR_SIZE
    ensures |Body(r.key, r.val)| >= 20 && Body(r.key, r.val)[20..] == NameArea(r)
  {
    hide Le, CrcBytes, Crc32.Crc, Digit, Padded, WordsFor;
    var c, head := Checked(r.key, r.val), [Digit(|r.key|), FF, FF, FF] + Le(|r.val|);
    assert c == head + NameArea(r);
    assert Body(r.key, r.val) == (MAGIC + Le(KvSize(r.key, r.val)) + CrcBytes(Crc32.Crc(0, c)) + head) + NameArea(r);
  }

  lemma LastErased(mem: seq<byte>, sec: Sector)
    requires Represents(mem, sec) && sec.recs != []
    ensures forall k :: Off(sec.recs, |sec.recs|) <= k < |mem| ==> mem[k] == FF
  {
    hide Slots, StatusAt, Off;
  }

  lemma MarkDiffers(mem: seq<byte>, at: nat, a: seq<byte>, key: Key)
    requires |a| < |key| && at + |key| <= |mem| && mem[at + |a|] == 0 && key[|a|] != 0
    ensures mem[at..at + |key|] != key && !(key <= a + [0x00])
  {
    assert mem[at..at + |key|][|a|] == 0;
  }

  lemma FillAgrees(mem: seq<byte>, at: nat, a: seq<byte>, key: Key)
    requires |a| < |key| <= |a| + KV_NAME_MAX && at + |key| <= |mem| && mem[at..at + |a|] == a
    requires forall k :: at + |a| <= k < |mem| ==> mem[k] == FF
    ensures mem[at..at + |key|] == key <==> key <= a + Fill(KV_NAME_MAX)
  {
    assert mem[at..at + |key|] == a + Fill(|key| - |a|);
    assert (a + Fill(KV_NAME_MAX))[..|key|] == a + Fill(|key| - |a|);
  }
}
