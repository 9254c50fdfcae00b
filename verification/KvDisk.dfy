/** Facts about the flash that the database operations share. */
module KvDisk {
  import opened KvRecord
  import opened KvFlash
  import SectorCache

  // ---------------------------------------------------------------- the ring of sectors

  /** The `i`-th sector visited by a walk that starts at sector `o`. */
  function RingAt(o: nat, i: nat): (s: nat)
    requires o < SECTOR_NUM && i < SECTOR_NUM
    ensures s < SECTOR_NUM && RingIndex(o, s) == i
  {
    if o + i < SECTOR_NUM then o + i else o + i - SECTOR_NUM
  }

  /** When a walk from `o` visits `s`. */
  function RingIndex(o: nat, s: nat): (i: nat)
    requires o < SECTOR_NUM && s < SECTOR_NUM
    ensures i < SECTOR_NUM
  {
    if s >= o then s - o else s + SECTOR_NUM - o
  }

  /** A walk steps to the next sector in address order, and from the last one to the first. */
  lemma RingSteps(o: nat, i: nat)
    requires o < 63 && i < 62
    ensures RingAt(o, 0) == o && RingAt(o, i + 1) == if RingAt(o, i) == 62 then 0 else RingAt(o, i) + 1
  {
  }

  /** A walk of the whole ring visits every sector. */
  lemma RingCovers(o: nat, s: nat)
    requires o < SECTOR_NUM && s < SECTOR_NUM
    ensures RingAt(o, RingIndex(o, s)) == s
  {
  }

  /** A walk from `o` meets slot `a` before slot `b`. */
  predicate Ahead(o: nat, a: Loc, b: Loc) {
    && o < SECTOR_NUM && a.sec < SECTOR_NUM && b.sec < SECTOR_NUM
    && (RingIndex(o, a.sec) < RingIndex(o, b.sec) || (a.sec == b.sec && a.idx < b.idx))
  }

  // ---------------------------------------------------------------- space

  predicate IsEmpty(sec: Sector) { sec.ok && sec.store == Empty }

  ghost function EmptySet(f: Flash): set<nat> {
    set s: nat | s < |f| && IsEmpty(f[s])
  }

  ghost predicate HasEmpty(f: Flash) { exists s: nat :: s < |f| && IsEmpty(f[s]) }

  /** A sector may take a record of `size` bytes; dirty sectors only outside a collection. */
  predicate CanHold(sec: Sector, size: nat, gc: bool) {
    && sec.ok && SEC_SIZE - End(sec) > size + REMAIN_THRESHOLD
    && (sec.dirty == Clean || (sec.dirty == DirtyTrue && !gc))
  }

  /** No sector with store status `store` can hold `size` bytes. */
  ghost predicate NoRoom(f: Flash, store: Store, size: nat, gc: bool) {
    forall s: nat :: s < |f| && f[s].ok && f[s].store == store ==> !CanHold(f[s], size, gc)
  }

  /** The sectors a walk from `o` has visited after `i` steps. */
  ghost function Visited(o: nat, i: nat): set<nat>
    requires o < SECTOR_NUM
  {
    set s: nat | s < SECTOR_NUM && RingIndex(o, s) < i
  }

  lemma VisitEnds(f: Flash, o: nat)
    requires |f| == SECTOR_NUM && o < SECTOR_NUM
    ensures |EmptySet(f) * Visited(o, 0)| == 0
    ensures EmptySet(f) * Visited(o, SECTOR_NUM) == EmptySet(f)
  {
    assert EmptySet(f) * Visited(o, 0) == {};
  }

  lemma VisitNext(f: Flash, o: nat, i: nat)
    requires |f| == SECTOR_NUM && o < SECTOR_NUM && i < SECTOR_NUM
    ensures |EmptySet(f) * Visited(o, i + 1)|
         == |EmptySet(f) * Visited(o, i)| + if IsEmpty(f[RingAt(o, i)]) then 1 else 0
  {
    var s := RingAt(o, i);
    forall x: nat | x < SECTOR_NUM && RingIndex(o, x) == i ensures x == s { RingCovers(o, x); }
    assert Visited(o, i + 1) == Visited(o, i) + {s} && s !in Visited(o, i);
    assert EmptySet(f) * Visited(o, i + 1)
        == if IsEmpty(f[s]) then EmptySet(f) * Visited(o, i) + {s} else EmptySet(f) * Visited(o, i);
  }

  lemma TwoEmpty(f: Flash, s: nat)
    requires |EmptySet(f)| >= 2
    ensures exists e: nat :: e < |f| && IsEmpty(f[e]) && e != s
  {
    if forall e: nat :: e < |f| && IsEmpty(f[e]) ==> e == s {
      assert EmptySet(f) <= {s};
      SubsetSize(EmptySet(f), {s});
    }
  }

  lemma {:induction false} SubsetSize<T>(a: set<T>, b: set<T>)
    requires a <= b
    ensures |a| <= |b|
  {
    if a != {} {
      var x :| x in a;
      SubsetSize(a - {x}, b - {x});
    }
  }

  lemma SomeEmpty(f: Flash)
    ensures HasEmpty(f) <==> |EmptySet(f)| >= 1
  {
    if s: nat :| s < |f| && IsEmpty(f[s]) {
      assert s in EmptySet(f);
    }
    if |EmptySet(f)| >= 1 {
      var s :| s in EmptySet(f);
    }
  }

  // ---------------------------------------------------------------- offsets after a change

  lemma EndStatus(sec: Sector, j: nat, st: Status)
    requires j < |sec.recs|
    ensures End(sec.(recs := sec.recs[j := sec.recs[j].(status := st)])) == End(sec)
  {
    OffSame(sec.recs[j := sec.recs[j].(status := st)], sec.recs, |sec.recs|);
  }

  /** A USING sector that lost its first record before the first word. */
  predicate IsBlank(sec: Sector) { sec.store == Using && sec.recs == [] }

  /** Sector `sec` with the record `r` appended. */
  function Extended(sec: Sector, r: Rec): Sector {
    sec.(store := Using, recs := Before(sec, IsBlank(sec)) + [r])
  }

  /** A finished record starts where the free space did, and ends its full size later. */
  lemma EndExtended(sec: Sector, r: Rec)
    requires SectorShape(sec) && sec.ok && Complete(r) && Placeable(sec.recs, r.key, r.val)
    ensures End(Extended(sec, r)) == End(sec) + Size(r)
    ensures !Lags(sec.recs) ==> !Lags(Extended(sec, r).recs)
  {
    hide RecShape, SlotReserved, Reserved;
    BlankReserved();
    var pre := Before(sec, IsBlank(sec));
    var n := |pre|;
    OffAppend(pre, r, n);
    OffStep(pre + [r], n);
    if Lags(pre) { InkBounds(r.key, r.val, r.written); }
  }

  /** `f` with the record `r` appended to sector `s`. */
  function WithRec(f: Flash, s: nat, r: Rec): Flash
    requires s < |f|
  {
    f[s := Extended(f[s], r)]
  }

  /** The last record of sector `s` with `n` more words. */
  function Advanced(f: Flash, s: nat, n: nat): Flash
    requires s < |f| && f[s].recs != []
  {
    var last := |f[s].recs| - 1;
    f[s := f[s].(recs := f[s].recs[last := f[s].recs[last].(written := f[s].recs[last].written + n)])]
  }

  lemma AdvancedZero(f: Flash, s: nat)
    requires s < |f| && f[s].recs != []
    ensures Advanced(f, s, 0) == f
  {
    assert Advanced(f, s, 0)[s].recs == f[s].recs;
  }

  lemma AdvancedNext(f: Flash, s: nat, n: nat)
    requires s < |f| && f[s].recs != [] && Can(Advanced(f, s, n), OpWord(s))
    ensures Apply(Advanced(f, s, n), OpWord(s)) == Advanced(f, s, n + 1)
  {
    assert Apply(Advanced(f, s, n), OpWord(s))[s].recs == Advanced(f, s, n + 1)[s].recs;
  }

  /** Marking a sector USING, opening a record in it and programming `n` words appends it. */
  lemma WithRecWritten(f: Flash, s: nat, key: Key, val: Val, n: nat)
    requires s < |f|
    requires Can(f[s := f[s].(store := Using)], OpBegin(s, key, val, IsBlank(f[s])))
    ensures var f' := Apply(f[s := f[s].(store := Using)], OpBegin(s, key, val, IsBlank(f[s])));
      Advanced(f', s, n) == WithRec(f, s, Rec(PreWrite, key, val, n))
  {
    var f' := Apply(f[s := f[s].(store := Using)], OpBegin(s, key, val, IsBlank(f[s])));
    assert Advanced(f', s, n)[s].recs == WithRec(f, s, Rec(PreWrite, key, val, n))[s].recs;
    assert Advanced(f', s, n)[s] == WithRec(f, s, Rec(PreWrite, key, val, n))[s];
  }

  /** The finished record. */
  function Written(key: Key, val: Val): Rec {
    Rec(Write, key, val, Total(Rec(Write, key, val, 0)))
  }

  /** The last slot of sector `s`. */
  function EndOf(f: Flash, s: nat): Loc
    requires s < |f| && f[s].recs != []
  {
    Loc(s, |f[s].recs| - 1)
  }

  lemma WithRecAdvanced(f: Flash, s: nat, key: Key, val: Val, n: nat, m: nat)
    requires s < |f|
    ensures Advanced(WithRec(f, s, Rec(PreWrite, key, val, n)), s, m) == WithRec(f, s, Rec(PreWrite, key, val, n + m))
  {
    var a, b := Advanced(WithRec(f, s, Rec(PreWrite, key, val, n)), s, m), WithRec(f, s, Rec(PreWrite, key, val, n + m));
    assert a[s].recs == b[s].recs;
  }

  lemma WithRecCommitted(f: Flash, s: nat, key: Key, val: Val)
    requires s < |f|
    ensures var r := Written(key, val).(status := PreWrite); var f' := WithRec(f, s, r);
      SetStatus(f', EndOf(f', s), Write) == WithRec(f, s, Written(key, val))
  {
    var f' := WithRec(f, s, Written(key, val).(status := PreWrite));
    assert SetStatus(f', EndOf(f', s), Write)[s].recs == WithRec(f, s, Written(key, val))[s].recs;
  }

  /** Appending a record moves no other record. */
  lemma WithRecKeeps(f: Flash, s: nat, r: Rec)
    requires s < |f|
    ensures forall l :: In(f, l) ==> In(WithRec(f, s, r), l) && Get(WithRec(f, s, r), l) == Get(f, l)
    ensures forall l, st {:trigger Is(f, l, st)} :: Is(f, l, st) ==> Is(WithRec(f, s, r), l, st)
  {
  }

  // ---------------------------------------------------------------- unfinished slots, spare sectors

  /** A slot that was cut off while its record was being written, and that a reader can see. */
  predicate TornAt(f: Flash, l: Loc) { Is(f, l, PreWrite) && Get(f, l).written >= 2 }

  ghost predicate NoTorn(f: Flash) { forall l :: !TornAt(f, l) }

  /** Nothing is left unfinished in `f'` that was not in `f`. */
  ghost predicate TornKept(f: Flash, f': Flash) {
    forall l {:trigger TornAt(f', l)} :: TornAt(f', l) ==> TornAt(f, l)
  }

  /** The unfinished slots of `f` and `f'` are the same. */
  ghost predicate TornSame(f: Flash, f': Flash) {
    TornKept(f, f') && TornKept(f', f)
  }

  /** One slot of `f` that was unfinished has been given up in `f'`, and there is no new one. */
  ghost predicate TornLess(f: Flash, f': Flash) {
    TornKept(f, f') && exists l :: TornAt(f, l) && !TornAt(f', l)
  }

  /** A sector that is EMPTY, or that the next boot will format. */
  ghost predicate HasSpare(f: Flash) {
    exists s: nat :: s < |f| && (!f[s].ok || IsEmpty(f[s]))
  }

  // ---------------------------------------------------------------- the bytes behind a record's header

  function NameArea(r: Rec): seq<byte> { Padded(r.key) + Padded(r.val) }

  /** What follows a record's header: its name and value, then the mark of the next slot, or erased
      flash. */
  function Shown(recs: seq<Rec>, j: nat): seq<byte>
    requires j < |recs|
  {
    NameArea(recs[j]) + if j + 1 < |recs| then [0x00] else Fill(KV_NAME_MAX)
  }

  // ---------------------------------------------------------------- the sector cache across changes

  lemma AgreesRecs(t: seq<SectorCache.SecSlot>, f: Flash, f': Flash, gc: int, x: nat)
    requires SectorCache.Agrees(t, f, gc, x)
    requires x < |f| == |f'| && f' == f[x := f[x].(recs := f'[x].recs)]
    ensures SectorCache.Agrees(t, f', gc, x)
  {
  }

  lemma AgreesStatus(t: seq<SectorCache.SecSlot>, f: Flash, l: Loc, st: Status, gc: int, except: int)
    requires SectorCache.Agrees(t, f, gc, except) && In(f, l)
    ensures SectorCache.Agrees(t, SetStatus(f, l, st), gc, except)
  {
    EndStatus(f[l.sec], l.idx, st);
  }

  lemma AgreesGone(t: seq<SectorCache.SecSlot>, f: Flash, f': Flash, s: nat, gc: int)
    requires SectorCache.Agrees(t, f, gc, -1) && SectorCache.Absent(t, s)
    requires s < |f| == |f'| && forall x :: 0 <= x < |f| && x != s ==> f'[x] == f[x]
    requires gc == -1 || gc == s
    ensures SectorCache.Agrees(t, f', -1, -1)
  {
  }

  lemma AgreesCollect(t: seq<SectorCache.SecSlot>, f: Flash, s: nat)
    requires SectorCache.Agrees(t, f, -1, -1) && s < |f| && (f[s].dirty == DirtyTrue || f[s].dirty == DirtyGc)
    ensures SectorCache.Agrees(t, f[s := f[s].(dirty := DirtyGc)], s, -1)
  {
  }
}
