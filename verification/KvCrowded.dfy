/** Boots over a partition in which only the sector kept for collecting is EMPTY: one that does not end, and one
    whose collection leaves two PRE_DELETE records of a key for a while. */
module KvCrowded {
  import opened KvRecord
  import opened KvFlash
  import opened KvDisk
  import opened KvScan
  import opened KvProgram
  import opened KvTape
  import opened KvCrash
  import opened KvMoves
  import opened KvLookup
  import opened KvWalk
  import opened KvBoot
  import Kvdb

  /** A value that leaves room for a small record only. */
  const BIG: Val := Ones(1800)

  const SMALL: Val := [0x32]
  const B: Key := [0x62]

  const ONE: byte := 0x31

  function Ones(n: nat): seq<byte> { seq(n, _ => ONE) }

  /** The key in sector `s`. */
  function KeyAt(s: nat): Key { Ones(s) }

  /** A finished record with the status `st`. */
  function Stored(key: Key, st: Status): Rec { Written(key, BIG).(status := st) }

  function Filled(s: nat): Sector { Sector(true, Using, Clean, [Stored(KeyAt(s), Write)]) }

  /** Sectors 0 and 1 as given, sets of distinct keys with big values, and an EMPTY sector. */
  function Crowded(a: Sector, b: Sector): (f: Flash)
    ensures |f| == SECTOR_NUM && f[0] == a && f[1] == b && f[62] == Sector(true, Empty, Clean, [])
    ensures forall s :: 2 <= s < 62 ==> f[s] == Filled(s)
  {
    [a, b] + seq(60, i requires 0 <= i < 60 => Filled(i + 2)) + [Sector(true, Empty, Clean, [])]
  }

  /** The WRITE records of the sectors between. */
  function FilledIndex(): (w: map<Key, Loc>)
    ensures forall k :: k in w <==> 2 <= |k| < 62 && k == KeyAt(|k|)
    ensures forall k :: k in w ==> w[k] == Loc(|k|, 0)
  {
    map k | k in FilledKeys() :: Loc(|k|, 0)
  }

  function FilledKeys(): set<Key> { set s: nat | 2 <= s < 62 :: KeyAt(s) }

  lemma BigSolid(key: Key, st: Status)
    requires |key| < KV_NAME_MAX
    ensures Solid(key, BIG)
    ensures var r := Stored(key, st); Size(r) == 1840 + WgAlign(|key|) && Complete(r) && Size(r) <= 1904
  {
    hide Solid;
    SolidIff(key, BIG);
    assert BIG[1799] != FF;
    KeyAligned(|key|);
  }

  lemma KeyAligned(n: nat)
    requires n < KV_NAME_MAX
    ensures WgAlign(n) <= 64
  {
  }

  /** One big record fills a sector. */
  lemma OneRec(sec: Sector, key: Key, st: Status)
    requires |key| < KV_NAME_MAX && (st == Write || st == PreDelete) && sec.dirty != DirtyUnused
    requires sec == Sector(true, Using, sec.dirty, [Stored(key, st)])
    ensures SectorShape(sec) && 1876 <= End(sec) && !Lags(sec.recs)
  {
    hide Solid, KvSize, BodyWords, WgAlign, InkWords, BIG;
    BigSolid(key, st);
    KvBoot.FirstSlot(sec.recs);
    OneEnd(sec.recs);
  }

  lemma OneEnd(recs: seq<Rec>)
    requires |recs| == 1 && Complete(recs[0])
    ensures Off(recs, 1) == Counted(recs, 1) == SECTOR_HDR_SIZE + Size(recs[0])
  {
    OffStep(recs, 0);
    assert Off(recs, 0) == Counted(recs, 0) == SECTOR_HDR_SIZE;
  }

  lemma CrowdedShape(a: Sector, b: Sector)
    requires SectorShape(a) && SectorShape(b)
    ensures Shape(Crowded(a, b))
  {
    hide SectorShape;
    var f := Crowded(a, b);
    forall s | 0 <= s < |f| ensures SectorShape(f[s]) {
      if 2 <= s < 62 { OneRec(f[s], KeyAt(s), Write); } else if s == 62 { EmptyShape(); }
    }
  }

  lemma EmptyShape()
    ensures SectorShape(Sector(true, Empty, Clean, []))
  {
  }

  /** There is no room for another big record. */
  lemma CrowdedFull(a: Sector, b: Sector, size: nat)
    requires a.ok && a.store == Using && End(a) >= 1876 && b.ok && b.store == Using && End(b) >= 1876 && size >= 100
    ensures !TakesRoom(Crowded(a, b), size) && SpareSet(Crowded(a, b)) == {62} && HasSpare(Crowded(a, b))
  {
    hide End, Filled;
    var f := Crowded(a, b);
    forall s: nat | s < |f| && f[s].ok && f[s].store == Using ensures !CanHold(f[s], size, false) {
      if s >= 2 && s != 62 { FilledIs(s); }
    }
    forall s: nat | s < |f| ensures !f[s].ok || IsEmpty(f[s]) <==> s == 62 {
      if s >= 2 && s != 62 { FilledIs(s); }
    }
    assert !f[62].ok || IsEmpty(f[62]);
    assert SpareSet(f) == {62};
  }

  lemma FilledIs(s: nat)
    requires s < 62
    ensures var sec := Filled(s); sec.ok && sec.store == Using && End(sec) >= 1876
  {
    OneRec(Filled(s), KeyAt(s), Write);
  }

  /** The records between are WRITE records. */
  lemma CrowdedIs(a: Sector, b: Sector, l: Loc, st: Status)
    requires l.sec >= 2
    ensures Is(Crowded(a, b), l, st) <==> st == Write && l.sec < 62 && l.idx == 0
    ensures In(Crowded(a, b), l) ==> Get(Crowded(a, b), l).key == KeyAt(l.sec) && Get(Crowded(a, b), l).val == BIG && Get(Crowded(a, b), l).status == Write
  {
  }

  /** What the sectors 0 and 1 hold besides gives the indexes and the map. */
  lemma CrowdedIndexed(a: Sector, b: Sector, w: map<Key, Loc>, p: map<Key, Loc>)
    requires Indexed([a, b], w, p) && (forall k :: k in w || k in p ==> |k| == 1)
    ensures Indexed(Crowded(a, b), w + FilledIndex(), p)
  {
    var f, ww := Crowded(a, b), w + FilledIndex();
    forall l: Loc, st | l.sec < 2 ensures Is(f, l, st) <==> Is([a, b], l, st) ensures In(f, l) ==> Get(f, l) == Get([a, b], l) {}
    forall l | Is(f, l, Write) ensures Get(f, l).key in ww && ww[Get(f, l).key] == l {
      if l.sec >= 2 { CrowdedIs(a, b, l, Write); }
    }
    forall l | Is(f, l, PreDelete) ensures Get(f, l).key in p && p[Get(f, l).key] == l {
      if l.sec >= 2 { CrowdedIs(a, b, l, PreDelete); }
    }
    forall k | k in ww ensures Is(f, ww[k], Write) && Get(f, ww[k]).key == k {
      if k in FilledIndex() { CrowdedIs(a, b, Loc(|k|, 0), Write); } else { assert Is([a, b], w[k], Write); }
    }
    forall k | k in p ensures Is(f, p[k], PreDelete) && Get(f, p[k]).key == k { assert Is([a, b], p[k], PreDelete); }
  }

  lemma CrowdedBootable(a: Sector, b: Sector, w: map<Key, Loc>, p: map<Key, Loc>)
    requires SectorShape(a) && SectorShape(b) && Indexed([a, b], w, p) && (forall k :: k in w || k in p ==> |k| == 1) && |p| == 1
    requires SolidLive([a, b]) && a.dirty != DirtyGc && b.dirty != DirtyGc
    ensures var f := Crowded(a, b);
      Shape(f) && NoGcMark(f) && Lone(f) && Indexed(f, w + FilledIndex(), p) && Bootable(f, Recoverable(f), true)
  {
    hide SolidLive, Shape, Recoverable, Index, Lone, NoGcMark, Lagless, Crowded;
    var f, ww := Crowded(a, b), w + FilledIndex();
    CrowdedMarks(a, b);
    CrowdedShape(a, b);
    CrowdedIndexed(a, b, w, p);
    LoneIs(f, ww, p);
    CrowdedSolid(a, b);
    assert Indexed(f, ww, p) && Apart(Care(Resumable, true, false, None), f, ww, p);
  }

  lemma CrowdedMarks(a: Sector, b: Sector)
    requires a.dirty != DirtyGc && b.dirty != DirtyGc
    ensures NoGcMark(Crowded(a, b))
  {
  }

  lemma CrowdedSolid(a: Sector, b: Sector)
    requires SolidLive([a, b])
    ensures SolidLive(Crowded(a, b))
  {
    hide Solid;
    var f := Crowded(a, b);
    forall l, st {:trigger Is(f, l, st)} | (st == Write || st == PreDelete) && Is(f, l, st) ensures Solid(Get(f, l).key, Get(f, l).val) {
      if l.sec < 2 {
        assert Is([a, b], l, st);
      } else {
        CrowdedIs(a, b, l, st);
        BigSolid(KeyAt(l.sec), Write);
      }
    }
  }

  lemma CrowdedClean(a: Sector, b: Sector)
    requires a.dirty == Clean && b.dirty == Clean
    ensures NoneDirty(Crowded(a, b))
  {
  }

  /** No slot was cut off. */
  lemma NoneTorn(a: Sector, b: Sector)
    requires forall j :: 0 <= j < |a.recs| ==> a.recs[j].status != PreWrite
    requires forall j :: 0 <= j < |b.recs| ==> b.recs[j].status != PreWrite
    ensures NoTorn(Crowded(a, b))
  {
    forall l ensures !TornAt(Crowded(a, b), l) {
      if l.sec >= 2 { CrowdedIs(a, b, l, PreWrite); }
    }
  }

  lemma StarvedAt(f: Flash, o: nat, l: Loc)
    requires Is(f, l, PreDelete) && NoTorn(f) && !TakesRoom(f, Size(Get(f, l))) && SpareSet(f) == {62}
    ensures Starved(f, o)
  {
    hide TornAt, TakesRoom, SpareSet, Size;
  }

  /** A boot finds sector 0 to be the oldest. */
  lemma OldestFirst(a: Sector, b: Sector, zeroed: bool, o: nat)
    requires a.store == Using && b.store == Using && OldestIs(Crowded(a, b), zeroed, o)
    ensures o == 0
  {
    var f := Crowded(a, b);
    forall s ensures !Turns(f, s) {}
  }

  // ---------------------------------------------------------------- a boot that does not end

  const MARKED := Sector(true, Using, Clean, [Stored(A, PreDelete)])
  const OTHER := Sector(true, Using, Clean, [Stored(B, Write)])

  /** Power was lost in a set of the key "a" to a small value, between the PRE_DELETE mark of the old record and the
      dirty mark of its sector. */
  const SPINNING: Flash := Crowded(MARKED, OTHER)

  lemma SpinningPair()
    ensures var g := [MARKED, OTHER]; Indexed(g, map[B := Loc(1, 0)], map[A := Loc(0, 0)]) && SolidLive(g)
  {
    hide Solid, BIG, KvSize, BodyWords;
    BigSolid(A, PreDelete);
    BigSolid(B, Write);
    var g: Flash := [MARKED, OTHER];
    forall l, st ensures Is(g, l, st) ==> l == if st == PreDelete then Loc(0, 0) else Loc(1, 0) {}
  }

  lemma SpinningBootable()
    ensures Bootable(SPINNING, Recoverable(SPINNING), true) && NoGcMark(SPINNING) && Lone(SPINNING)
  {
    hide Bootable, Recoverable, Lone, SolidLive, Crowded, SectorShape, NoGcMark, Index, Stored;
    var w, p: map<Key, Loc> := map[B := Loc(1, 0)], map[A := Loc(0, 0)];
    OneRec(MARKED, A, PreDelete);
    OneRec(OTHER, B, Write);
    SpinningPair();
    CrowdedBootable(MARKED, OTHER, w, p);
  }

  /** There is no room to move that record, and nothing to collect. */
  lemma SpinningStarved()
    ensures NoneDirty(SPINNING) && Starved(SPINNING, 0)
  {
    hide Crowded, BIG, KvSize, BodyWords, TakesRoom, SpareSet, End, SectorShape, NoneDirty, NoTorn, Starved;
    OneRec(MARKED, A, PreDelete);
    OneRec(OTHER, B, Write);
    BigSolid(A, PreDelete);
    CrowdedFull(MARKED, OTHER, Size(MARKED.recs[0]));
    CrowdedClean(MARKED, OTHER);
    NoneTorn(MARKED, OTHER);
    StarvedAt(SPINNING, 0, Loc(0, 0));
  }

  /** The boot over it does not end. */
  method SpinningExample(zeroed: bool, ghost mems: Image) returns (db: Kvdb.Kvdb, outcome: Outcome)
    requires Pictured(mems, SPINNING)
    ensures outcome == Spins
  {
    hide Pictured, SPINNING, Bootable, Starved, Lone, NoGcMark, NoneDirty, Recoverable, OldestIs;
    SpinningBootable();
    SpinningStarved();
    ghost var collected, mixed, o, was;
    db, outcome, collected, mixed, o, was := Boot(SPINNING, zeroed, Recoverable(SPINNING), mems, true);
    SpinningOldest(zeroed, o);
  }

  lemma SpinningOldest(zeroed: bool, o: nat)
    requires OldestIs(SPINNING, zeroed, o)
    ensures o == 0
  {
    OldestFirst(MARKED, OTHER, zeroed, o);
  }

  // ---------------------------------------------------------------- a collection that meets the replacement first

  const FRONT := Sector(true, Using, DirtyTrue, [Stored(B, Deleted), Written(A, SMALL)])
  const OLD := Sector(true, Using, DirtyTrue, [Stored(A, PreDelete)])

  /** Power was lost in a set of the key "a" to a small value, before the DELETED mark of the old record. The new one
      stands behind a record deleted before, in a sector that a collection comes to first. */
  const TWINS: Flash := Crowded(FRONT, OLD)

  lemma FrontShape()
    ensures SectorShape(FRONT) && End(FRONT) >= 1876 && Solid(A, SMALL)
  {
    hide Solid, BIG, KvSize, BodyWords, InkWords;
    SmallSolid();
    BigSolid(B, Deleted);
    FrontEnd(FRONT.recs);
  }

  lemma SmallSolid()
    ensures Solid(A, SMALL) && KvSize(A, SMALL) == 48
  {
    hide Solid;
    SolidIff(A, SMALL);
    assert SMALL[0] != FF;
  }

  lemma FrontEnd(recs: seq<Rec>)
    requires |recs| == 2 && Complete(recs[0]) && Complete(recs[1]) && 1840 <= Size(recs[0]) <= 1844 && Size(recs[1]) == 48
    ensures Reserved(recs) && Off(recs, 2) >= 1876
  {
    hide KvSize, BodyWords, InkWords;
    assert Off(recs, 0) == Counted(recs, 0) == SECTOR_HDR_SIZE;
    OffStep(recs, 0);
    OffStep(recs, 1);
    assert SlotReserved(recs, 0) && SlotReserved(recs, 1);
  }

  lemma TwinsPair()
    ensures var g := [FRONT, OLD]; Indexed(g, map[A := Loc(0, 1)], map[A := Loc(1, 0)]) && SolidLive(g)
  {
    hide Solid, BIG, KvSize, BodyWords;
    SmallSolid();
    BigSolid(A, PreDelete);
    var g: Flash := [FRONT, OLD];
    forall l, st | st == Write || st == PreDelete ensures Is(g, l, st) ==> l == if st == PreDelete then Loc(1, 0) else Loc(0, 1) {}
  }

  lemma TwinsBootable()
    ensures Bootable(TWINS, Recoverable(TWINS), true) && NoGcMark(TWINS) && Lone(TWINS) && OldDirty(TWINS)
    ensures A in Recoverable(TWINS) && Recoverable(TWINS)[A] == SMALL
  {
    hide Bootable, Recoverable, Lone, Solid, SolidLive, Crowded, SectorShape, End, NoGcMark, Index, Stored, Written, OldDirty;
    var w, p: map<Key, Loc> := map[A := Loc(0, 1)], map[A := Loc(1, 0)];
    FrontShape();
    OneRec(OLD, A, PreDelete);
    TwinsPair();
    CrowdedBootable(FRONT, OLD, w, p);
    OldIs(TWINS, w + FilledIndex(), p);
    TwinsValue(w + FilledIndex(), p);
  }

  lemma TwinsValue(w: map<Key, Loc>, p: map<Key, Loc>)
    requires Indexed(TWINS, w, p) && A in w && w[A] == Loc(0, 1)
    ensures A in Recoverable(TWINS) && Recoverable(TWINS)[A] == SMALL
  {
    hide Recoverable, Index, Crowded;
    RecoverableIsMapOf(TWINS, w, p);
  }

  lemma OldIs(f: Flash, w: map<Key, Loc>, p: map<Key, Loc>)
    requires Indexed(f, w, p) && p == map[A := Loc(1, 0)] && |f| > 1 && f[1].dirty != Clean
    ensures OldDirty(f)
  {
  }

  /** There is no room to move the old record, and a collection from sector 0 meets the new one before it. */
  lemma TwinsMisordered()
    ensures Starved(TWINS, 0) && Misordered(TWINS, 0)
  {
    hide Crowded, BIG, KvSize, BodyWords, TakesRoom, SpareSet, End, SectorShape, NoTorn, Starved, Misordered, Solid, WgAlign, HasSpare, Stored, Written;
    FrontShape();
    OneRec(OLD, A, PreDelete);
    BigSolid(A, PreDelete);
    CrowdedFull(FRONT, OLD, Size(OLD.recs[0]));
    NoneTwinTorn();
    TwinsMet();
    TwinsOld();
    StarvedAt(TWINS, 0, Loc(1, 0));
  }

  lemma TwinsOld()
    ensures Is(TWINS, Loc(1, 0), PreDelete)
  {
  }

  lemma NoneTwinTorn()
    ensures NoTorn(TWINS)
  {
    hide NoTorn;
    NoneTorn(FRONT, OLD);
  }

  lemma TwinsMet()
    ensures Misordered(TWINS, 0)
  {
    hide Crowded, BIG, KvSize, BodyWords;
    assert TwinAt(TWINS, 0, Loc(0, 1), Loc(1, 0));
  }

  /** The boot over it leaves, for a while, a flash with two PRE_DELETE records of the key; if power stays it ends with
      every value in place. */
  method TwinsExample(zeroed: bool, ghost mems: Image) returns (db: Kvdb.Kvdb, ghost i: nat)
    requires Pictured(mems, TWINS)
    ensures db.Served() && db.Lookup() == Recoverable(TWINS) && A in db.Lookup() && db.Lookup()[A] == SMALL
    ensures i < |db.log| && Unindexed(db.log[i])
  {
    hide Pictured, TWINS, Bootable, Starved, Misordered, Lone, NoGcMark, Recoverable, OldestIs, OldDirty, Unindexed, CrashRange, MixedRange;
    TwinsBootable();
    TwinsMisordered();
    var outcome;
    ghost var collected, mixed, o, was;
    db, outcome, collected, mixed, o, was := Boot(TWINS, zeroed, Recoverable(TWINS), mems, true);
    TwinsOldest(zeroed, o);
    i :| 0 <= i < |db.log| && Unindexed(db.log[i]);
  }

  lemma TwinsOldest(zeroed: bool, o: nat)
    requires OldestIs(TWINS, zeroed, o)
    ensures o == 0
  {
    OldestFirst(FRONT, OLD, zeroed, o);
  }
}
