/** Booting the key-value database over what a power loss left behind: which lookups are right
    afterwards, and what a power loss during the boot leaves in turn. */
module KvBoot {
  import opened KvRecord
  import opened KvFlash
  import opened KvDisk
  import opened KvScan
  import opened KvProgram
  import opened KvTape
  import opened KvCrash
  import opened KvMoves
  import opened KvLookup
  import opened KvWalk
  import opened SectorCache
  import KvCache
  import Kvdb
  import Crc32

  /** The WRITE records alone hold the map `m`, one per key. */
  ghost predicate WritesHold(f: Flash, m: map<Key, Val>) {
    && (forall l :: !Is(f, l, PreDelete))
    && (forall l {:trigger Is(f, l, Write)} :: Is(f, l, Write) ==> Get(f, l).key in m && m[Get(f, l).key] == Get(f, l).val)
    && (forall k :: k in m ==> exists l :: Holds(f, l, Write, k))
    && (forall a, b {:trigger Is(f, a, Write), Is(f, b, Write)} ::
          Is(f, a, Write) && Is(f, b, Write) && Get(f, a).key == Get(f, b).key ==> a == b)
  }

  lemma IndexedWritesHold(f: Flash, w: map<Key, Loc>)
    requires Indexed(f, w, map[])
    ensures WritesHold(f, MapOf(f, w, map[]))
  {
    forall k | k in MapOf(f, w, map[]) ensures exists l :: Holds(f, l, Write, k) {
      assert Holds(f, w[k], Write, k);
    }
  }

  /** A flash that a power loss may leave behind while the map is `m`, and that can be booted: no
      collection was under way, or one with a spare sector; and either every live record is solid, or
      no slot was lost before its magic word. */
  ghost predicate Bootable(f: Flash, m: map<Key, Val>, solid: bool) {
    && CrashState(f, m, Care(Resumable, solid, false, None)) && (solid || Lagless(f))
    && (NoGcMark(f) || HasSpare(f))
  }

  /** What a boot asks of the states it leaves behind, until it collects. */
  ghost function Start(f: Flash, solid: bool): Care {
    if NoGcMark(f) then Care(Calm, solid, Lone(f), None) else Care(Any, solid, false, None)
  }

  /** No PRE_DELETE record stands in a sector that was not marked dirty in time. */
  ghost predicate OldDirty(f: Flash) {
    forall l {:trigger Is(f, l, PreDelete)} :: Is(f, l, PreDelete) ==> f[l.sec].dirty != Clean
  }

  /** Some PRE_DELETE record does: power was lost between its two marks. */
  ghost predicate OldClean(f: Flash) {
    exists l {:trigger Is(f, l, PreDelete)} :: Is(f, l, PreDelete) && f[l.sec].dirty == Clean
  }

  /** `was` maps each key with a PRE_DELETE record to that record's value. */
  ghost predicate OldsOf(f: Flash, was: map<Key, Val>) {
    && (forall l {:trigger Is(f, l, PreDelete)} :: Is(f, l, PreDelete) ==> Get(f, l).key in was && was[Get(f, l).key] == Get(f, l).val)
    && forall k :: k in was ==> exists l :: Holds(f, l, PreDelete, k)
  }

  lemma WasOlds(f: Flash, w: map<Key, Loc>, p: map<Key, Loc>)
    requires Indexed(f, w, p)
    ensures OldsOf(f, Was(f, p))
  {
    forall k | k in Was(f, p) ensures exists l :: Holds(f, l, PreDelete, k) { assert Holds(f, p[k], PreDelete, k); }
  }

  lemma IndexesOf(f: Flash, m: map<Key, Val>, solid: bool) returns (w: map<Key, Loc>, p: map<Key, Loc>)
    requires Bootable(f, m, solid)
    ensures Shape(f) && Indexed(f, w, p) && MapOf(f, w, p) == m && Apart(Start(f, solid), f, w, p)
    ensures (NoGcMark(f) || (HasSpare(f) && TwinsClean(f, w, p))) && (solid || Lagless(f))
  {
    hide Shape, Index, NoGcMark, TwinsClean, SolidLive, MapOf, Lone, HasSpare, Lagless;
    w, p :| Indexed(f, w, p) && Apart(Care(Resumable, solid, false, None), f, w, p);
    RecoverableIsMapOf(f, w, p);
    LoneIs(f, w, p);
  }

  /** What a load means for lookups. */
  lemma BootDone(f: Flash, w: map<Key, Loc>, p: map<Key, Loc>, m: map<Key, Val>, o: nat, outcome: Outcome, collected: bool,
                 f': Flash, w': map<Key, Loc>, p': map<Key, Loc>, o': nat)
    requires Shape(f) && Indexed(f, w, p) && Indexed(f', w', p') && MapOf(f', w', p') == m
    requires LoadDone(f, w, p, o, outcome, collected, f', w', p', o')
    ensures outcome == Loaded ==> WritesHold(f', m) && WritesOf(f', w') == m
    ensures Lone(f) && !collected ==> (WritesOf(f', w') == m <==> Rescued(f, o))
    ensures Lone(f) && NoGcMark(f) ==> (collected <==> Starved(f, o))
    ensures Lone(f) && NoGcMark(f) && collected && OldDirty(f) && !NoneDirty(f) ==> WritesOf(f', w') == m
  {
    hide WritesOf, MapOf, WritesHold, Rescued, Starved, Lone, Stuck, NoneDirty;
    hide TornLess, TornKept, NoTorn, Repaired, NoGcMark, Index, Shape;
    LookupIff(f', w', p');
    if outcome == Loaded { IndexedWritesHold(f', w'); }
    if OldDirty(f) && CleanPd(Repaired(f), p, p') { NoneClean(f, w, p, p'); }
  }

  /** What it means for the end of the boot. */
  lemma SpinsWhen(f: Flash, w: map<Key, Loc>, p: map<Key, Loc>, o: nat, outcome: Outcome, collected: bool,
                  f': Flash, w': map<Key, Loc>, p': map<Key, Loc>, o': nat)
    requires Shape(f) && Indexed(f, w, p) && Indexed(f', w', p') && Lone(f) && NoGcMark(f)
    requires LoadDone(f, w, p, o, outcome, collected, f', w', p', o')
    ensures NoneDirty(f) ==> (outcome == Spins <==> Starved(f, o))
    ensures outcome == Spins ==> OldClean(f)
  {
    hide Rescued, Starved, Lone, NoneDirty, TornLess, TornKept, NoTorn, Repaired, NoGcMark, Index, Shape, CleanPd, OutOfSpace;
    if outcome == Spins {
      var l :| Is(f', l, PreDelete) && OutOfSpace(f', Size(Get(f', l)), false);
      StuckIn(f', w', p', l);
      if NoneDirty(f) { CleanWhere(f, w, p, Get(f', l).key); } else { KeptClean(f, w, p, p', Get(f', l).key); }
    }
  }

  lemma StuckIn(f: Flash, w: map<Key, Loc>, p: map<Key, Loc>, l: Loc)
    requires Indexed(f, w, p) && Is(f, l, PreDelete)
    ensures Get(f, l).key in p
  {
  }

  /** With nothing dirty every record's sector is clean. */
  lemma CleanWhere(f: Flash, w: map<Key, Loc>, p: map<Key, Loc>, k: Key)
    requires Shape(f) && Indexed(f, w, p) && NoneDirty(f) && k in p
    ensures Is(f, p[k], PreDelete) && f[p[k].sec].dirty == Clean
  {
    assert SectorShape(f[p[k].sec]);
  }

  lemma KeptClean(f: Flash, w: map<Key, Loc>, p: map<Key, Loc>, p': map<Key, Loc>, k: Key)
    requires Shape(f) && Indexed(f, w, p) && CleanPd(Repaired(f), p, p') && k in p'
    ensures k in p && Is(f, p[k], PreDelete) && f[p[k].sec].dirty == Clean
  {
    assert p'[k] == p[k];
    assert SectorShape(f[p[k].sec]);
  }

  lemma NoneClean(f: Flash, w: map<Key, Loc>, p: map<Key, Loc>, p': map<Key, Loc>)
    requires Shape(f) && Indexed(f, w, p) && OldDirty(f) && CleanPd(Repaired(f), p, p')
    ensures p' == map[]
  {
    forall k ensures k !in p' {
      if k in p' {
        KeptClean(f, w, p, p', k);
        assert false;
      }
    }
  }

  /** What is asked of the states a boot leaves behind in the end. */
  ghost function Finish(f: Flash, solid: bool, collected: bool): Care {
    if collected then Care(Any, solid, false, None) else Start(f, solid)
  }

  lemma BootLeaves(f: Flash, log: seq<Flash>, m: map<Key, Val>, was: map<Key, Val>, solid: bool, care: Care, collected: bool, mixed: bool)
    requires care == Start(f, solid) || (collected && care == Care(Any, solid, false, None))
    requires Leaves(log, 0, m, was, care, mixed) && (mixed ==> collected) && (!collected ==> NoGcMark(f))
    ensures Leaves(log, 0, m, was, Finish(f, solid, collected), mixed)
    ensures forall i {:trigger log[i]} :: 0 <= i < |log| && solid && NoGcMark(log[i]) ==> Bootable(log[i], m, solid)
    ensures !collected && solid ==> forall i {:trigger log[i]} :: 0 <= i < |log| ==> Bootable(log[i], m, solid)
  {
    hide NoGcMark, Lone, CrashState, Bootable, Unindexed, OldOrNew;
    if collected {
      MixedWeaker(log, 0, |log|, m, was, care, Care(Any, solid, false, None));
      if !mixed { CrashRangeWeaker(log, 0, |log|, m, care, Care(Any, solid, false, None)); }
      else { NotAll(log, 0, m, Care(Any, solid, false, None)); }
    }
    forall i {:trigger log[i]} | 0 <= i < |log| && solid && (NoGcMark(log[i]) || !collected) ensures Bootable(log[i], m, solid) {
      assert OldOrNew(log[i], m, was, care);
      if NoGcMark(log[i]) { CalmOld(log[i], m, was, care); }
      CalmBootable(log[i], m, care);
    }
  }

  lemma CalmBootable(f: Flash, m: map<Key, Val>, care: Care)
    requires CrashState(f, m, care) && care.solid && (NoGcMark(f) || care.gc == Calm) && care.veil == None
    ensures Bootable(f, m, true)
  {
    hide NoGcMark, Index, SolidLive, Shape, Seen;
    SeenNone(f);
    var w, p :| Indexed(f, w, p) && Apart(care, f, w, p);
    assert Indexed(f, w, p) && Apart(Care(Resumable, true, false, None), f, w, p);
  }

  /** Boot over the flash `f`, whose bytes are `mems`. Lookups answer from the WRITE records: with at most one
      PRE_DELETE record, and unless a collection is needed, they find the whole map exactly when that record
      is rescued, and a collection is needed exactly when it starves. With nothing to collect, the boot then does not
      end; else the collection leaves two PRE_DELETE records of a key, for a while, exactly when it meets the
      replacement first. */
  method Boot(f: Flash, zeroed: bool, ghost m: map<Key, Val>, ghost mems: Image, ghost solid: bool)
    returns (db: Kvdb.Kvdb, outcome: Outcome, ghost collected: bool, ghost mixed: bool, ghost o: nat, ghost was: map<Key, Val>)
    requires Bootable(f, m, solid) && Pictured(mems, f)
    ensures fresh(db) && fresh(db.sc.table) && fresh(db.kc.table)
    ensures db.Served() && db.Model() == m && db.care.solid == solid
    ensures OldestIs(f, zeroed, o) && (!collected ==> db.oldest == o)
    ensures outcome == Loaded ==> WritesHold(db.flash, m) && NoTorn(db.flash) && db.Lookup() == m
    ensures outcome == Loaded && !collected ==> NoTorn(f)
    ensures outcome == Loaded && HasSpare(f) ==> db.Ready()
    ensures outcome == TornStop ==> TornLess(f, db.flash)
    ensures outcome == NoSpace || outcome == Spins ==> Stuck(db.flash)
    ensures outcome == Spins ==> NoneDirty(db.flash) && |EmptySet(db.flash)| == 1
    ensures outcome == NoSpace ==> |EmptySet(db.flash)| != 1
    ensures !collected ==> NoGcMark(f) && outcome != Spins && !mixed
    ensures NoGcMark(f) || |EmptySet(Repaired(f))| <= 1 ==> NoGcMark(db.flash)
    ensures Lone(f) && !collected ==> (db.Lookup() == m <==> Rescued(f, o))
    ensures Lone(f) && NoGcMark(f) ==> (collected <==> Starved(f, o))
    ensures Lone(f) && NoGcMark(f) && NoneDirty(f) ==> (outcome == Spins <==> Starved(f, o))
    ensures Lone(f) && NoGcMark(f) && outcome == Spins ==> OldClean(f)
    ensures Lone(f) && NoGcMark(f) && collected && OldDirty(f) ==> db.Lookup() == m
    ensures Lone(f) && NoGcMark(f) ==> (mixed <==> Starved(f, o) && Misordered(f, o))
    ensures OldsOf(f, was) && Leaves(db.log, 0, m, was, Finish(f, solid, collected), mixed)
    ensures forall i {:trigger db.log[i]} :: 0 <= i < |db.log| && solid && NoGcMark(db.log[i]) ==> Bootable(db.log[i], m, solid)
    ensures !collected && solid ==> forall i {:trigger db.log[i]} :: 0 <= i < |db.log| ==> Bootable(db.log[i], m, solid)
    ensures db.first == mems
  {
    hide Indexed, Agrees, KvCache.Wf, KvOk, CrashState, MapOf, HasEmpty, HasSpare;
    hide TwinsClean, SectorShape, NoGcMark, Apart, TornLess, Stuck, Lagless, Leaves;
    hide Pictured, Taped, Lone, Rescued, Starved, OldDirty, OldClean, Zeroed, WritesOf, Was, OldsOf;
    hide Misordered, NoneDirty, WritesHold, OldestIs, NoTorn, Bootable, CrashRange;
    ghost var w, p := IndexesOf(f, m, solid);
    db := new Kvdb.Kvdb(f, w, p, mems, Start(f, solid), zeroed);
    db.FindOldest();
    o := db.oldest;
    db.ClearTables();
    outcome, collected, mixed := db.Load();
    was := Was(f, p);
    WasOlds(f, w, p);
    BootDone(f, w, p, m, o, outcome, collected, db.flash, db.wr, db.pd, db.oldest);
    if Lone(f) && NoGcMark(f) { SpinsWhen(f, w, p, o, outcome, collected, db.flash, db.wr, db.pd, db.oldest); }
    if NoneDirty(f) && OldDirty(f) { NoneOld(f, w, p, o); }
    BootLeaves(f, db.log, m, was, solid, db.care, collected, mixed);
  }

  /** A PRE_DELETE record in a dirty sector leaves something to collect. */
  lemma NoneOld(f: Flash, w: map<Key, Loc>, p: map<Key, Loc>, o: nat)
    requires Shape(f) && Indexed(f, w, p) && NoneDirty(f) && OldDirty(f)
    ensures !Starved(f, o)
  {
    forall l ensures !Is(f, l, PreDelete) {
      if In(f, l) { assert SectorShape(f[l.sec]); }
    }
  }

  // ---------------------------------------------------------------- a boot that stops early

  const A: Key := [0x61]

  /** Power was lost inside a set: the old record of the key "a" is marked PRE_DELETE, and the new one,
      in a sector that a walk meets first, was cut off. */
  const STOPPED: Flash := [
    Sector(true, Using, Clean, [Rec(PreWrite, A, [0x32], 2)]),
    Sector(true, Using, DirtyTrue, [Written(A, [0x31]).(status := PreDelete)])
  ] + seq(SECTOR_NUM - 2, _ => Sector(true, Empty, Clean, []))

  lemma StoppedShape()
    ensures Shape(STOPPED)
    ensures Indexed(STOPPED, map[], map[A := Loc(1, 0)]) && MapOf(STOPPED, map[], map[A := Loc(1, 0)]) == map[A := [0x31]]
  {
    hide Solid;
    var f := STOPPED;
    forall s | 0 <= s < |f| ensures SectorShape(f[s]) {
      if s < 2 { FirstSlot(f[s].recs); }
    }
  }

  lemma FirstSlot(recs: seq<Rec>)
    requires |recs| == 1 && SECTOR_HDR_SIZE + Size(recs[0]) + REMAIN_THRESHOLD < SEC_SIZE
    ensures Reserved(recs)
  {
    forall j | 0 <= j < |recs| ensures SlotReserved(recs, j) {
      assert Off(recs, 0) == Counted(recs, 0) == SECTOR_HDR_SIZE;
    }
  }

  lemma StoppedSolid()
    ensures SolidLive(STOPPED)
  {
    hide Solid;
    var v: Val := [0x31];
    SolidIff(A, v);
    assert v[0] != FF;
    forall l, st {:trigger Is(STOPPED, l, st)} | (st == Write || st == PreDelete) && Is(STOPPED, l, st)
      ensures Get(STOPPED, l).key == A && Get(STOPPED, l).val == v
    {
      assert l.sec < 2;
    }
  }

  lemma StoppedBootable()
    ensures Bootable(STOPPED, map[A := [0x31]], true) && NoGcMark(STOPPED) && Lone(STOPPED)
  {
    hide Solid, SolidLive;
    var f, w, p := STOPPED, map[], map[A := Loc(1, 0)];
    StoppedShape();
    RecoverableIsMapOf(f, w, p);
    LoneIs(f, w, p);
    StoppedSolid();
    assert Indexed(f, w, p) && Apart(Care(Resumable, true, false, None), f, w, p);
  }

  /** The walk meets the unfinished slot first, so the record is not rescued, though there is room. */
  lemma StoppedLost(o: nat, zeroed: bool)
    requires OldestIs(STOPPED, zeroed, o)
    ensures !Rescued(STOPPED, o) && !Starved(STOPPED, o)
  {
    var f, l := STOPPED, Loc(1, 0);
    assert o == 0;
    assert Is(f, l, PreDelete) && !HasTwin(f, l);
    assert TornAt(f, Loc(0, 0)) && Ahead(0, Loc(0, 0), l);
    assert {2, 3} <= SpareSet(f);
    SubsetSize({2, 3}, SpareSet(f));
  }

  lemma WritesWithin(f: Flash, w: map<Key, Loc>, p: map<Key, Loc>, k: Key, v: Val)
    requires Indexed(f, w, p) && MapOf(f, w, p) == map[k := v]
    ensures WritesOf(f, w) == map[k := v] || WritesOf(f, w) == map[]
  {
    forall x | x in w ensures x == k && WritesOf(f, w)[x] == v {
      assert x in MapOf(f, w, p) && MapOf(f, w, p)[x] == WritesOf(f, w)[x];
    }
    if k in w { assert WritesOf(f, w) == map[k := v]; }
  }

  /** A boot over it succeeds, still holds the old value, and answers that there is none. */
  method StoppedExample(zeroed: bool, ghost mems: Image, bufLen: nat) returns (db: Kvdb.Kvdb, data: Val, valueLen: nat)
    requires Pictured(mems, STOPPED)
    ensures db.Served() && db.Model() == map[A := [0x31]] && valueLen == 0 && data == []
  {
    hide Pictured, STOPPED, Bootable, Rescued, Starved, Lone, NoGcMark, OldestIs, Indexed, MapOf, WritesOf, Shape;
    StoppedBootable();
    var outcome;
    ghost var collected, mixed, o, was;
    db, outcome, collected, mixed, o, was := Boot(STOPPED, zeroed, map[A := [0x31]], mems, true);
    StoppedLost(o, zeroed);
    WritesWithin(db.flash, db.wr, db.pd, A, [0x31]);
    assert NoClash(map[], A);
    data, valueLen := db.GetKv(A, bufLen);
  }
}
