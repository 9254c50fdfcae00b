/** The key-value database: set, delete and get over the flash, with copying garbage collection
    and recovery. Every flash change goes through `Exec`, which appends the flash it leaves to the
    ghost `log`, whose entries are the states a power loss can leave behind, and the bytes it leaves to
    the ghost `trail`. */
module Kvdb {
  import opened KvRecord
  import opened KvFlash
  import opened KvDisk
  import opened KvScan
  import opened KvProgram
  import opened KvTape
  import opened KvCrash
  import opened KvMoves
  import opened KvCollect
  import opened KvLookup
  import opened KvWalk
  import opened SectorCache
  import KvCache
  import Crc32

  datatype Err = NoErr | NameErr | SavedFull

  class Kvdb {
    var flash: Flash
    var oldest: nat
    var gcRequest: bool
    var inRecovery: bool
    var lastDel: bool
    const kc: KvCache.Cache
    const sc: Cache

    ghost var wr: map<Key, Loc>  // the WRITE record of each key
    ghost var pd: map<Key, Loc>  // the PRE_DELETE record of each key
    ghost var log: seq<Flash>
    ghost var gcSec: int         // the sector being collected, or -1
    ghost var trail: seq<Image>  // the bytes before the first change, and after each one in `log`
    ghost var care: Care         // what every state left behind must allow
    ghost const first: Image     // the bytes at the start

    /** The RAM at power-on: the caches were never set up, and with `zeroed` their tables are all zero. */
    constructor (f: Flash, ghost w: map<Key, Loc>, ghost p: map<Key, Loc>, ghost mems: Image, ghost care: Care, zeroed: bool)
      requires Shape(f) && Indexed(f, w, p) && Apart(care, f, w, p) && care.veil == None && Pictured(mems, f)
      ensures fresh(kc) && fresh(kc.table) && fresh(sc) && fresh(sc.table)
      ensures oldest == 0 && flash == f && wr == w && pd == p && log == [] && first == mems && !gcRequest && !inRecovery && !lastDel
      ensures Disk() && gcSec == -1 && this.care == care && kc.Sound()
      ensures Zeroed(sc.table[..]) == zeroed && sc.table.Length == SECTOR_CACHE_TABLE_SIZE && (!zeroed ==> Base())
    {
      flash, oldest, gcRequest, inRecovery, lastDel := f, 0, false, false, false;
      wr, pd, log, gcSec, trail := w, p, [], -1, [mems];
      this.care := care;
      first := mems;
      kc := new KvCache.Cache();
      sc := new Cache(zeroed);
      new;
      assert !zeroed ==> sc.table[..][0] == SecUnused;
    }

    /** The flash as the indexes describe it. */
    ghost function View(): Flash
      reads this
    {
      Seen(flash, Veiled(care))
    }

    /** The record at `l` is disregarded. */
    ghost predicate Hidden(l: Loc)
      reads this
    {
      Veiled(care) == Some(l)
    }

    ghost predicate Disk()
      reads this
    {
      && Shape(flash) && VeilOk(care, flash) && Indexed(View(), wr, pd) && oldest < SECTOR_NUM
      && Apart(care, View(), wr, pd)
      && |trail| == |log| + 1 && trail[0] == first && |trail[|log|]| == |flash| && Taped(trail, log, flash)
    }

    lemma DiskShape()
      requires Disk()
      ensures Shape(flash) && |flash| == SECTOR_NUM
    {
    }

    /** The bytes as they are. */
    ghost function Now(): Image
      reads this
      requires Disk()
    {
      trail[|log|]
    }

    /** Moving a live record cannot make the next one reach into it. */
    ghost predicate Steady()
      reads this
    {
      care.solid || Lagless(flash)
    }

    /** Disk and sector cache agree. */
    ghost predicate Base()
      reads this, sc.table
    {
      Disk() && Agrees(sc.table[..], flash, gcSec, -1) && (gcSec == -1 || gcRequest)
    }

    /** Every active slot of the key cache points at a live record with its hash. */
    ghost predicate Cache()
      reads this, kc.table
    {
      KvCache.Wf(kc.table[..]) && KvOk(kc.table[..], flash, None)
    }

    /** A collection may run: outside recovery no key has both records, nor do they in a sector that is not
        clean where the collection has to be one that can be resumed. */
    ghost predicate GcSafe()
      reads this
    {
      && (inRecovery || wr.Keys !! pd.Keys) && care.veil == None
      && care.gc != Calm && (care.gc == Resumable ==> TwinsClean(flash, wr, pd)) && (care.lone ==> pd == map[])
      && Steady()
    }

    ghost function Model(): map<Key, Val>
      reads this
      requires Disk()
    {
      MapOf(View(), wr, pd)
    }

    // -------------------------------------------------------------- flash changes

    /** One word program or page erase. */
    method Exec(op: Op, ghost w: map<Key, Loc>, ghost p: map<Key, Loc>)
      requires Disk() && Can(flash, op) && VeilOk(care, Apply(flash, op)) && Indexed(Seen(Apply(flash, op), Veiled(care)), w, p)
      requires Apart(care, Seen(Apply(flash, op), Veiled(care)), w, p) && Unpassed(Now()[SecOf(op)], flash, op)
      modifies `flash, `wr, `pd, `log, `trail
      ensures Disk() && flash == Apply(old(flash), op) && wr == w && pd == p
      ensures log == old(log) + [flash] && CrashState(flash, Model(), care)
      ensures |old(Now())| == |old(flash)| && (!op.OpErase? ==> Represents(old(Now())[SecOf(op)], old(flash)[SecOf(op)]))
      ensures Now() == Wrote(old(Now()), old(flash), op)
    {
      hide Indexed, Apart, Unpassed, Represents, Wrote, VeilOk, Seen;
      ShapeStep(flash, op);
      RecoverableIsMapOf(Seen(Apply(flash, op), Veiled(care)), w, p);
      TapeNext(trail, log, flash, op);
      trail := trail + [Wrote(trail[|log|], flash, op)];
      flash := Apply(flash, op);
      wr, pd, log := w, p, log + [flash];
      assert CrashState(flash, Model(), care) by { assert Indexed(View(), wr, pd) && Apart(care, View(), wr, pd); }
    }

    /** A change that touches no committed record. */
    method ExecQuiet(op: Op)
      requires Disk() && Can(flash, op) && Quiet(flash, op) && Unpassed(Now()[SecOf(op)], flash, op)
      requires op.OpDirty? ==> GcOk(care.gc, Apply(flash, op), wr, pd)
      requires op.OpErase? ==> care.veil == None
      modifies `flash, `wr, `pd, `log, `trail
      ensures Disk() && flash == Apply(old(flash), op) && wr == old(wr) && pd == old(pd)
      ensures Model() == old(Model())
      ensures |log| == |old(log)| + 1 && old(log) <= log && CrashRange(log, |old(log)|, |log|, Model(), care)
      ensures |old(Now())| == |old(flash)| && (!op.OpErase? ==> Represents(old(Now())[SecOf(op)], old(flash)[SecOf(op)]))
      ensures Now() == Wrote(old(Now()), old(flash), op)
    {
      hide Indexed, Apart, GcOk, SolidLive, Unpassed, Represents, Wrote, CrashState, SameCommitted, Seen;
      QuietBeside(care, flash, op);
      SeenStep(care, flash, op);
      QuietStep(View(), op, wr, pd);
      if op.OpDirty? { GcOkSeen(care, Apply(flash, op), wr, pd); }
      QuietApart(care, View(), op, wr, pd);
      Exec(op, wr, pd);
    }

    /** The last record of sector `s` becomes the value of its key. */
    method Commit(s: nat)
      requires Disk() && s < |flash| && flash[s].recs != []
      requires var r := flash[s].recs[|flash[s].recs| - 1];
        r.status == PreWrite && Complete(r) && r.key !in wr && (care.solid ==> Solid(r.key, r.val))
      requires care.gc != Any ==> NoGcMark(flash) || flash[s].dirty == Clean
      modifies `flash, `wr, `pd, `log, `trail
      ensures Disk()
      ensures var l := Loc(s, |old(flash)[s].recs| - 1); var r := Get(old(flash), l);
        && flash == SetStatus(old(flash), l, Write) && wr == old(wr)[r.key := l] && pd == old(pd)
        && Model() == old(Model())[r.key := r.val]
      ensures |log| == |old(log)| + 1 && old(log) <= log && CrashRange(log, |old(log)|, |log|, Model(), care)
    {
      hide Apart, NoGcMark, TwinsClean, Indexed, Shape, MapOf, CrashState, Solid, Seen;
      ghost var l := Loc(s, |flash[s].recs| - 1);
      BesideOpen(care, flash, l, Write);
      CommitStep(View(), l, wr, pd);
      CommitApart(care, View(), l, wr, pd);
      Exec(OpStatus(Loc(s, |flash[s].recs| - 1), Write), wr[Get(flash, l).key := l], pd);
    }

    /** Disregard the replacement at `l` from here on: its key has the value it had before. */
    ghost method Veil(l: Loc)
      requires Disk() && care.veil == None && care.gc == Any && !care.lone && Is(flash, l, Write) && Get(flash, l).key in pd
      requires flash[l.sec].dirty == DirtyGc
      modifies `care, `wr
      ensures Disk() && care == old(care).(veil := Some(Aside(l, Get(flash, l).key, Get(flash, l).val)))
      ensures wr == old(wr) - {Get(flash, l).key}
      ensures var k := Get(flash, l).key; Model() == old(Model())[k := Get(flash, pd[k]).val]
    {
      hide Taped, Index, MapOf;
      VeilStep(flash, wr, pd, l);
      ApartLess(care, flash, l, wr, pd, wr - {Get(flash, l).key}, pd);
      wr := wr - {Get(flash, l).key};
      care := care.(veil := Some(Aside(l, Get(flash, l).key, Get(flash, l).val)));
    }

    /** It is deleted now. */
    ghost method Unveil()
      requires Disk() && care.veil.Some? && Is(flash, care.veil.value.at, Deleted)
      modifies `care
      ensures Disk() && care == old(care).(veil := None) && Model() == old(Model())
    {
      hide Taped, Indexed, MapOf, Shape;
      SeenDeleted(flash, care.veil.value.at);
      care := care.(veil := None);
    }

    method MarkPreDelete(l: Loc)
      requires Disk() && Is(flash, l, Write)
      requires Hidden(l) || (care.veil == None && Get(flash, l).key !in pd && (care.lone ==> pd == map[]))
      modifies `flash, `wr, `pd, `log, `trail
      ensures Disk() && flash == SetStatus(old(flash), l, PreDelete) && Model() == old(Model())
      ensures var k := Get(old(flash), l).key; !Hidden(l) ==> wr == old(wr) - {k} && pd == old(pd)[k := l]
      ensures Hidden(l) ==> wr == old(wr) && pd == old(pd)
      ensures log == old(log) + [flash] && CrashRange(log, |old(log)|, |log|, Model(), care)
    {
      hide Apart, Indexed, Shape, MapOf, CrashState, Seen, VeilOk;
      ghost var w, p := wr, pd;
      if !Hidden(l) { w, p := wr - {Get(flash, l).key}, pd[Get(flash, l).key := l]; }
      MarkSeen(care, flash, l, wr, pd, w, p);
      Exec(OpStatus(l, PreDelete), w, p);
    }

    /** Delete a WRITE record, or a PRE_DELETE record whose replacement is in place. A key whose WRITE record is
        deleted while it has a PRE_DELETE record comes back with that one's value. */
    method MarkDeleted(l: Loc)
      requires Disk()
      requires if Hidden(l) then Is(flash, l, PreDelete) else care.veil == None && (Is(flash, l, Write) || (Is(flash, l, PreDelete) && Get(flash, l).key in wr))
      modifies `flash, `wr, `pd, `log, `trail
      ensures Disk() && flash == SetStatus(old(flash), l, Deleted)
      ensures Gone(old(flash), old(wr), old(pd), old(Model()), l, Hidden(l), wr, pd, Model())
      ensures |log| == |old(log)| + 1 && old(log) <= log && CrashRange(log, |old(log)|, |log|, Model(), care)
    {
      hide Apart, Indexed, Shape, MapOf, CrashState, Seen, VeilOk, Gone;
      ghost var w, p := DeleteSeen(care, flash, l, wr, pd);
      Exec(OpStatus(l, Deleted), w, p);
    }

    /** Program the next `n` words of the last record of sector `s`. */
    method PutWords(s: nat, n: nat)
      requires Disk() && s < |flash| && flash[s].recs != []
      requires var r := flash[s].recs[|flash[s].recs| - 1]; r.status == PreWrite && r.written + n <= Total(r)
      requires Untouched(Now()[s], flash[s])
      modifies `flash, `wr, `pd, `log, `trail
      ensures Disk() && flash == Advanced(old(flash), s, n) && wr == old(wr) && pd == old(pd)
      ensures Model() == old(Model()) && Untouched(Now()[s], flash[s])
      ensures old(log) <= log && CrashRange(log, |old(log)|, |log|, Model(), care)
    {
      hide Indexed, Apart, Untouched, Represents, CrashState, Taped, Unpassed, Shape;
      ghost var f0 := flash;
      AdvancedZero(f0, s);
      var i := 0;
      while i < n
        invariant 0 <= i <= n
        invariant Disk() && flash == Advanced(f0, s, i) && wr == old(wr) && pd == old(pd)
        invariant Untouched(Now()[s], flash[s])
        invariant Model() == old(Model())
        invariant old(log) <= log && CrashRange(log, |old(log)|, |log|, Model(), care)
      {
        AdvancedNext(f0, s, i);
        UntouchedGoes(Now()[s], flash, OpWord(s));
        ghost var f1, m1 := flash, Now();
        ExecQuiet(OpWord(s));
        UntouchedAfter(m1, f1, OpWord(s));
        i := i + 1;
      }
    }

    // -------------------------------------------------------------- reading and allocating

    /** A sector's header, and with `traversal` its free space, from the cache when it has them. */
    method ReadSectorInfo(s: nat, traversal: bool) returns (info: SecInfo)
      requires Base() && s < SECTOR_NUM
      modifies sc.table
      ensures Base() && info.sec == s
      ensures if flash[s].ok then SlotOk(info, flash, gcSec, -1) && (traversal ==> info.empty != FAILED_ADDR)
              else !info.ok && info.store == StoreUnused && info.empty == FAILED_ADDR
      ensures forall x {:trigger SecUsed(x)} :: SecUsed(x) in old(sc.table[..]) && x.sec == s && (traversal ==> x.empty != FAILED_ADDR) ==>
        info == x && sc.table[..] == old(sc.table[..])
      ensures flash[s].ok && Absent(old(sc.table[..]), s) ==> (traversal <==> info.empty != FAILED_ADDR)
      ensures flash[s].ok ==> SecUsed(info) in sc.table[..] || (sc.table[..] == old(sc.table[..]) && SecUnused !in sc.table[..])
    {
      var i := sc.Find(s);
      if i < sc.table.Length {
        info := sc.table[i].info;
        assert sc.table[..][i] == SecUsed(info);
        if !traversal || info.empty != FAILED_ADDR {
          return;
        }
      }
      if !flash[s].ok {
        return SecInfo(false, StoreUnused, DirtyUnused, s, 0, FAILED_ADDR);
      }
      if traversal {
        var end := End(flash[s]);
        EndReserved(flash[s]);
        info := SecInfo(true, flash[s].store, flash[s].dirty, s, SEC_SIZE - end, end);
        sc.Update(info, flash, gcSec, -1);
      } else {
        info := SecInfo(true, flash[s].store, flash[s].dirty, s, 0, FAILED_ADDR);
        sc.Update(info, flash, gcSec, -1);
      }
    }

    /** How many sectors are EMPTY, and the last one in ring order (0 when there is none). */
    method CountEmpty() returns (n: nat, last: nat)
      requires Base()
      modifies sc.table
      ensures Base() && n == |EmptySet(flash)| && last < SECTOR_NUM && (n > 0 ==> IsEmpty(flash[last]))
      ensures LastEmpty(flash, oldest, SECTOR_NUM, last)
    {
      hide SectorShape, Indexed, Apart, MapOf, End, SpaceOk, EmptySet, Visited, LastEmpty, RingIndex;
      n, last := 0, 0;
      var i := 0;
      VisitEnds(flash, oldest);
      LastEmptyStart(flash, oldest);
      while i < SECTOR_NUM
        invariant 0 <= i <= SECTOR_NUM && Base()
        invariant n == |EmptySet(flash) * Visited(oldest, i)|
        invariant last < SECTOR_NUM && (n > 0 ==> IsEmpty(flash[last]))
        invariant LastEmpty(flash, oldest, i, last)
      {
        var s := RingAt(oldest, i);
        var info := ReadSectorInfo(s, false);
        VisitNext(flash, oldest, i);
        LastEmptyNext(flash, oldest, i, last);
        if info.ok && info.store == Empty {
          n, last := n + 1, s;
        }
        i := i + 1;
      }
    }

    /** The first sector in ring order, with store status `store`, that can hold `size` bytes. */
    method SearchSpace(store: Store, size: nat) returns (found: bool, info: SecInfo)
      requires Base() && (store == Using || store == Empty)
      modifies sc.table
      ensures Base()
      ensures found ==> Fits(info, flash) && info.store == store && CanHold(flash[info.sec], size, gcRequest)
      ensures found ==> NoRoomBefore(flash, oldest, RingIndex(oldest, info.sec), store, size, gcRequest)
      ensures !found ==> NoRoom(flash, store, size, gcRequest)
    {
      var i := 0;
      info := SecInfo(false, StoreUnused, DirtyUnused, 0, 0, FAILED_ADDR);
      while i < SECTOR_NUM
        invariant 0 <= i <= SECTOR_NUM && Base()
        invariant NoRoomBefore(flash, oldest, i, store, size, gcRequest)
      {
        var s := RingAt(oldest, i);
        info := ReadSectorInfo(s, false);
        if info.store == store {
          info := ReadSectorInfo(s, true);
          if info.ok && info.remain > size + REMAIN_THRESHOLD
             && (info.dirty == Clean || (info.dirty == DirtyTrue && !gcRequest)) {
            return true, info;
          }
        }
        forall x: nat | x < SECTOR_NUM && RingIndex(oldest, x) == i ensures x == s { RingCovers(oldest, x); }
        i := i + 1;
      }
      found := false;
    }

    /** Find room for a record: a USING sector first, then an EMPTY one if that leaves another
        EMPTY one or a collection is running; otherwise ask for a collection. */
    method AllocKv(size: nat) returns (found: bool, info: SecInfo)
      requires Base()
      modifies `gcRequest, sc.table
      ensures Base()
      ensures found ==> Fits(info, flash) && CanHold(flash[info.sec], size, gcRequest)
      ensures found ==> info.store == Using || (info.store == Empty && (gcRequest || |EmptySet(flash)| >= 2))
      ensures found && info.store == Empty ==> NoRoom(flash, Using, size, gcRequest)
      ensures found ==> NoRoomBefore(flash, oldest, RingIndex(oldest, info.sec), info.store, size, gcRequest)
      ensures !found ==> OutOfSpace(flash, size, old(gcRequest))
      ensures gcRequest == (old(gcRequest) || (!found && |EmptySet(flash)| == 1))
    {
      hide Indexed, Agrees, Taped, Apart, Shape, MapOf, CanHold, EmptySet, NoRoomBefore;
      var empties, _ := CountEmpty();
      found, info := SearchSpace(Using, size);
      if empties > 0 && !found {
        if empties > 1 || gcRequest {
          found, info := SearchSpace(Empty, size);
        } else {
          gcRequest := true;
        }
      }
      SomeEmpty(flash);
    }

    // -------------------------------------------------------------- lookup

    /** Walk every sector from the oldest for a WRITE record of `key`. */
    method FindKvNoCache(key: Key) returns (r: Option<Loc>)
      requires Base() && care.veil == None
      modifies sc.table
      ensures Base() && r == if key in wr then Some(wr[key]) else None
    {
      hide Taped, Apart, MapOf, Agrees, Reserved, RecShape;
      var i := 0;
      while i < SECTOR_NUM
        invariant 0 <= i <= SECTOR_NUM && Base()
        invariant key in wr ==> RingIndex(oldest, wr[key].sec) >= i
      {
        var s := RingAt(oldest, i);
        var info := ReadSectorInfo(s, false);
        assert SectorShape(flash[s]);
        if info.ok && info.store == Using {
          var j := 0;
          while j < |flash[s].recs|
            invariant 0 <= j <= |flash[s].recs|
            invariant key in wr && wr[key].sec == s ==> wr[key].idx >= j
          {
            var kv := flash[s].recs[j];
            if |key| == |kv.key| && kv.status == Write && kv.key == key {
              assert Is(flash, Loc(s, j), Write);
              return Some(Loc(s, j));
            }
            j := j + 1;
          }
        }
        if key in wr && RingIndex(oldest, wr[key].sec) == i { RingCovers(oldest, wr[key].sec); }
        i := i + 1;
      }
      r := None;
    }

    /** The cache's answer for `key`: the first active slot with its hash whose record's stored
        bytes start with the key. */
    method GetKvFromCache(key: Key) returns (r: Option<Loc>)
      requires Disk() && Cache()
      modifies kc.table
      ensures Cache() && r == Probe(old(kc.table[..]), flash, key, 0)
      ensures r == None ==> kc.table[..] == old(kc.table[..])
      ensures r.Some? ==> KvCache.Cached(kc.table[..], Crc32.NameHash(key), r.value)
      ensures r.Some? ==> exists i :: Answered(old(kc.table[..]), kc.table[..], i, flash, key)
    {
      hide Shape, NoGcMark, TwinsClean, Apart, Indexed, MapOf;
      var h := Crc32.NameHash(key);
      var i := 0;
      ghost var t := kc.table[..];
      while i < kc.table.Length
        invariant 0 <= i <= kc.table.Length && Cache() && kc.table[..] == t
        invariant Probe(t, flash, key, 0) == Probe(t, flash, key, i)
      {
        if kc.table[i].addr.Some? && kc.table[i].hash == h {
          assert SlotLive(t[i], flash);
          var l := kc.table[i].addr.value;
          if key <= Shown(flash[l.sec].recs, l.idx) {
            kc.Touch(i);
            assert KvCache.Maps(kc.table[..], i, h, l);
            assert Answered(t, kc.table[..], i, flash, key);
            KvOkEntries(t, kc.table[..], flash, None);
            return Some(l);
          }
        }
        i := i + 1;
      }
      r := None;
    }

    /** Look `key` up through the cache, then on the flash. */
    method FindKv(key: Key) returns (r: Option<Loc>)
      requires Base() && Cache() && care.veil == None && NoFalseHit(flash, key)
      modifies sc.table, kc.table
      ensures Base() && Cache()
      ensures r == if key in wr then Some(wr[key]) else None
      ensures Probe(old(kc.table[..]), flash, key, 0).Some? ==> exists i :: Answered(old(kc.table[..]), kc.table[..], i, flash, key)
      ensures r.Some? ==> KvCache.Cached(kc.table[..], Crc32.NameHash(key), r.value)
    {
      ProbeRight(kc.table[..], flash, key, 0);
      r := GetKvFromCache(key);
      if r == None {
        r := FindKvNoCache(key);
        if r.Some? {
          WriteOf(flash, wr, key);
          CacheInsert(r.value, None);
        }
      }
    }

    /** Point the cache at the record at `l`; only entries under the hash `except` may be stale. */
    method CacheInsert(l: Loc, ghost except: Option<bv16>)
      requires In(flash, l) && KvCache.Wf(kc.table[..]) && KvOk(kc.table[..], flash, except)
      requires except == None ==> Is(flash, l, Write)
      requires except == None || except == Some(Crc32.NameHash(Get(flash, l).key))
      modifies kc.table
      ensures KvCache.Wf(kc.table[..]) && KvOk(kc.table[..], flash, except)
      ensures KvCache.Cached(kc.table[..], Crc32.NameHash(Get(flash, l).key), l)
      ensures KvCache.Recorded(old(kc.table[..]), kc.table[..], Crc32.NameHash(Get(flash, l).key), l)
    {
      var h := Crc32.NameHash(flash[l.sec].recs[l.idx].key);
      ghost var t := kc.table[..];
      kc.Insert(h, l);
      KvOkInserted(t, kc.table[..], flash, h, l, except);
    }

    // -------------------------------------------------------------- deleting

    /** Mark sector `s` dirty if it is clean. */
    method MarkDirty(s: nat)
      requires Base() && s < SECTOR_NUM && flash[s].ok && flash[s].store == Using
      requires care.gc == Resumable ==> NoGcMark(flash) || flash[s].dirty != Clean
      modifies `flash, `wr, `pd, `log, `trail, sc.table
      ensures Base() && flash == old(flash)[s := Dirtied(old(flash)[s])] && wr == old(wr) && pd == old(pd)
      ensures Model() == old(Model())
      ensures old(log) <= log && CrashRange(log, |old(log)|, |log|, Model(), care)
    {
      hide Indexed, Apart, Taped, MapOf, CrashState, Represents, Wrote, SectorShape, Seen, VeilOk, End;
      if flash[s].dirty == Clean {
        ghost var f0 := flash;
        DirtyGcOk(care, flash, s, wr, pd);
        ExecQuiet(OpDirty(s, DirtyTrue));
        sc.SetDirty(s, f0, flash, gcSec, -1);
      }
    }

    /** First half of replacing a record: PRE_DELETE, and its sector dirty. */
    method PrepareDel(l: Loc)
      requires Base() && Is(flash, l, Write)
      requires Hidden(l) || (care.veil == None && Get(flash, l).key !in pd && (care.lone ==> pd == map[]))
      requires care.gc == Resumable ==> NoGcMark(flash) || flash[l.sec].dirty != Clean
      modifies `flash, `wr, `pd, `log, `trail, `lastDel, sc.table
      ensures Base() && flash == Marked(old(flash), l, PreDelete) && lastDel && Model() == old(Model())
      ensures var k := Get(old(flash), l).key; !Hidden(l) ==> wr == old(wr) - {k} && pd == old(pd)[k := l]
      ensures Hidden(l) ==> wr == old(wr) && pd == old(pd)
      ensures old(log) + [SetStatus(old(flash), l, PreDelete)] <= log && CrashRange(log, |old(log)|, |log|, Model(), care)
    {
      hide Shape, SectorShape, NoGcMark, TwinsClean, Apart, CrashState, MapOf, Indexed, Agrees, Taped, Seen;
      RecordInUse(flash, l);
      AgreesStatus(sc.table[..], flash, l, PreDelete, gcSec, -1);
      StatusApart(flash, l, PreDelete);
      MarkPreDelete(l);
      lastDel := true;
      MarkDirty(l.sec);
    }

    /** The key cache does not answer for `key`. */
    ghost predicate Forgotten(key: Key)
      reads this, kc.table
    {
      forall l :: !KvCache.Cached(kc.table[..], Crc32.NameHash(key), l)
    }

    /** Write DELETED, and forget the cache entry unless a replacement is being made. */
    method DeleteMark(l: Loc)
      requires Base() && KvCache.Wf(kc.table[..])
      requires if Hidden(l) then Is(flash, l, PreDelete) else care.veil == None && (Is(flash, l, Write) || (Is(flash, l, PreDelete) && Get(flash, l).key in wr))
      requires lastDel ==> Is(flash, l, PreDelete) && KvOk(kc.table[..], flash, None)
      requires !lastDel ==> KvOk(kc.table[..], flash, Some(Crc32.NameHash(Get(flash, l).key)))
      modifies `flash, `wr, `pd, `log, `trail, kc.table
      ensures Base() && Cache() && flash == SetStatus(old(flash), l, Deleted)
      ensures if old(lastDel) then kc.table[..] == old(kc.table[..]) else Forgotten(Get(old(flash), l).key)
      ensures Gone(old(flash), old(wr), old(pd), old(Model()), l, Hidden(l), wr, pd, Model())
      ensures old(log) <= log && CrashRange(log, |old(log)|, |log|, Model(), care)
    {
      hide Shape, SectorShape, Indexed, Agrees, NoGcMark, TwinsClean, Apart, CrashState, MapOf, Taped, Seen, Gone;
      ghost var f0, t := flash, kc.table[..];
      AgreesStatus(sc.table[..], flash, l, Deleted, gcSec, -1);
      MarkDeleted(l);
      if !lastDel {
        kc.Remove(Crc32.NameHash(flash[l.sec].recs[l.idx].key));
        KvOkRemoved(t, kc.table[..], f0, Crc32.NameHash(Get(f0, l).key));
      }
      KvOkDeleted(kc.table[..], f0, l);
    }

    /** Complete a deletion, and mark the sector dirty. */
    method Delete(l: Loc)
      requires Base() && KvCache.Wf(kc.table[..])
      requires if Hidden(l) then Is(flash, l, PreDelete) else care.veil == None && (Is(flash, l, Write) || (Is(flash, l, PreDelete) && Get(flash, l).key in wr))
      requires lastDel ==> Is(flash, l, PreDelete) && KvOk(kc.table[..], flash, None)
      requires !lastDel ==> KvOk(kc.table[..], flash, Some(Crc32.NameHash(Get(flash, l).key)))
      requires care.gc == Resumable ==> NoGcMark(flash) || flash[l.sec].dirty != Clean
      modifies `flash, `wr, `pd, `log, `trail, `lastDel, sc.table, kc.table
      ensures Base() && Cache() && flash == Marked(old(flash), l, Deleted) && !lastDel
      ensures if old(lastDel) then kc.table[..] == old(kc.table[..]) else Forgotten(Get(old(flash), l).key)
      ensures Gone(old(flash), old(wr), old(pd), old(Model()), l, Hidden(l), wr, pd, Model())
      ensures old(log) <= log && CrashRange(log, |old(log)|, |log|, Model(), care)
    {
      hide Shape, SectorShape, NoGcMark, TwinsClean, Apart, CrashState, MapOf, Indexed, KvOk, KvCache.Wf, Agrees, Taped, Seen, Gone;
      RecordInUse(flash, l);
      StatusApart(flash, l, Deleted);
      DeleteMark(l);
      lastDel := false;
      ghost var f1 := flash;
      MarkDirty(l.sec);
      KvOkDirtied(kc.table[..], f1, l.sec);
    }

    // -------------------------------------------------------------- writing a record

    /** EMPTY becomes USING. A USING sector about to run into the reserve would become FULL; the
        allocation never leaves one in that state. */
    method UpdateSecStatus(info: SecInfo, newLen: nat) returns (isFull: bool)
      requires Base() && Fits(info, flash)
      requires CanHold(flash[info.sec], newLen, gcRequest)
      modifies `flash, `wr, `pd, `log, `trail, sc.table
      ensures Disk() && flash == old(flash)[info.sec := old(flash)[info.sec].(store := Using)]
      ensures Agrees(sc.table[..], flash, gcSec, info.sec)
      ensures wr == old(wr) && pd == old(pd) && Model() == old(Model()) && !isFull
      ensures info.store == Empty ==> Untouched(Now()[info.sec], flash[info.sec])
      ensures old(log) <= log && CrashRange(log, |old(log)|, |log|, Model(), care)
    {
      hide Indexed, Apart, Untouched, Represents, CrashState, Taped, Wrote, MapOf;
      isFull := false;
      assert SectorShape(flash[info.sec]);
      if info.store == Empty {
        ghost var f0, m0 := flash, Now();
        ExecQuiet(OpUsing(info.sec));
        UntouchedAfter(m0, f0, OpUsing(info.sec));
        sc.SetStore(info.sec, Using, f0, flash, gcSec);
      } else if info.store == Using {
        if info.remain < REMAIN_THRESHOLD || info.remain - newLen < REMAIN_THRESHOLD {
          assert false;
        }
      }
    }

    /** Open a record in the sector `info` and program its first `n` words after the status. */
    method OpenRecord(info: SecInfo, key: Key, val: Val, n: nat) returns (isFull: bool)
      requires Base() && Fits(info, flash)
      requires CanHold(flash[info.sec], KvSize(key, val), gcRequest) && |key| < KV_NAME_MAX
      requires n <= Total(Rec(PreWrite, key, val, 0)) && Placeable(flash[info.sec].recs, key, val)
      modifies `flash, `wr, `pd, `log, `trail, sc.table
      ensures Disk() && flash == WithRec(old(flash), info.sec, Rec(PreWrite, key, val, n))
      ensures Agrees(sc.table[..], flash, gcSec, info.sec) && Untouched(Now()[info.sec], flash[info.sec])
      ensures wr == old(wr) && pd == old(pd) && Model() == old(Model()) && !isFull
      ensures old(log) <= log && CrashRange(log, |old(log)|, |log|, Model(), care)
    {
      hide Shape, Indexed, Apart, Untouched, Represents, CrashState, Taped, Wrote, MapOf, Solid, Unpassed, Seen, VeilOk;
      ghost var f0 := flash;
      SpaceInShape(flash, info);
      var blank := flash[info.sec].recs == [] && info.empty == SECTOR_HDR_SIZE + KV_HDR_SIZE;
      isFull := UpdateSecStatus(info, KvSize(key, val));
      ghost var f1, m1, op := flash, Now(), OpBegin(info.sec, key, val, blank);
      BeginFits(f0, info, key, val, blank, gcRequest);
      UntouchedGoes(m1[info.sec], f1, op);
      ExecQuiet(OpBegin(info.sec, key, val, blank));
      UntouchedAfter(m1, f1, op);
      PutWords(info.sec, n);
      WithRecWritten(f0, info.sec, key, val, n);
      AgreesRecs(sc.table[..], f1, flash, gcSec, info.sec);
    }

    /** Program the remaining words of the record at the end of sector `s`, then mark it WRITE. */
    method CloseRecord(s: nat, ghost n: nat, ghost f0: Flash, ghost key: Key, ghost val: Val)
      requires Disk() && s < |f0| && n <= Total(Rec(PreWrite, key, val, 0)) && key !in wr
      requires flash == WithRec(f0, s, Rec(PreWrite, key, val, n)) && Untouched(Now()[s], flash[s])
      requires care.solid ==> Solid(key, val)
      requires care.gc != Any ==> NoGcMark(flash) || flash[s].dirty == Clean
      modifies `flash, `wr, `pd, `log, `trail
      ensures Disk() && flash == WithRec(f0, s, Written(key, val)) && pd == old(pd)
      ensures wr == old(wr)[key := EndOf(flash, s)] && Model() == old(Model())[key := val]
      ensures old(log) < log && CrashRange(log, |old(log)|, |log| - 1, old(Model()), care)
      ensures CrashRange(log, |log| - 1, |log|, Model(), care)
    {
      hide Shape, SectorShape, Indexed, Agrees, KvOk, Apart, CrashState, MapOf, Untouched, Represents, Taped, Solid;
      ghost var f1 := flash;
      var r := flash[s].recs[|flash[s].recs| - 1];
      PutWords(s, Total(r) - r.written);
      WithRecAdvanced(f0, s, key, val, n, Total(r) - n);
      WithRecCommitted(f0, s, key, val);
      Commit(s);
    }

    /** Tell the caches about the record being written, or just written, at the end of sector `info`;
        `f1` is the flash once it is finished. */
    method Publish(info: SecInfo, size: nat, ghost f0: Flash, ghost f1: Flash, ghost key: Key)
      requires Disk() && info.sec < |f0| && info.sec < |f1| == |flash| && flash[info.sec].recs != []
      requires info.empty >= 0 && info.empty + size == End(f1[info.sec])
      requires Agrees(sc.table[..], f1, gcSec, info.sec)
      requires flash == WithRec(f0, info.sec, flash[info.sec].recs[|flash[info.sec].recs| - 1])
      requires flash[info.sec].recs[|flash[info.sec].recs| - 1].key == key
      requires KvCache.Wf(kc.table[..]) && KvOk(kc.table[..], f0, Some(Crc32.NameHash(key)))
      modifies sc.table, kc.table
      ensures Agrees(sc.table[..], f1, gcSec, -1) && KvCache.Wf(kc.table[..])
      ensures KvOk(kc.table[..], flash, Some(Crc32.NameHash(key)))
      ensures KvCache.Cached(kc.table[..], Crc32.NameHash(key), EndOf(flash, info.sec))
    {
      hide Shape, Indexed, Apart, Taped, MapOf, End, Agrees, KvCache.Wf;
      WithRecKeeps(f0, info.sec, flash[info.sec].recs[|flash[info.sec].recs| - 1]);
      sc.SetEmpty(info.sec, info.empty + size, f1, gcSec);
      KvOkMono(kc.table[..], f0, flash, Some(Crc32.NameHash(key)), Some(Crc32.NameHash(key)));
      CacheInsert(Loc(info.sec, |flash[info.sec].recs| - 1), Some(Crc32.NameHash(key)));
    }

    /** Write a new record for `key` into the space found for it, updating the caches before the
        value is programmed. */
    method CreateKvBlob(info: SecInfo, key: Key, val: Val) returns (err: Err)
      requires Base() && Fits(info, flash)
      requires CanHold(flash[info.sec], KvSize(key, val), gcRequest)
      requires Placeable(flash[info.sec].recs, key, val) && (care.solid ==> Solid(key, val))
      requires |key| != KV_NAME_MAX && key !in wr
      requires KvCache.Wf(kc.table[..]) && KvOk(kc.table[..], flash, Some(Crc32.NameHash(key)))
      requires care.gc != Any ==> NoGcMark(flash) || flash[info.sec].dirty == Clean
      modifies `flash, `wr, `pd, `log, `trail, `gcRequest, sc.table, kc.table
      ensures Base() && gcRequest == old(gcRequest)
      ensures pd == old(pd) && err == if |key| > KV_NAME_MAX then NameErr else NoErr
      ensures err == NameErr ==> flash == old(flash) && wr == old(wr) && log == old(log)
      ensures err == NameErr ==> kc.table[..] == old(kc.table[..])
      ensures err == NoErr ==> Cache() && flash == WithRec(old(flash), info.sec, Written(key, val))
      ensures err == NoErr ==> wr == old(wr)[key := EndOf(flash, info.sec)] && Model() == old(Model())[key := val]
      ensures err == NoErr ==> KvCache.Cached(kc.table[..], Crc32.NameHash(key), EndOf(flash, info.sec))
      ensures err == NoErr ==> old(log) < log && CrashRange(log, |old(log)|, |log| - 1, old(Model()), care)
      ensures err == NoErr ==> CrashRange(log, |log| - 1, |log|, Model(), care)
    {
      hide Shape, Indexed, Agrees, KvOk, KvCache.Wf, CrashState, MapOf, CanHold, Apart, Taped, Placeable, Solid, NoGcMark;
      if |key| > KV_NAME_MAX {
        return NameErr;
      }
      SpaceBounded(flash, info, KvSize(key, val), gcRequest);
      if KvSize(key, val) > SEC_SIZE - SECTOR_HDR_SIZE {
        assert false;
      }
      var isFull := WriteRecord(info, key, val);
      if isFull {
        assert false;
      }
      err := NoErr;
    }

    /** Open the record, program its header and name, tell the caches, program the value and commit. */
    method WriteRecord(info: SecInfo, key: Key, val: Val) returns (isFull: bool)
      requires Base() && Fits(info, flash)
      requires CanHold(flash[info.sec], KvSize(key, val), gcRequest)
      requires Placeable(flash[info.sec].recs, key, val) && (care.solid ==> Solid(key, val))
      requires |key| < KV_NAME_MAX && key !in wr
      requires KvCache.Wf(kc.table[..]) && KvOk(kc.table[..], flash, Some(Crc32.NameHash(key)))
      requires care.gc != Any ==> NoGcMark(flash) || flash[info.sec].dirty == Clean
      modifies `flash, `wr, `pd, `log, `trail, sc.table, kc.table
      ensures Base() && Cache() && pd == old(pd) && flash == WithRec(old(flash), info.sec, Written(key, val)) && !isFull
      ensures wr == old(wr)[key := EndOf(flash, info.sec)] && Model() == old(Model())[key := val]
      ensures KvCache.Cached(kc.table[..], Crc32.NameHash(key), EndOf(flash, info.sec))
      ensures old(log) < log && CrashRange(log, |old(log)|, |log| - 1, old(Model()), care)
      ensures CrashRange(log, |log| - 1, |log|, Model(), care)
    {
      hide Shape, SectorShape, Indexed, Agrees, KvOk, KvCache.Wf, CrashState, MapOf;
      hide CanHold, Apart, Taped, Untouched, Solid, End, Placeable, Seen, VeilOk, NoGcMark, KvSize, BodyWords;
      hide KvCache.Cached;
      SpaceInShape(flash, info);
      ghost var f0, n := flash, HDR_BODY_WORDS + WordsFor(|key|);
      WordsOf(key, val);
      isFull := OpenRecord(info, key, val, HDR_BODY_WORDS + WordsFor(|key|));
      NoGcMarkWith(f0, info.sec, Rec(PreWrite, key, val, n));
      PublishNew(info, f0, n, key, val);
      ghost var at := EndOf(flash, info.sec);
      CloseRecord(info.sec, n, f0, key, val);
      KvOkClosed(kc.table[..], f0, info.sec, key, val, n);
      assert EndOf(flash, info.sec) == at;
    }

    /** Tell the caches about the record being written. */
    method PublishNew(info: SecInfo, ghost f0: Flash, ghost n: nat, key: Key, val: Val)
      requires Disk() && Fits(info, f0) && SectorShape(f0[info.sec]) && Placeable(f0[info.sec].recs, key, val)
      requires flash == WithRec(f0, info.sec, Rec(PreWrite, key, val, n)) && Agrees(sc.table[..], flash, gcSec, info.sec)
      requires KvCache.Wf(kc.table[..]) && KvOk(kc.table[..], f0, Some(Crc32.NameHash(key)))
      modifies sc.table, kc.table
      ensures Agrees(sc.table[..], WithRec(f0, info.sec, Written(key, val)), gcSec, -1) && KvCache.Wf(kc.table[..])
      ensures KvOk(kc.table[..], flash, Some(Crc32.NameHash(key)))
      ensures KvCache.Cached(kc.table[..], Crc32.NameHash(key), EndOf(flash, info.sec))
    {
      hide Shape, SectorShape, Indexed, Agrees, MapOf, KvOk, KvCache.Wf, Apart, Taped, Untouched, Solid, End, Placeable, KvSize, BodyWords;
      hide KvCache.Cached, Seen, VeilOk;
      ghost var f1 := WithRec(f0, info.sec, Written(key, val));
      EndExtended(f0[info.sec], Written(key, val));
      AgreesClosed(sc.table[..], f0, info.sec, key, val, n, gcSec);
      Publish(info, KvSize(key, val), f0, f1, key);
    }

    // -------------------------------------------------------------- moving a record

    /** Copy a record into the space found for it, commit it, and tell the caches. */
    method CopyRecord(info: SecInfo, key: Key, val: Val)
      requires Base() && Fits(info, flash)
      requires CanHold(flash[info.sec], KvSize(key, val), gcRequest)
      requires Placeable(flash[info.sec].recs, key, val) && (care.solid ==> Solid(key, val))
      requires |key| < KV_NAME_MAX && key !in wr
      requires KvCache.Wf(kc.table[..]) && KvOk(kc.table[..], flash, Some(Crc32.NameHash(key)))
      requires care.gc != Any ==> NoGcMark(flash) || flash[info.sec].dirty == Clean
      modifies `flash, `wr, `pd, `log, `trail, sc.table, kc.table
      ensures Base() && Cache() && flash == WithRec(old(flash), info.sec, Written(key, val))
      ensures wr == old(wr)[key := EndOf(flash, info.sec)] && pd == old(pd)
      ensures Model() == old(Model())[key := val]
      ensures old(log) < log && CrashRange(log, |old(log)|, |log| - 1, old(Model()), care)
      ensures CrashRange(log, |log| - 1, |log|, Model(), care)
    {
      hide Shape, SectorShape, Indexed, Agrees, CrashState, MapOf, CanHold, KvOk, KvCache.Wf;
      hide Apart, Taped, Untouched, Solid, End, Placeable, KvSize, BodyWords, Seen, VeilOk, NoGcMark;
      hide KvCache.Cached;
      SpaceInShape(flash, info);
      ghost var f0, n := flash, Total(Rec(PreWrite, key, val, 0));
      NoGcMarkWith(flash, info.sec, Rec(PreWrite, key, val, n));
      var isFull := OpenRecord(info, key, val, Total(Rec(PreWrite, key, val, 0)));
      CloseRecord(info.sec, n, f0, key, val);
      PublishCopy(info, f0, n, key, val);
    }

    /** Tell the caches about the copy. */
    method PublishCopy(info: SecInfo, ghost f0: Flash, ghost n: nat, key: Key, val: Val)
      requires Disk() && Fits(info, f0) && SectorShape(f0[info.sec]) && Placeable(f0[info.sec].recs, key, val)
      requires flash == WithRec(f0, info.sec, Written(key, val)) && Is(flash, EndOf(flash, info.sec), Write)
      requires Agrees(sc.table[..], WithRec(f0, info.sec, Rec(PreWrite, key, val, n)), gcSec, info.sec) && (gcSec == -1 || gcRequest)
      requires KvCache.Wf(kc.table[..]) && KvOk(kc.table[..], f0, Some(Crc32.NameHash(key)))
      modifies sc.table, kc.table
      ensures Base() && Cache()
    {
      hide Shape, SectorShape, Indexed, Agrees, MapOf, KvOk, KvCache.Wf, Apart, Taped, Untouched, Solid, End, Placeable, KvSize, BodyWords;
      hide KvCache.Cached, Seen, VeilOk;
      AgreesClosed(sc.table[..], f0, info.sec, key, val, n, gcSec);
      EndExtended(f0[info.sec], Written(key, val));
      Publish(info, KvSize(key, val), f0, flash, key);
      KvOkFill(kc.table[..], flash, Crc32.NameHash(key), EndOf(flash, info.sec));
    }

    /** PRE_DELETE the record to move, unless it already is. */
    method PrepareMove(l: Loc)
      requires Base() && Cache() && !lastDel && (care.veil == None || Hidden(l))
      requires Is(flash, l, Write) || (Is(flash, l, PreDelete) && !Hidden(l))
      requires Is(flash, l, Write) && !Hidden(l) ==> Get(flash, l).key !in pd && (care.lone ==> pd == map[])
      requires care.gc != Any ==> NoGcMark(flash) || flash[l.sec].dirty == DirtyGc
      modifies `flash, `wr, `pd, `log, `trail, `lastDel, sc.table
      ensures Base() && Model() == old(Model()) && flash == Preparing(old(flash), l) && Is(flash, l, PreDelete)
      ensures (old(NoGcMark(flash)) ==> NoGcMark(flash)) && (old(flash)[l.sec].dirty == DirtyGc ==> flash[l.sec].dirty == DirtyGc)
      ensures lastDel == old(Is(flash, l, Write)) && Get(flash, l) == Get(old(flash), l).(status := PreDelete)
      ensures KvOk(kc.table[..], flash, Some(Crc32.NameHash(Get(old(flash), l).key)))
      ensures !Hidden(l) ==> pd == old(pd)[Get(old(flash), l).key := l]
      ensures !Hidden(l) ==> wr == if old(Is(flash, l, Write)) then old(wr) - {Get(old(flash), l).key} else old(wr)
      ensures Hidden(l) ==> wr == old(wr) && pd == old(pd)
      ensures old(Is(flash, l, Write)) ==> old(log) + [SetStatus(old(flash), l, PreDelete)] <= log
      ensures old(Is(flash, l, PreDelete)) ==> pd == old(pd) && log == old(log) && Cache()
      ensures old(log) <= log && CrashRange(log, |old(log)|, |log|, Model(), care)
    {
      hide Shape, SectorShape, TwinsClean, Apart, Agrees, KvOk, KvCache.Wf, CrashState, MapOf, Taped, Seen, VeilOk, Indexed;
      ghost var f0 := flash;
      if flash[l.sec].recs[l.idx].status == Write {
        PrepareDel(l);
      } else {
        SeenNone(flash);
        PdAt(flash, wr, pd, l);
      }
      KvOkPreparing(kc.table[..], f0, l);
    }

    /** Copy a PRE_DELETE record into the space found for it and delete the original. Up to the ghost result
        power losses leave the map as it was, from then on the one with the copy. */
    method MoveInto(l: Loc, info: SecInfo) returns (ghost commit: int)
      requires Base() && Is(flash, l, PreDelete) && Get(flash, l).key !in wr && (care.veil == None || Hidden(l))
      requires Fits(info, flash)
      requires CanHold(flash[info.sec], Size(Get(flash, l)), gcRequest)
      requires KvCache.Wf(kc.table[..]) && KvOk(kc.table[..], flash, Some(Crc32.NameHash(Get(flash, l).key)))
      requires care.gc != Any ==> NoGcMark(flash) || (gcRequest && flash[l.sec].dirty == DirtyGc)
      requires Steady()
      modifies `flash, `wr, `pd, `log, `trail, `lastDel, sc.table, kc.table
      ensures Base() && Cache() && !lastDel && Model() == old(Model())[Get(old(flash), l).key := Get(old(flash), l).val]
      ensures In(old(flash), l) && flash == MovedInto(old(flash), l, info.sec)
      ensures pd == (if Hidden(l) then old(pd) else old(pd) - {Get(old(flash), l).key}) && wr.Keys == old(wr).Keys + {Get(old(flash), l).key}
      ensures !Hidden(l) ==> Model() == old(Model())
      ensures old(log) <= log && CrashRange(log, |old(log)|, commit, old(Model()), care) && CrashRange(log, commit, |log|, Model(), care)
    {
      hide Shape, Index, Agrees, KvOk, Marked, CrashState, MapOf, CanHold;
      hide SlotOk, KvCache.Wf, WithRec, SectorShape, Taped, Placeable, Solid;
      hide Apart, NoGcMark, Lagless, SolidLive, KvSize, Seen;
      var r := flash[l.sec].recs[l.idx];
      ApartSolid(care, View(), wr, pd);
      BeforeMove(flash, l, info.sec, gcRequest);
      if !Hidden(l) {
        SeenNone(flash);
        SameValue(flash, wr, pd, l);
      }
      MovePlaceable(care, flash, l, info.sec);
      CopyRecord(info, r.key, r.val);
      commit := |log| - 1;
      KvOkMono(kc.table[..], flash, flash, None, Some(Crc32.NameHash(r.key)));
      Delete(l);
    }

    /** Copy the record at `l` into the space found for it, unless it was found PRE_DELETE
        (`found`) and recovery sees that its replacement is already there; then delete it. */
    method Relocate(l: Loc, info: SecInfo, found: bool) returns (ghost target: int, ghost commit: int)
      requires Base() && Is(flash, l, PreDelete) && Fits(info, flash) && (care.veil == None || Hidden(l))
      requires CanHold(flash[info.sec], Size(Get(flash, l)), gcRequest)
      requires Get(flash, l).key in wr ==> inRecovery && found
      requires found ==> !lastDel && care.veil == None
      requires KvCache.Wf(kc.table[..]) && KvOk(kc.table[..], flash, Some(Crc32.NameHash(Get(flash, l).key)))
      requires care.gc != Any ==> NoGcMark(flash) || (gcRequest && flash[l.sec].dirty == DirtyGc)
      requires Steady()
      modifies `flash, `wr, `pd, `log, `trail, `lastDel, sc.table, kc.table
      ensures Base() && Cache() && !lastDel
      ensures Model() == if Hidden(l) then old(Model())[Get(old(flash), l).key := Get(old(flash), l).val] else old(Model())
      ensures pd == (if Hidden(l) then old(pd) else old(pd) - {Get(old(flash), l).key}) && wr.Keys == old(wr).Keys + {Get(old(flash), l).key}
      ensures target == if old(Get(flash, l).key in wr) then -1 else info.sec
      ensures flash == if target < 0 then Marked(old(flash), l, Deleted) else MovedInto(old(flash), l, target)
      ensures old(log) <= log && CrashRange(log, |old(log)|, commit, old(Model()), care) && CrashRange(log, commit, |log|, Model(), care)
    {
      hide Shape, NoGcMark, TwinsClean, Apart, SectorShape, Indexed, Agrees, KvOk, MovedInto, Marked, CrashState, MapOf;
      hide CanHold, SlotOk, KvCache.Wf, Taped;
      if inRecovery && found {
        var other := FindKvNoCache(flash[l.sec].recs[l.idx].key);
        if other.Some? {
          Delete(l);
          return -1, |log|;
        }
      }
      commit := MoveInto(l, info);
      target := info.sec;
    }

    /** Move a live record to new space. While recovering, an original whose replacement already
        exists is only deleted, but that too needs room. A replacement whose original is still there is
        marked PRE_DELETE like any other record, and there are two of them until the copy is finished. */
    method MoveKv(l: Loc) returns (err: Err, ghost target: int)
      requires Base() && Cache() && !lastDel && Steady() && care.veil == None
      requires Is(flash, l, Write) || Is(flash, l, PreDelete)
      requires Is(flash, l, Write) ==>
        if Get(flash, l).key in pd then care.gc == Any && !care.lone && flash[l.sec].dirty == DirtyGc else care.lone ==> pd == map[]
      requires Is(flash, l, PreDelete) ==> inRecovery || Get(flash, l).key !in wr
      requires care.gc != Any ==> NoGcMark(flash) || (gcRequest && flash[l.sec].dirty == DirtyGc)
      modifies `flash, `wr, `pd, `log, `trail, `care, `lastDel, `gcRequest, sc.table, kc.table
      ensures Base() && Steady() && old(log) <= log
      ensures !old(Twin(l)) ==> Model() == old(Model()) && care == old(care) && CrashRange(log, |old(log)|, |log|, Model(), care)
      ensures old(Twin(l)) && err == NoErr ==> Model() == old(Model()) && care == old(care)
      ensures old(Twin(l)) && err == NoErr ==> TwinMoved(log, |old(log)|, old(flash), l, old(pd), Model(), care)
      ensures err == NoErr ==> Cache() && !lastDel && gcRequest == old(gcRequest)
      ensures err == NoErr ==> pd == if old(Twin(l)) then old(pd) else old(pd) - {Get(old(flash), l).key}
      ensures err == NoErr ==> wr.Keys == old(wr).Keys + {Get(old(flash), l).key}
      ensures err == NoErr ==> MovedTo(old(flash), l, target, flash, gcRequest)
      ensures err != NoErr ==> NotMoved(old(flash), l, flash, old(gcRequest))
      ensures err != NoErr ==> gcRequest == (old(gcRequest) || |EmptySet(flash)| == 1)
      ensures err != NoErr && old(Is(flash, l, PreDelete)) ==> Cache() && !lastDel && wr == old(wr) && pd == old(pd) && log == old(log)
    {
      hide NoGcMark, Apart, SectorShape, Index, Agrees, KvOk, Preparing, Moved, Chosen, CrashState, MapOf, CrashRange;
      hide CanHold, SlotOk, KvCache.Wf, OutOfSpace, Taped, Lagless, TakesRoom, EmptySet, KvSize, Seen, TwinMoved;
      ghost var f0, p0, m0, c0, n0, twin := flash, pd, Model(), care, |log|, Twin(l);
      SeenNone(flash);
      if twin {
        TwinValue(flash, wr, pd, l);
        Veil(l);
      }
      ghost var m1, c1, log1, commit := Model(), care, [], 0;
      err, target, log1, commit := MoveShown(l);
      if !twin {
        RangeJoin(log1, log, n0, commit, m0, care);
      } else if err == NoErr {
        Unhide(f0, l, target);
        TwinDone(log1, log, n0, commit, f0, l, p0, m0, m1, c0, c1);
      }
    }

    /** Mark the record at `l` PRE_DELETE, find space for it and relocate it. The ghost results are the log once it is
        marked, and where the copy takes effect. */
    method MoveShown(l: Loc) returns (err: Err, ghost target: int, ghost log1: seq<Flash>, ghost commit: int)
      requires Base() && Cache() && !lastDel && Steady() && (care.veil == None || Hidden(l))
      requires Is(flash, l, Write) || (Is(flash, l, PreDelete) && !Hidden(l))
      requires Is(flash, l, Write) && !Hidden(l) ==> Get(flash, l).key !in pd && (care.lone ==> pd == map[])
      requires Hidden(l) ==> Get(flash, l).key !in wr
      requires Is(flash, l, PreDelete) ==> inRecovery || Get(flash, l).key !in wr
      requires care.gc != Any ==> NoGcMark(flash) || (gcRequest && flash[l.sec].dirty == DirtyGc)
      modifies `flash, `wr, `pd, `log, `trail, `lastDel, `gcRequest, sc.table, kc.table
      ensures Base() && Steady()
      ensures Model() == if err == NoErr && Hidden(l) then old(Model())[Get(old(flash), l).key := Get(old(flash), l).val] else old(Model())
      ensures old(log) <= log1 <= log && CrashRange(log1, |old(log)|, |log1|, old(Model()), care)
      ensures old(Is(flash, l, Write)) ==> |log1| > |old(log)| && log1[|old(log)|] == SetStatus(old(flash), l, PreDelete)
      ensures CrashRange(log, |log1|, commit, old(Model()), care) && CrashRange(log, commit, |log|, Model(), care)
      ensures err == NoErr ==> Cache() && !lastDel && gcRequest == old(gcRequest)
      ensures err == NoErr ==> pd == if Hidden(l) then old(pd) else old(pd) - {Get(old(flash), l).key}
      ensures err == NoErr ==> wr.Keys == old(wr).Keys + {Get(old(flash), l).key}
      ensures err == NoErr ==> MovedTo(old(flash), l, target, flash, gcRequest) && (Hidden(l) ==> target >= 0)
      ensures err != NoErr ==> NotMoved(old(flash), l, flash, old(gcRequest))
      ensures err != NoErr ==> gcRequest == (old(gcRequest) || |EmptySet(flash)| == 1)
      ensures err != NoErr && old(Is(flash, l, PreDelete)) ==> Cache() && !lastDel && wr == old(wr) && pd == old(pd) && log == old(log)
    {
      hide NoGcMark, Apart, SectorShape, Indexed, Agrees, KvOk, Preparing, Moved, MovedInto, Marked, CrashState, MapOf, CrashRange;
      hide CanHold, SlotOk, KvCache.Wf, OutOfSpace, Taped, Lagless, TakesRoom, EmptySet, NoRoom, KvSize, Seen, Shape, VeilOk, MovedTo, SolidLive, Solid, Disk, Model;
      ghost var f0 := flash;
      var r := flash[l.sec].recs[l.idx];
      DiskShape();
      MoveSteady(flash, l);
      PrepareMove(l);
      ghost var f1 := flash;
      log1 := log;
      err, target, commit := MovePrepared(l, r.status == PreDelete);
      if err == NoErr {
        MovedToIs(f0, l, f1, target, flash, gcRequest);
        MovedSteady(f0, l, target);
      }
    }

    /** A replacement whose original is still there. */
    ghost predicate Twin(l: Loc)
      reads this
    {
      Is(flash, l, Write) && Get(flash, l).key in pd
    }

    /** Find space for the PRE_DELETE record at `l`, and relocate it; `found` if it was found PRE_DELETE. */
    method MovePrepared(l: Loc, found: bool) returns (err: Err, ghost target: int, ghost commit: int)
      requires Base() && Is(flash, l, PreDelete) && Steady() && (found ==> !lastDel && care.veil == None) && (care.veil == None || Hidden(l))
      requires Get(flash, l).key in wr ==> inRecovery && found
      requires KvCache.Wf(kc.table[..]) && KvOk(kc.table[..], flash, Some(Crc32.NameHash(Get(flash, l).key)))
      requires care.gc != Any ==> NoGcMark(flash) || (gcRequest && flash[l.sec].dirty == DirtyGc)
      modifies `flash, `wr, `pd, `log, `trail, `lastDel, `gcRequest, sc.table, kc.table
      ensures Base()
      ensures Model() == if err == NoErr && Hidden(l) then old(Model())[Get(old(flash), l).key := Get(old(flash), l).val] else old(Model())
      ensures old(log) <= log && CrashRange(log, |old(log)|, commit, old(Model()), care) && CrashRange(log, commit, |log|, Model(), care)
      ensures err == NoErr ==> Cache() && !lastDel && gcRequest == old(gcRequest)
      ensures err == NoErr ==> pd == (if Hidden(l) then old(pd) else old(pd) - {Get(old(flash), l).key})
      ensures err == NoErr ==> wr.Keys == old(wr).Keys + {Get(old(flash), l).key}
      ensures err == NoErr ==> -1 <= target < SECTOR_NUM && (Hidden(l) ==> target >= 0)
      ensures err == NoErr ==> flash == if target < 0 then Marked(old(flash), l, Deleted) else MovedInto(old(flash), l, target)
      ensures err == NoErr && target >= 0 ==> old(flash)[target].ok && CanHold(old(flash)[target], Size(Get(old(flash), l)), gcRequest)
      ensures err == NoErr && target >= 0 ==> gcRequest || old(flash)[target].store == Using || |EmptySet(old(flash))| >= 2
      ensures err == NoErr && target >= 0 && old(flash)[target].store == Empty ==> NoRoom(old(flash), Using, Size(Get(old(flash), l)), gcRequest)
      ensures err == NoErr && !gcRequest ==> TakesRoom(old(flash), Size(Get(old(flash), l)))
      ensures err != NoErr ==> OutOfSpace(flash, Size(Get(old(flash), l)), old(gcRequest))
      ensures err != NoErr ==> gcRequest == (old(gcRequest) || |EmptySet(flash)| == 1)
      ensures err != NoErr ==> flash == old(flash) && wr == old(wr) && pd == old(pd) && log == old(log) && lastDel == old(lastDel)
      ensures err != NoErr ==> kc.table[..] == old(kc.table[..])
    {
      hide NoGcMark, Apart, SectorShape, Index, Agrees, KvOk, MovedInto, Marked, CrashState, MapOf;
      hide CanHold, SlotOk, KvCache.Wf, OutOfSpace, Taped, Lagless, TakesRoom, EmptySet, NoRoom, KvSize, Seen;
      var r := flash[l.sec].recs[l.idx];
      var room, info := AllocKv(Size(r));
      if !room {
        return SavedFull, -1, |log|;
      }
      if !gcRequest { ChosenTakes(flash, info.sec, Size(r)); }
      target, commit := Relocate(l, info, found);
      err := NoErr;
    }

    /** The replacement has moved: it is disregarded no longer. */
    ghost method Unhide(f0: Flash, l: Loc, target: int)
      requires Disk() && Hidden(l) && In(f0, l) && 0 <= target < |f0| && flash == Moved(f0, l, target)
      modifies `care
      ensures Disk() && care == old(care).(veil := None) && Model() == old(Model())
    {
      hide Taped, Indexed, MapOf, Shape, Apart;
      MovedDeleted(f0, l, target);
      Unveil();
    }

    // -------------------------------------------------------------- garbage collection

    /** The four steps of formatting a sector. */
    method EraseSector(s: nat)
      requires Disk() && care.veil == None && s < |flash| && NoLive(flash[s])
      modifies `flash, `wr, `pd, `log, `trail
      ensures Disk() && flash == old(flash)[s := Sector(true, Empty, Clean, [])]
      ensures wr == old(wr) && pd == old(pd) && Model() == old(Model())
      ensures old(log) <= log && CrashRange(log, |old(log)|, |log|, Model(), care)
    {
      hide Shape, Indexed, CrashState, MapOf, NoLive, Apart, Taped, GcOk, Represents, Wrote;
      ghost var f0 := flash;
      ExecQuiet(OpErase(s));
      ExecQuiet(OpHdrStore(s));
      ExecQuiet(OpHdrDirty(s));
      ExecQuiet(OpHdrMagic(s));
      assert flash == f0[s := Sector(true, Empty, Clean, [])];
    }

    /** Erase sector `s` and write a fresh header; its cache entry goes. */
    method FormatSector(s: nat)
      requires Disk() && Agrees(sc.table[..], flash, gcSec, -1) && (gcSec == -1 || gcSec == s)
      requires s < SECTOR_NUM && NoLive(flash[s]) && Cache() && care.veil == None
      modifies `flash, `wr, `pd, `log, `trail, `gcSec, sc.table
      ensures Base() && Cache() && gcSec == -1
      ensures flash == old(flash)[s := Sector(true, Empty, Clean, [])]
      ensures wr == old(wr) && pd == old(pd) && Model() == old(Model())
      ensures old(log) <= log && CrashRange(log, |old(log)|, |log|, Model(), care)
    {
      hide SectorShape, Indexed, Agrees, KvOk, KvCache.Wf, CrashState, MapOf, NoLive, Apart, Taped;
      ghost var f0 := flash;
      EraseSector(s);
      sc.Update(SecInfo(false, StoreUnused, DirtyUnused, s, 0, FAILED_ADDR), f0, gcSec, -1);
      AgreesGone(sc.table[..], f0, flash, s, gcSec);
      gcSec := -1;
      KvOkErased(kc.table[..], f0, s);
    }

    /** The collection from `o`, begun when `log` had `at` entries, marks replacements before their originals of no
        keys but those of `olds`, which maps them to the values of the originals; and as long as it has marked
        none, all of them are still there. */
    ghost predicate Marks(o: nat, olds: map<Key, Val>, at: nat)
      reads this
    {
      OldsCover(olds, flash, wr, pd, o) && (OldsThere(olds, flash, wr, pd, o) || SomeUnindexed(log, at))
    }

    /** Mark sector `s` as being collected. */
    method StartCollecting(s: nat, ghost o: nat, ghost olds: map<Key, Val>, ghost at: nat) returns (ghost room: nat)
      requires Base() && Cache() && gcSec == -1 && gcRequest && GcSafe() && Marks(o, olds, at)
      requires s < SECTOR_NUM && flash[s].ok && (flash[s].dirty == DirtyTrue || flash[s].dirty == DirtyGc)
      requires HasEmpty(flash)
      modifies `flash, `wr, `pd, `log, `trail, `gcSec
      ensures Base() && Cache() && gcSec == s && GcSafe() && Marks(o, olds, at)
      ensures Collected(flash[s], 0) && Room(flash, room, s, 0) && flash == old(flash)[s := old(flash)[s].(dirty := DirtyGc)]
      ensures room < |flash| && Spares(flash, room) == |EmptySet(old(flash))| - 1
      ensures OthersKept(old(flash), flash, s) && flash[s].dirty == DirtyGc && PdKept(old(flash), old(pd), flash, pd)
      ensures wr == old(wr) && pd == old(pd) && Model() == old(Model())
      ensures old(TwinsClean(flash, wr, pd)) ==> TwinsClean(flash, wr, pd)
      ensures old(log) <= log && CrashRange(log, |old(log)|, |log|, Model(), care)
    {
      hide Shape, SectorShape, Indexed, Agrees, KvOk, KvCache.Wf, CrashState, MapOf, Room, Collected, OthersKept, HasEmpty, Apart;
      hide TwinsClean, OldsCover, OldsThere, Unindexed, Lagless, DirtySet, Taped, Represents, Wrote, PdKept;
      ghost var f0 := flash;
      room := StartRoom(flash, wr, pd, s, o, olds);
      AgreesCollect(sc.table[..], flash, s);
      KvOkDirty(kc.table[..], flash, s, DirtyGc);
      ExecQuiet(OpDirty(s, DirtyGc));
      gcSec := s;
      PdDirty(f0, flash, wr, pd, s);
    }

    /** Collect sector `s`, come to from `o`: mark it, move its live records, erase it. A spare EMPTY
        sector at the start is enough for every move to find room. */
    method CollectSector(s: nat, ghost o: nat, ghost olds: map<Key, Val>, ghost at: nat)
      requires Base() && Cache() && !lastDel && gcSec == -1 && gcRequest && GcSafe() && Marks(o, olds, at)
      requires s < SECTOR_NUM && flash[s].ok && (flash[s].dirty == DirtyTrue || flash[s].dirty == DirtyGc)
      requires HasEmpty(flash) && o < SECTOR_NUM && SweptTo(flash, o, s) && at <= |log|
      modifies `flash, `wr, `pd, `log, `trail, `care, `lastDel, `gcRequest, `gcSec, sc.table, kc.table
      ensures Base() && Cache() && !lastDel && gcSec == -1 && gcRequest && GcSafe() && Marks(o, olds, at)
      ensures flash[s] == Sector(true, Empty, Clean, []) && OthersKept(old(flash), flash, s)
      ensures |EmptySet(flash)| >= |EmptySet(old(flash))| + if NoLive(old(flash)[s]) then 1 else 0
      ensures PdKept(old(flash), old(pd), flash, pd) && Model() == old(Model()) && care == old(care)
      ensures old(TwinsClean(flash, wr, pd)) ==> TwinsClean(flash, wr, pd)
      ensures old(log) <= log && MixedRange(log, |old(log)|, |log|, Model(), olds, care)
    {
      hide SectorShape, Indexed, Agrees, KvOk, KvCache.Wf, CrashState, MapOf, Room, Collected, TwinsClean, NoLive, OthersKept, Seen;
      hide NoGcMark, Apart, OldsCover, OldsThere, Unindexed, Lagless, Taped, SweptTo, PdKept, MixedRange, Spares, EmptySet;
      ghost var f0, p0, n0 := flash, pd, |log|;
      ghost var room: nat := StartCollecting(s, o, olds, at);
      MixedOf(log, |old(log)|, |log|, Model(), olds, care);
      SweptKept(f0, flash, o, s);
      var j := 0;
      ghost var n := |flash[s].recs|;
      while j < |flash[s].recs|
        invariant Base() && Cache() && !lastDel && gcSec == s && gcRequest && GcSafe() && Marks(o, olds, at)
        invariant |flash[s].recs| == n && 0 <= j <= n && Collected(flash[s], j)
        invariant Room(flash, room, s, j) && SweptTo(flash, o, s) && care == old(care)
        invariant room < |flash| && Spares(flash, room) == |EmptySet(f0)| - 1
        invariant NoLive(f0[s]) ==> flash == f0[s := f0[s].(dirty := DirtyGc)]
        invariant PdKept(f0, p0, flash, pd) && OthersKept(f0, flash, s)
        invariant Model() == old(Model())
        invariant old(TwinsClean(flash, wr, pd)) ==> TwinsClean(flash, wr, pd)
        invariant old(log) <= log && MixedRange(log, |old(log)|, |log|, Model(), olds, care)
        decreases n - j
      {
        ghost var f1, p1, log1 := flash, pd, log;
        NoneLive(f0, s, j);
        room := CollectRecord(s, j, room, o, olds, at);
        MixedJoin(log1, log, n0, Model(), olds, care);
        OthersKeptTrans(f0, f1, flash, s);
        PdKeptTrans(f0, p0, f1, p1, flash, pd);
        SweptKept(f1, flash, o, s);
        j := j + 1;
      }
      ghost var log2 := log;
      CollectedMark(flash[s], n);
      FormatSpares(f0, flash, s, room);
      FinishCollecting(s, o, olds, at, f0, p0);
      MixedJoin(log2, log, n0, Model(), olds, care);
    }

    /** Format the sector collected. */
    method FinishCollecting(s: nat, ghost o: nat, ghost olds: map<Key, Val>, ghost at: nat, ghost f0: Flash, ghost p0: map<Key, Loc>)
      requires Base() && Cache() && gcSec == s && gcRequest && GcSafe() && Marks(o, olds, at) && at <= |log|
      requires s < SECTOR_NUM == |f0| && Collected(flash[s], |flash[s].recs|) && OthersKept(f0, flash, s) && PdKept(f0, p0, flash, pd)
      modifies `flash, `wr, `pd, `log, `trail, `gcSec, sc.table
      ensures Base() && Cache() && gcSec == -1 && GcSafe() && Marks(o, olds, at)
      ensures flash == old(flash)[s := Sector(true, Empty, Clean, [])] && OthersKept(f0, flash, s) && PdKept(f0, p0, flash, pd)
      ensures Model() == old(Model()) && (old(TwinsClean(flash, wr, pd)) ==> TwinsClean(flash, wr, pd))
      ensures old(log) <= log && MixedRange(log, |old(log)|, |log|, Model(), olds, care)
    {
      hide SectorShape, Indexed, Agrees, KvOk, KvCache.Wf, CrashState, MapOf, Collected, TwinsClean, NoLive, OthersKept;
      hide NoGcMark, Apart, OldsCover, OldsThere, Unindexed, Lagless, Taped, PdKept, MixedRange;
      CollectedNoLive(flash[s]);
      OthersKeptFormat(f0, flash, s);
      FormatTwins(flash, s, wr, pd, o, olds);
      PdFormat(f0, p0, flash, wr, pd, s);
      ghost var n2 := |log|;
      FormatSector(s);
      MixedOf(log, n2, |log|, Model(), olds, care);
    }

    /** Move the record at position `j` of the sector being collected, if it is live. */
    method CollectRecord(s: nat, j: nat, ghost room: nat, ghost o: nat, ghost olds: map<Key, Val>, ghost at: nat) returns (ghost room': nat)
      requires Base() && Cache() && !lastDel && gcSec == s && gcRequest && GcSafe() && Marks(o, olds, at)
      requires s < SECTOR_NUM && j < |flash[s].recs| && Collected(flash[s], j) && Room(flash, room, s, j)
      requires o < SECTOR_NUM && SweptTo(flash, o, s) && at <= |log|
      modifies `flash, `wr, `pd, `log, `trail, `care, `lastDel, `gcRequest, sc.table, kc.table
      ensures Base() && Cache() && !lastDel && gcRequest && GcSafe() && Marks(o, olds, at)
      ensures |flash[s].recs| == |old(flash)[s].recs| && Collected(flash[s], j + 1) && Room(flash, room', s, j + 1)
      ensures PdKept(old(flash), old(pd), flash, pd) && Model() == old(Model()) && care == old(care)
      ensures OthersKept(old(flash), flash, s)
      ensures room < |old(flash)| && room' < |flash| && Spares(flash, room') == Spares(old(flash), room)
      ensures old(!Is(flash, Loc(s, j), Write) && !Is(flash, Loc(s, j), PreDelete)) ==> flash == old(flash)
      ensures old(TwinsClean(flash, wr, pd)) ==> TwinsClean(flash, wr, pd)
      ensures old(log) <= log && MixedRange(log, |old(log)|, |log|, Model(), olds, care)
    {
      hide Apart, Taped, TwinsClean, OldsCover, OldsThere, Unindexed, Lagless, Agrees, KvOk, KvCache.Wf, NoGcMark, OldOrNew, MapOf, Index;
      if flash[s].recs[j].status == Write || flash[s].recs[j].status == PreDelete {
        room' := CollectLive(s, j, room, o, olds, at);
      } else {
        OffMono(flash[s].recs, j, j + 1);
        assert OthersKept(flash, flash, s);
        PdSame(flash, wr, pd);
        room' := room;
      }
    }

    method CollectLive(s: nat, j: nat, ghost room: nat, ghost o: nat, ghost olds: map<Key, Val>, ghost at: nat) returns (ghost room': nat)
      requires Base() && Cache() && !lastDel && gcSec == s && gcRequest && GcSafe() && Marks(o, olds, at)
      requires s < SECTOR_NUM && j < |flash[s].recs| && Collected(flash[s], j) && Room(flash, room, s, j)
      requires Is(flash, Loc(s, j), Write) || Is(flash, Loc(s, j), PreDelete)
      requires o < SECTOR_NUM && SweptTo(flash, o, s) && at <= |log|
      modifies `flash, `wr, `pd, `log, `trail, `care, `lastDel, `gcRequest, sc.table, kc.table
      ensures Base() && Cache() && !lastDel && gcRequest && GcSafe() && Marks(o, olds, at)
      ensures |flash[s].recs| == |old(flash)[s].recs| && Collected(flash[s], j + 1) && Room(flash, room', s, j + 1)
      ensures PdKept(old(flash), old(pd), flash, pd) && Model() == old(Model()) && care == old(care)
      ensures OthersKept(old(flash), flash, s)
      ensures room < |old(flash)| && room' < |flash| && Spares(flash, room') == Spares(old(flash), room)
      ensures old(TwinsClean(flash, wr, pd)) ==> TwinsClean(flash, wr, pd)
      ensures old(log) <= log && MixedRange(log, |old(log)|, |log|, Model(), olds, care)
    {
      hide NoGcMark, Apart, OthersKept, SectorShape, Indexed, TwinsClean, Agrees, KvOk, KvCache.Wf, CrashState, MapOf;
      hide OutOfSpace, Preparing, Moved, Room, Collected, Chosen, Size, OldsCover, OldsThere, Lagless, Taped, SweptTo, PdKept, Placeable;
      hide Unindexed, OldOrNew, TwinMoved, CrashRange, MixedRange;
      ghost var f0, w0, p0, n0, twin := flash, wr, pd, |log|, Twin(Loc(s, j));
      ApartSolid(care, flash, wr, pd);
      RoomHolds(flash, room, s, j);
      RecordInUse(flash, Loc(s, j));
      LiveMovable(flash, wr, pd, o, s, j, inRecovery, olds, care);
      var err, target := MoveKv(Loc(s, j));
      assert err == NoErr;
      room' := LiveMoved(f0, flash, s, j, target, room, w0, p0, wr, pd, o, olds, care.solid);
      if twin {
        TwinMixed(log, n0, f0, Loc(s, j), w0, p0, Model(), olds, care, at);
      } else {
        MixedOf(log, n0, |log|, Model(), olds, care);
        SomeKept(old(log), log, at);
      }
    }

    /** One step of a collection from `o`: collect a dirty sector, then see whether the sector emptied
        before it has enough space. */
    method GcStep(s: nat, lastGc: nat, freeSize: nat, ghost o: nat, ghost olds: map<Key, Val>, ghost at: nat) returns (lastGc': nat, done: bool)
      requires Base() && Cache() && !lastDel && gcSec == -1 && gcRequest && GcSafe() && Marks(o, olds, at) && HasEmpty(flash)
      requires s < SECTOR_NUM && lastGc < SECTOR_NUM && o < SECTOR_NUM && SweptTo(flash, o, s) && at <= |log|
      modifies `flash, `wr, `pd, `log, `trail, `care, `lastDel, `gcRequest, `gcSec, `oldest, sc.table, kc.table
      ensures Base() && Cache() && !lastDel && gcSec == -1 && gcRequest && GcSafe() && Marks(o, olds, at) && HasEmpty(flash)
      ensures PdKept(old(flash), old(pd), flash, pd) && Model() == old(Model()) && care == old(care) && lastGc' < SECTOR_NUM
      ensures s in DirtySet(old(flash)) ==>
        && flash[s] == Sector(true, Empty, Clean, []) && OthersKept(old(flash), flash, s)
        && |EmptySet(flash)| >= |EmptySet(old(flash))| + (if NoLive(old(flash)[s]) then 1 else 0)
        && lastGc' == s && oldest == RingAt(s, 1) && done == (flash[lastGc].ok && SEC_SIZE - End(flash[lastGc]) > freeSize)
      ensures s !in DirtySet(old(flash)) ==>
        flash == old(flash) && wr == old(wr) && pd == old(pd) && lastGc' == lastGc && oldest == old(oldest) && !done
      ensures old(TwinsClean(flash, wr, pd)) ==> TwinsClean(flash, wr, pd)
      ensures old(log) <= log && MixedRange(log, |old(log)|, |log|, Model(), olds, care)
    {
      hide Apart, Taped, TwinsClean, OldsCover, OldsThere, SomeUnindexed, Lagless, KvOk, KvCache.Wf, NoGcMark, MixedRange;
      hide Indexed, MapOf, CrashState, End, OthersKept, SweptTo, PdKept, Seen, VeilOk, Absent, NoLive, EmptySet, SectorShape;
      SeenNone(flash);
      PdSame(flash, wr, pd);
      NoneLeft(log, Model(), olds, care);
      lastGc', done := lastGc, false;
      var info := ReadSectorInfo(s, false);
      if info.ok && (info.dirty == DirtyTrue || info.dirty == DirtyGc) {
        CollectSector(s, o, olds, at);
        lastGc' := s;
        oldest := if s + 1 < SECTOR_NUM then s + 1 else 0;
        var last := ReadSectorInfo(lastGc, true);
        done := last.ok && last.remain > freeSize;
        assert IsEmpty(flash[s]);
      }
    }

    /** Collect dirty sectors from the oldest on, when at most one EMPTY sector is left, until the
        sector emptied before the last one has more than `freeSize` bytes. A collection of all of them leaves
        a flash with two PRE_DELETE records of one key, at some point, if and only if it meets the replacement of
        a record before that record (`olds` has the values of these). */
    method GcCollect(freeSize: nat) returns (ghost olds: map<Key, Val>)
      requires Base() && Cache() && !lastDel && gcSec == -1 && gcRequest && GcSafe() && HasEmpty(flash)
      modifies `flash, `wr, `pd, `log, `trail, `care, `lastDel, `gcRequest, `gcSec, `oldest, sc.table, kc.table
      ensures Base() && Cache() && !lastDel && gcSec == -1 && !gcRequest && HasEmpty(flash) && GcSafe() && care == old(care)
      ensures PdKept(old(flash), old(pd), flash, pd) && Model() == old(Model())
      ensures TornKept(old(flash), flash) && (old(NoGcMark(flash)) ==> NoGcMark(flash))
      ensures |EmptySet(old(flash))| > 1 || DirtySet(old(flash)) == {} ==>
        flash == old(flash) && wr == old(wr) && pd == old(pd) && oldest == old(oldest)
      ensures |EmptySet(old(flash))| <= 1 ==> Collects(old(flash), old(oldest), freeSize, flash, oldest) && DirtyLess(old(flash), flash)
      ensures |EmptySet(old(flash))| <= 1 && freeSize >= SEC_SIZE ==> DirtySet(flash) == {}
      ensures |EmptySet(old(flash))| <= 1 && freeSize >= SEC_SIZE ==> CleanPd(old(flash), old(pd), pd)
      ensures |EmptySet(old(flash))| <= 1 && freeSize >= SEC_SIZE ==> (SomeUnindexed(log, |old(log)|) <==> Misordered(old(flash), old(oldest)))
      ensures old(TwinsClean(flash, wr, pd)) ==> TwinsClean(flash, wr, pd)
      ensures olds == Olds(old(flash), old(wr), old(pd), old(oldest)) && (olds == map[] <==> !Misordered(old(flash), old(oldest)))
      ensures old(log) <= log && MixedRange(log, |old(log)|, |log|, Model(), olds, care)
    {
      hide Indexed, Agrees, KvOk, KvCache.Wf, CrashState, MapOf, TwinsClean, HasEmpty;
      hide SectorShape, NoGcMark, Apart, DirtySet, EmptySet, OthersKept, TornKept, Swept;
      hide OldsCover, OldsThere, SomeUnindexed, Lagless, Taped, PdKept, SweptTo, MixedRange, Olds, Misordered, Collects, LastEmpty, DirtyLess, CleanPd;
      var empties: nat, lastGc: nat := CountEmpty();
      ghost var at := |log|;
      olds := Olds(flash, wr, pd, oldest);
      OldsStart(flash, wr, pd, oldest);
      PdSame(flash, wr, pd);
      NoneLeft(log, Model(), olds, care);
      GcStart(flash, oldest);
      if empties <= 1 {
        ghost var o := oldest;
        SomeEmpty(flash);
        GcSweep(lastGc, freeSize, olds);
        if freeSize >= SEC_SIZE { MarksEnd(flash, wr, pd, o, olds, log, at, Model(), care); }
      }
      gcRequest := false;
    }

    /** Step through the sectors from the oldest on, until a step says to stop. */
    method GcSweep(last: nat, freeSize: nat, ghost olds: map<Key, Val>)
      requires Base() && Cache() && !lastDel && gcSec == -1 && gcRequest && GcSafe() && HasEmpty(flash)
      requires last < SECTOR_NUM && IsEmpty(flash[last]) && LastEmpty(flash, oldest, SECTOR_NUM, last)
      requires Marks(oldest, olds, |log|)
      modifies `flash, `wr, `pd, `log, `trail, `care, `lastDel, `gcRequest, `gcSec, `oldest, sc.table, kc.table
      ensures Base() && Cache() && !lastDel && gcSec == -1 && gcRequest && HasEmpty(flash) && GcSafe() && care == old(care)
      ensures Marks(old(oldest), olds, |old(log)|)
      ensures PdKept(old(flash), old(pd), flash, pd) && Model() == old(Model())
      ensures TornKept(old(flash), flash) && (old(NoGcMark(flash)) ==> NoGcMark(flash))
      ensures DirtySet(old(flash)) == {} ==> flash == old(flash) && wr == old(wr) && pd == old(pd) && oldest == old(oldest)
      ensures Collects(old(flash), old(oldest), freeSize, flash, oldest) && DirtyLess(old(flash), flash)
      ensures freeSize >= SEC_SIZE ==> DirtySet(flash) == {} && CleanPd(old(flash), old(pd), pd)
      ensures old(TwinsClean(flash, wr, pd)) ==> TwinsClean(flash, wr, pd)
      ensures old(log) <= log && MixedRange(log, |old(log)|, |log|, Model(), olds, care)
    {
      hide Indexed, Agrees, KvOk, KvCache.Wf, CrashState, MapOf, TwinsClean, HasEmpty;
      hide SectorShape, NoGcMark, Apart, DirtySet, OthersKept, TornKept, Swept, CleanPd, Sweeps, Collects, LastEmpty, NoLive, EmptySet, DirtyLess;
      hide OldsCover, OldsThere, SomeUnindexed, Lagless, Taped, PdKept, SweptTo, MixedRange;
      ghost var at := |log|;
      GcStart(flash, oldest);
      PdSame(flash, wr, pd);
      NoneLeft(log, Model(), olds, care);
      SweepStart(flash, oldest, last, freeSize);
      var start: nat, lastGc: nat, i: nat, done := oldest, last, 0, false;
      while i < SECTOR_NUM && !done
        invariant 0 <= i <= SECTOR_NUM && lastGc < SECTOR_NUM && start < SECTOR_NUM
        invariant Base() && Cache() && !lastDel && gcSec == -1 && gcRequest && GcSafe() && Marks(start, olds, at) && HasEmpty(flash)
        invariant TornKept(old(flash), flash) && (old(NoGcMark(flash)) ==> NoGcMark(flash))
        invariant Swept(old(flash), flash, start, i) && care == old(care)
        invariant Sweeps(old(flash), start, last, freeSize, i, flash, oldest, lastGc, done)
        invariant DirtySet(old(flash)) == {} ==> flash == old(flash) && wr == old(wr) && pd == old(pd) && oldest == start
        invariant PdKept(old(flash), old(pd), flash, pd) && Model() == old(Model())
        invariant old(TwinsClean(flash, wr, pd)) ==> TwinsClean(flash, wr, pd)
        invariant old(log) <= log && MixedRange(log, at, |log|, Model(), olds, care)
      {
        ghost var f1, p1, log1, o1, x1 := flash, pd, log, oldest, lastGc;
        SweptIs(old(flash), flash, start, i);
        lastGc, done := GcStep(RingAt(start, i), lastGc, freeSize, start, olds, at);
        MixedJoin(log1, log, at, Model(), olds, care);
        GcSwept(old(flash), f1, flash, start, i);
        SweepNext(old(flash), start, last, freeSize, i, f1, o1, x1, flash, oldest, done);
        PdKeptTrans(old(flash), old(pd), f1, p1, flash, pd);
        i := i + 1;
      }
      SweepEnd(old(flash), start, last, freeSize, i, flash, oldest, lastGc, done);
      CollectsLess(old(flash), start, freeSize, flash, oldest);
      if freeSize >= SEC_SIZE { PdGone(old(flash), old(pd), flash, wr, pd); }
    }

    // -------------------------------------------------------------- set, delete, get

    /** Between operations: nothing half done, and a spare EMPTY sector. */
    ghost predicate Ready()
      reads this, sc.table, kc.table
    {
      && Served() && !gcRequest && !inRecovery
      && pd == map[] && HasEmpty(flash) && (care.gc != Any ==> NoGcMark(flash)) && Steady()
    }

    /** Lookups are answered, also when a boot stopped early. */
    ghost predicate Served()
      reads this, sc.table, kc.table
    {
      Base() && Cache() && !lastDel && gcSec == -1 && care.veil == None
    }

    /** The map lookups answer from: the WRITE records. */
    ghost function Lookup(): map<Key, Val>
      reads this
      requires Disk() && care.veil == None
    {
      WritesOf(flash, wr)
    }

    /** Before a collection, what is left behind may be in the middle of one. */
    ghost method Ease()
      requires Ready()
      modifies `care
      ensures Ready() && Eased(old(care), care) && care.gc != Calm
    {
      hide Indexed, Taped, Agrees, KvOk, KvCache.Wf;
      if care.gc == Calm {
        ApartWeaker(care, care.(gc := Resumable), flash, wr, pd);
        care := care.(gc := Resumable);
      }
    }

    /** With no collection under way, what is left behind from here on is in none. */
    ghost method Renew()
      requires Ready() && NoGcMark(flash)
      modifies `care
      ensures Ready() && care == Care(Calm, old(care).solid, true, None)
    {
      hide Indexed, Taped, Agrees, KvOk, KvCache.Wf, NoGcMark;
      care := Care(Calm, care.solid, true, None);
    }

    /** Find room for a record, collecting garbage once if that is what it takes. */
    method NewKv(size: nat) returns (found: bool, info: SecInfo)
      requires Ready()
      modifies `flash, `wr, `pd, `log, `trail, `care, `lastDel, `gcRequest, `gcSec, `oldest, sc.table, kc.table
      ensures Ready() && Model() == old(Model()) && Eased(old(care), care)
      ensures found ==> Fits(info, flash) && CanHold(flash[info.sec], size, false)
      ensures found ==> info.store == Using || |EmptySet(flash)| >= 2
      ensures found ==> FirstRoom(flash, oldest, info.sec, size) && Spaced(old(flash), old(oldest), size, flash, oldest)
      ensures !OutOfSpace(old(flash), size, false) ==> found
      ensures !found ==> Refused(old(flash), flash, size)
      ensures old(log) <= log && CrashRange(log, |old(log)|, |log|, Model(), care)
    {
      hide Indexed, Taped, Agrees, KvOk, KvCache.Wf, NoGcMark, Apart, CrashState, MapOf, Lagless, CanHold, EmptySet, HasEmpty, DirtySet;
      hide Shape, VeilOk, TornKept, CleanPd, DirtyLess, Misordered, SomeUnindexed, OldOrNew, OutOfSpace, Fits, Collects, Refused, NoRoom, NoRoomBefore, FirstRoom;
      NoTwins(flash, wr, pd);
      Ease();
      found, info := AllocKv(size);
      RoomFound(flash, found, info, size);
      if !found && gcRequest {
        ghost var n, f0, o0 := |log|, flash, oldest;
        NoTwins(flash, wr, pd);
        ghost var olds := GcCollect(size);
        MixedNone(log, n, |log|, Model(), care);
        found, info := AllocKv(size);
        if !found { RefusedWhen(f0, o0, size, flash, oldest); }
        gcRequest := false;
      }
      DiskShape();
      if found { FirstFound(flash, oldest, info, size); }
    }

    /** Set `key` to `val`. The ghost result is the commit point: power lost before it leaves the
        old map, after it the new one. */
    method SetKv(key: Key, val: Val) returns (err: Err, ghost commit: int)
      requires Ready() && |key| != KV_NAME_MAX && NoClash(Model(), key) && (care.solid ==> Solid(key, val))
      modifies `flash, `wr, `pd, `log, `trail, `care, `lastDel, `gcRequest, `gcSec, `oldest, sc.table, kc.table
      ensures Ready() && Eased(old(care), care)
      ensures err == NoErr ==> |key| < KV_NAME_MAX && Model() == old(Model())[key := val]
      ensures err != NoErr ==> Model() == old(Model())
      ensures err == NameErr ==> |key| > KV_NAME_MAX && Spaced(old(flash), old(oldest), KvSize(key, val), flash, oldest)
      ensures err == NoErr ==> Stored(old(flash), old(oldest), key, val, flash, oldest)
      ensures err == NoErr ==> key in wr && KvCache.Cached(kc.table[..], Crc32.NameHash(key), wr[key])
      ensures err == SavedFull ==> Refused(old(flash), flash, KvSize(key, val))
      ensures !OutOfSpace(old(flash), KvSize(key, val), false) ==> err != SavedFull
      ensures AllGarbage(old(flash)) && |EmptySet(old(flash))| == 1 && Fitting(KvSize(key, val)) ==> err != SavedFull
      ensures old(log) <= log && CrashRange(log, |old(log)|, commit, old(Model()), care)
      ensures CrashRange(log, commit, |log|, Model(), care)
    {
      hide Shape, Index, Taped, Agrees, KvOk, KvCache.Wf, NoGcMark, Apart, CrashState, MapOf;
      hide Lagless, CanHold, EmptySet, HasEmpty, Solid, KvSize, OutOfSpace, Fits, NoClash, WritesOf, Refused, AllGarbage, FirstRoom, Spaced, StoredFrom, Marked, WithRec;
      DiskShape();
      ghost var m, f0, o0 := Model(), flash, oldest;
      var found, info := NewKv(KvSize(key, val));
      ghost var f1, w1 := flash, wr;
      SeenNone(flash);
      DiskShape();
      if key in wr { RecordIn(flash, wr, pd, key); }
      if !found {
        if AllGarbage(f0) && |EmptySet(f0)| == 1 && Fitting(KvSize(key, val)) { GarbageTaken(f0, flash, KvSize(key, val)); }
        return SavedFull, |log|;
      }
      WritesAll(flash, wr, pd);
      ClashFree(flash, wr, key);
      var old_kv := FindKv(key);
      if old_kv.Some? {
        FoundShort(flash, wr, key);
        err, commit := ReplaceKv(old_kv.value, info, key, val);
      } else {
        err, commit := InsertKv(info, key, val);
      }
      if gcRequest {
        assert false;
      }
      if err == NoErr { StoredBy(f0, o0, f1, w1, oldest, info.sec, key, val, flash); }
    }

    /** Set a key that has no record. */
    method InsertKv(info: SecInfo, key: Key, val: Val) returns (err: Err, ghost commit: int)
      requires Ready() && |key| != KV_NAME_MAX && key !in wr && Fits(info, flash)
      requires CanHold(flash[info.sec], KvSize(key, val), false) && (care.solid ==> Solid(key, val))
      requires info.store == Using || |EmptySet(flash)| >= 2
      modifies `flash, `wr, `pd, `log, `trail, `gcRequest, sc.table, kc.table
      ensures Ready() && err == if |key| > KV_NAME_MAX then NameErr else NoErr
      ensures Model() == if err == NoErr then old(Model())[key := val] else old(Model())
      ensures flash == if err == NoErr then WithRec(old(flash), info.sec, Written(key, val)) else old(flash)
      ensures err == NoErr ==> key in wr && KvCache.Cached(kc.table[..], Crc32.NameHash(key), wr[key])
      ensures old(log) <= log && CrashRange(log, |old(log)|, commit, old(Model()), care)
      ensures CrashRange(log, commit, |log|, Model(), care)
    {
      hide Shape, Indexed, Taped, Agrees, KvCache.Wf, Apart, CrashState, MapOf;
      hide CanHold, EmptySet, HasEmpty, Solid, KvSize, WithRec, Written;
      NewPlaceable(flash, info.sec, key, val, care.solid);
      WithRecSteady(flash, info.sec, key, val);
      EmptyKept(flash, info.sec, Written(key, val));
      NoGcMarkWith(flash, info.sec, Written(key, val));
      KvOkMono(kc.table[..], flash, flash, None, Some(Crc32.NameHash(key)));
      err := CreateKvBlob(info, key, val);
      commit := if err == NoErr then |log| - 1 else |log|;
    }

    /** Set a key that has a record: PRE_DELETE it, write the new one, delete it. */
    method ReplaceKv(l: Loc, info: SecInfo, key: Key, val: Val) returns (err: Err, ghost commit: int)
      requires Ready() && |key| < KV_NAME_MAX && key in wr && wr[key] == l && Fits(info, flash)
      requires CanHold(flash[info.sec], KvSize(key, val), false) && (care.solid ==> Solid(key, val))
      requires info.store == Using || |EmptySet(flash)| >= 2
      modifies `flash, `wr, `pd, `log, `trail, `lastDel, `gcRequest, sc.table, kc.table
      ensures Ready() && err == NoErr && Model() == old(Model())[key := val]
      ensures flash == Replacing(old(flash), l, info.sec, key, val)
      ensures key in wr && KvCache.Cached(kc.table[..], Crc32.NameHash(key), wr[key])
      ensures old(log) <= log && CrashRange(log, |old(log)|, commit, old(Model()), care)
      ensures CrashRange(log, commit, |log|, Model(), care)
    {
      hide Shape, Indexed, Agrees, KvOk, KvCache.Wf, CrashState, MapOf, CanHold, Fits, HasEmpty, EmptySet, WithRec, Written, Placeable;
      hide KvSize, NoGcMark, Apart, Taped, Lagless, Solid;
      SeenNone(flash);
      DiskShape();
      RecordIn(flash, wr, pd, key);
      ghost var f0 := flash;
      ReplacingIs(f0, l, info, key, val);
      PrepareReplace(l, info, key, val);
      err := CreateKvBlob(info, key, val);
      commit := |log| - 1;
      FinishReplace(l, key);
    }

    method PrepareReplace(l: Loc, info: SecInfo, key: Key, val: Val)
      requires Ready() && key in wr && wr[key] == l && Fits(info, flash)
      requires CanHold(flash[info.sec], KvSize(key, val), false) && (care.solid ==> Solid(key, val))
      requires info.store == Using || |EmptySet(flash)| >= 2
      modifies `flash, `wr, `pd, `log, `trail, `lastDel, sc.table
      ensures Base() && lastDel && KvOk(kc.table[..], flash, Some(Crc32.NameHash(key)))
      ensures key !in wr && pd == map[key := l] && flash == Marked(old(flash), l, PreDelete)
      ensures Fits(info, flash) && CanHold(flash[info.sec], KvSize(key, val), false) && Placeable(flash[info.sec].recs, key, val)
      ensures HasEmpty(WithRec(flash, info.sec, Written(key, val))) && Is(WithRec(flash, info.sec, Written(key, val)), l, PreDelete)
      ensures care.solid || Lagless(WithRec(flash, info.sec, Written(key, val)))
      ensures Get(WithRec(flash, info.sec, Written(key, val)), l).key == key
      ensures care.gc != Any ==> NoGcMark(flash) && NoGcMark(WithRec(flash, info.sec, Written(key, val)))
      ensures Model() == old(Model())
      ensures old(log) <= log && CrashRange(log, |old(log)|, |log|, Model(), care)
    {
      hide SectorShape, Index, Agrees, CrashState, MapOf, CanHold, HasEmpty, EmptySet, KvOk;
      hide Apart, TwinsClean, NoGcMark, Taped, Lagless, Solid, Placeable, WithRec, KvSize;
      ghost var f0 := flash;
      WriteOf(flash, wr, key);
      RecordInUse(flash, l);
      MarkedFits(flash, l, PreDelete, info, KvSize(key, val));
      PrepareDel(l);
      KvOkPreparing(kc.table[..], f0, l);
      EmptyKept(flash, info.sec, Written(key, val));
      WithRecKeeps(flash, info.sec, Written(key, val));
      NoGcMarkKept(f0, l, PreDelete, info.sec, Written(key, val));
      if Lagless(f0) { MarkedLagless(f0, l, PreDelete); }
      NewPlaceable(flash, info.sec, key, val, care.solid);
      WithRecSteady(flash, info.sec, key, val);
    }

    method FinishReplace(l: Loc, ghost key: Key)
      requires Base() && Cache() && lastDel && gcSec == -1 && !gcRequest && !inRecovery && HasEmpty(flash) && Steady() && care.veil == None
      requires Is(flash, l, PreDelete) && Get(flash, l).key == key && key in wr && pd == map[key := l]
      requires care.gc != Any ==> NoGcMark(flash)
      modifies `flash, `wr, `pd, `log, `trail, `lastDel, sc.table, kc.table
      ensures Ready() && Model() == old(Model()) && flash == Marked(old(flash), l, Deleted)
      ensures kc.table[..] == old(kc.table[..]) && wr == old(wr)
      ensures old(log) <= log && CrashRange(log, |old(log)|, |log|, Model(), care)
    {
      hide Shape, SectorShape, Indexed, Agrees, KvOk, KvCache.Wf, CrashState, MapOf, HasEmpty, NoGcMark, Apart, Taped, Lagless;
      MarkedEmpty(flash, l, Deleted);
      NoGcMarkKept(flash, l, Deleted, 0, BLANK);
      if Lagless(flash) { MarkedLagless(flash, l, Deleted); }
      Delete(l);
      assert pd == map[];
    }

    /** Delete `key`: its WRITE record becomes DELETED in one step, or there is nothing to do. The deletion is still
        there after a power loss if and only if the key has no PRE_DELETE record, which a boot that stopped early may
        have left; the next boot finds that one's value. */
    method KvDel(key: Key) returns (err: Err)
      requires Served() && (care.gc == Resumable ==> NoGcMark(flash)) && NoClash(Lookup(), key)
      modifies `flash, `wr, `pd, `log, `trail, `lastDel, sc.table, kc.table
      ensures Served() && (old(Ready()) ==> Ready()) && Lookup() == old(Lookup()) - {key}
      ensures err == if key in old(Lookup()) then NoErr else NameErr
      ensures key in old(Lookup()) ==> Forgotten(key)
      ensures DeletedIn(old(flash), key, err == NoErr, flash)
      ensures Model() == Without(old(flash), old(pd), old(Model()), key) && (key in Model() <==> HasOld(old(flash), key))
      ensures old(log) <= log && CrashRange(log, |old(log)|, |log|, Model(), care)
    {
      hide Index, Agrees, KvOk, KvCache.Wf, CrashState, MapOf, HasEmpty, NoGcMark, Apart, Taped, Lagless, NoClash, WritesOf, HasOld, Without;
      ClashFree(flash, wr, key);
      PdHolds(flash, wr, pd, key);
      WritesKeys(flash, wr);
      var l := FindKv(key);
      if l == None {
        MapIs(flash, wr, pd, key);
        assert Lookup() - {key} == Lookup();
        return NameErr;
      }
      WriteOf(flash, wr, key);
      WithoutIs(flash, wr, pd, Model(), key);
      ghost var f0 := flash;
      DeleteFound(l.value);
      DeletedAt(f0, l.value, flash);
      err := NoErr;
    }

    method DeleteFound(l: Loc)
      requires Served() && (care.gc == Resumable ==> NoGcMark(flash)) && Is(flash, l, Write)
      modifies `flash, `wr, `pd, `log, `trail, `lastDel, sc.table, kc.table
      ensures Served() && (old(Ready()) ==> Ready()) && pd == old(pd)
      ensures var k := Get(old(flash), l).key;
        && wr == old(wr) - {k} && Lookup() == old(Lookup()) - {k}
        && Model() == Without(old(flash), old(pd), old(Model()), k)
      ensures flash == Marked(old(flash), l, Deleted)
      ensures Forgotten(Get(old(flash), l).key)
      ensures old(log) <= log && CrashRange(log, |old(log)|, |log|, Model(), care)
    {
      hide SectorShape, Index, Agrees, KvCache.Wf, CrashState, MapOf, HasEmpty, NoGcMark, Apart, TwinsClean, Marked, Taped, Lagless;
      KvOkMono(kc.table[..], flash, flash, None, Some(Crc32.NameHash(Get(flash, l).key)));
      MarkedEmpty(flash, l, Deleted);
      NoGcMarkKept(flash, l, Deleted, l.sec, BLANK);
      if Lagless(flash) { MarkedLagless(flash, l, Deleted); }
      WritesMarked(flash, wr, l);
      Delete(l);
    }

    /** Read the value of `key` into a buffer of `bufLen` bytes; also its full length. */
    method GetKv(key: Key, bufLen: nat) returns (data: Val, valueLen: nat)
      requires Served() && NoClash(Lookup(), key)
      modifies sc.table, kc.table
      ensures Served()
      ensures key in Lookup() ==> valueLen == |Lookup()[key]|
      ensures key in Lookup() ==> data == Lookup()[key][..if bufLen > valueLen then valueLen else bufLen]
      ensures key !in Lookup() ==> valueLen == 0 && data == []
    {
      hide Agrees, KvOk, KvCache.Wf, CrashState, Apart, Taped, NoClash, Shape;
      ClashFree(flash, wr, key);
      var l := FindKv(key);
      if l == None {
        return [], 0;
      }
      var val := flash[l.value.sec].recs[l.value.idx].val;
      valueLen := |val|;
      data := val[..if bufLen > valueLen then valueLen else bufLen];
    }

    // -------------------------------------------------------------- boot

    /** The sector a boot takes as the oldest: the last USING one that follows an EMPTY one in
        address order, or sector 0. The search comes before the tables are cleared: in a zeroed table it
        finds sector 0, with a span of no sectors, until it has added up the length of the partition. */
    method FindOldest()
      requires Disk() && gcSec == -1 && oldest == 0 && (Zeroed(sc.table[..]) || Base())
      modifies `oldest, sc.table
      ensures Disk() && OldestIs(flash, old(Zeroed(sc.table[..])), oldest)
    {
      hide Indexed, Taped, Apart, Reserved, End, MapOf;
      ghost var zeroed := Zeroed(sc.table[..]);
      var found: nat, last, s: nat, n: nat, more := 0, StoreUnused, 0, 0, true;
      while more
        invariant Disk() && oldest == 0 && n <= SECTOR_NUM + 1 && s < SECTOR_NUM && found < SECTOR_NUM && (more ==> n <= SECTOR_NUM)
        invariant zeroed ==> Zeroed(sc.table[..]) && s == 0 && found == 0 && last == StoreUnused
        invariant !zeroed ==> Base() && if more then s == n else n == SECTOR_NUM
        invariant !zeroed ==> (last == Empty <==> n > 0 && IsEmpty(flash[n - 1]))
        invariant !zeroed ==> (found == 0 || Turns(flash, found)) && forall x :: found < x < n ==> !Turns(flash, x)
        decreases SECTOR_NUM + 1 - n, more
      {
        n := n + 1;
        var i := sc.Find(s);
        var info;
        assert zeroed ==> sc.table[..][0] == SecUsed(ZERO);
        if i < sc.table.Length && sc.table[i].info == ZERO {
          info := sc.table[i].info;
        } else {
          info := ReadSectorInfo(s, false);
          assert SectorShape(flash[s]);
        }
        if last == Empty && (info.store == Full || info.store == Using) {
          found := s;
        }
        last := info.store;
        var span := if info == ZERO then 0 else 1;
        if n + span <= SECTOR_NUM {
          s := (s + span) % SECTOR_NUM;
        } else {
          more := false;
        }
      }
      oldest := found;
    }

    /** Then nothing is cached. */
    method ClearTables()
      requires Disk() && gcSec == -1 && kc.Sound() && sc.table.Length == SECTOR_CACHE_TABLE_SIZE
      modifies sc.table, kc.table
      ensures Base() && Cache()
    {
      sc.Clear();
      kc.Clear();
    }

    /** Format every sector whose header was not finished. */
    method RepairHeaders()
      requires Base() && Cache() && gcSec == -1 && care.veil == None
      modifies `flash, `wr, `pd, `log, `trail, `gcSec, sc.table
      ensures Base() && Cache() && gcSec == -1 && flash == Repaired(old(flash))
      ensures wr == old(wr) && pd == old(pd) && Model() == old(Model())
      ensures old(log) <= log && CrashRange(log, |old(log)|, |log|, Model(), care)
    {
      hide Indexed, Taped, Apart, Agrees, KvOk, KvCache.Wf, MapOf, CrashState, Reserved;
      ghost var f0 := flash;
      var i := 0;
      while i < SECTOR_NUM
        invariant 0 <= i <= SECTOR_NUM && Base() && Cache() && gcSec == -1
        invariant wr == old(wr) && pd == old(pd) && Model() == old(Model())
        invariant forall s: nat :: s < |flash| ==> flash[s] == if f0[s].ok || RingIndex(oldest, s) >= i then f0[s] else Sector(true, Empty, Clean, [])
        invariant old(log) <= log && CrashRange(log, |old(log)|, |log|, Model(), care)
      {
        var s := RingAt(oldest, i);
        var info := ReadSectorInfo(s, false);
        if !info.ok {
          assert SectorShape(flash[s]);
          FormatSector(s);
        }
        forall x: nat | x < SECTOR_NUM && RingIndex(oldest, x) == i ensures x == s { RingCovers(oldest, x); }
        i := i + 1;
      }
    }

    /** Resume a collection that was cut off: every dirty sector is collected, if one has the mark of a collection and
        at most one sector is EMPTY; with more of them the code collects nothing. */
    method ResumeGc()
      requires Served() && !gcRequest && inRecovery && Steady()
      requires NoGcMark(flash) || (HasEmpty(flash) && TwinsClean(flash, wr, pd) && care.gc == Any && !care.lone)
      modifies `flash, `wr, `pd, `log, `trail, `care, `lastDel, `gcRequest, `gcSec, `oldest, sc.table, kc.table
      ensures Served() && !gcRequest && Steady()
      ensures old(HasEmpty(flash)) ==> HasEmpty(flash)
      ensures old(NoGcMark(flash)) ==> flash == old(flash) && wr == old(wr) && pd == old(pd) && oldest == old(oldest) && log == old(log)
      ensures !NoGcMark(old(flash)) && |EmptySet(old(flash))| <= 1 ==> NoGcMark(flash) && NoneDirty(flash)
      ensures |EmptySet(old(flash))| > 1 ==> flash == old(flash)
      ensures TornKept(old(flash), flash) && Model() == old(Model())
      ensures PdLeft(old(flash), old(pd), flash, pd)
      ensures care == old(care) && old(log) <= log && CrashRange(log, |old(log)|, |log|, Model(), care)
    {
      hide Indexed, Agrees, KvOk, KvCache.Wf, CrashState, MapOf, TwinsClean, HasEmpty;
      hide SectorShape, Taped, Apart, Lagless, TwinsOrdered, EmptySet, DirtySet, TornKept, PdLeft, NoneDirty, NoneMarked;
      var start, i := oldest, 0;
      GcStart(flash, oldest);
      MarkedStart(flash, oldest);
      PdSame(flash, wr, pd);
      while i < SECTOR_NUM
        invariant 0 <= i <= SECTOR_NUM && Served() && !gcRequest && Steady()
        invariant NoGcMark(flash) || (HasEmpty(flash) && TwinsClean(flash, wr, pd) && care.gc == Any && !care.lone)
        invariant old(HasEmpty(flash)) ==> HasEmpty(flash)
        invariant old(NoGcMark(flash)) ==> flash == old(flash) && wr == old(wr) && pd == old(pd) && oldest == old(oldest) && log == old(log)
        invariant start == old(oldest) && (|EmptySet(old(flash))| > 1 ==> flash == old(flash))
        invariant DirtySet(flash) == {} || (flash == old(flash) && (|EmptySet(old(flash))| <= 1 ==> NoneMarked(flash, start, i)))
        invariant TornKept(old(flash), flash) && Model() == old(Model()) && PdLeft(old(flash), old(pd), flash, pd)
        invariant care == old(care) && old(log) <= log && CrashRange(log, |old(log)|, |log|, Model(), care)
      {
        var s := RingAt(start, i);
        var info := ReadSectorInfo(s, false);
        if info.ok && info.dirty == DirtyGc {
          ghost var f1, p1 := flash, pd;
          gcRequest := true;
          CleanOrdered(flash, wr, pd, oldest);
          ghost var n := |log|;
          ghost var olds := GcCollect(SECTOR_NUM * SEC_SIZE);
          MixedNone(log, n, |log|, Model(), care);
          TornKeptTrans(old(flash), f1, flash);
          PdLeftTrans(old(flash), old(pd), f1, p1, flash, pd);
        } else {
          UnmarkedNext(flash, start, i);
        }
        i := i + 1;
      }
      if DirtySet(flash) == {} { NoneLeftDirty(flash); } else if |EmptySet(flash)| <= 1 { MarkedEnd(flash, start); }
    }

    /** Recover one PRE_DELETE record: roll forward if its replacement was finished, else back. */
    method RecoverOld(l: Loc) returns (stop: bool)
      requires Served() && inRecovery && !gcRequest && Is(flash, l, PreDelete) && Steady()
      requires care.gc != Any ==> NoGcMark(flash)
      modifies `flash, `wr, `pd, `log, `trail, `care, `lastDel, `gcRequest, sc.table, kc.table
      ensures Served() && Model() == old(Model()) && Steady()
      ensures !stop ==> !gcRequest && SlotDone(old(flash), old(wr), old(pd), l, flash, wr, pd) && KeepsSlots(old(flash), flash)
      ensures !stop ==> |pd| < |old(pd)|
      ensures stop ==> flash == old(flash) && wr == old(wr) && pd == old(pd) && log == old(log)
      ensures stop ==> OutOfSpace(flash, Size(Get(flash, l)), false) && gcRequest == (|EmptySet(flash)| == 1)
      ensures old(HasEmpty(flash)) ==> HasEmpty(flash)
      ensures old(NoGcMark(flash)) ==> NoGcMark(flash)
      ensures PdLeft(old(flash), old(pd), flash, pd)
      ensures care == old(care) && old(log) <= log && CrashRange(log, |old(log)|, |log|, Model(), care)
    {
      hide SectorShape, Agrees, KvOk, KvCache.Wf, CrashState, MapOf, HasEmpty, OutOfSpace, Preparing, Moved, Chosen, Size, Taped, Apart;
      hide Lagless, TakesRoom, SlotDone, KeepsSlots, EmptySet, NoGcMark, Index, TwinsClean, PdLeft;
      ghost var f0, w0, p0 := flash, wr, pd;
      PdLess(flash, wr, pd, l);
      PdSame(flash, wr, pd);
      NotPrepared(flash, l);
      MovedNoGc(flash, l);
      var err, target := MoveKv(l);
      stop := err != NoErr;
      if !stop {
        MoveDone(f0, w0, p0, l, target, flash, wr, pd);
        MovedLength(f0, l, target);
        MovedVals(f0, w0, p0, l, target, pd);
        MoveKeepsEmpty(f0, l, target);
      }
    }

    /** One slot of the recovery walk; it goes on after `Through`. */
    method RecoverSlot(l: Loc) returns (end: Ending)
      requires Served() && inRecovery && !gcRequest && In(flash, l) && Steady()
      requires care.gc != Any ==> NoGcMark(flash)
      modifies `flash, `wr, `pd, `log, `trail, `care, `lastDel, `gcRequest, sc.table, kc.table
      ensures Served() && Model() == old(Model()) && Steady()
      ensures end == Through ==> !gcRequest && SlotDone(old(flash), old(wr), old(pd), l, flash, wr, pd) && KeepsSlots(old(flash), flash)
      ensures end == Through ==> |pd| < |old(pd)| || (pd == old(pd) && flash == old(flash))
      ensures old(Is(flash, l, Write)) ==> end == Through && KvCache.Cached(kc.table[..], Crc32.NameHash(Get(flash, l).key), l)
      ensures end != Through ==> wr == old(wr) && pd == old(pd)
      ensures end == AtTorn ==> !gcRequest && TornAt(old(flash), l) && flash == SetStatus(old(flash), l, ErrHdr)
      ensures end == AtFull ==> flash == old(flash) && Is(flash, l, PreDelete) && OutOfSpace(flash, Size(Get(flash, l)), false)
      ensures end == AtFull ==> gcRequest == (|EmptySet(flash)| == 1)
      ensures old(HasEmpty(flash)) ==> HasEmpty(flash)
      ensures old(NoGcMark(flash)) ==> NoGcMark(flash)
      ensures PdLeft(old(flash), old(pd), flash, pd)
      ensures care == old(care) && old(log) <= log && CrashRange(log, |old(log)|, |log|, Model(), care)
    {
      hide SectorShape, Indexed, Agrees, KvOk, KvCache.Wf, MapOf, HasEmpty, KeepsSlots;
      hide Taped, Apart, Lagless, OutOfSpace, Size, EmptySet, TornSame, CrashState, PdLeft, Seen, VeilOk, KvCache.Cached, KvCache.Recorded, Steady, Shape;
      SlotKept(flash, l);
      SeenNone(flash);
      PdStatus(flash, wr, pd, l, ErrHdr);
      var r := flash[l.sec].recs[l.idx];
      if r.status == PreDelete {
        var stop := RecoverOld(l);
        end := if stop then AtFull else Through;
      } else if r.status == PreWrite && r.written >= 2 {
        MarkTorn(l);
        end := AtTorn;
      } else {
        if r.status == Write {
          CacheInsert(l, None);
        }
        end := Through;
      }
    }

    /** Give up a record that was cut off while being written. */
    method MarkTorn(l: Loc)
      requires Base() && Is(flash, l, PreWrite) && Get(flash, l).written >= 2 && Steady() && Cache()
      modifies `flash, `wr, `pd, `log, `trail
      ensures Base() && Model() == old(Model()) && Steady() && Cache() && wr == old(wr) && pd == old(pd)
      ensures (old(NoGcMark(flash)) ==> NoGcMark(flash)) && (old(HasEmpty(flash)) ==> HasEmpty(flash))
      ensures flash == SetStatus(old(flash), l, ErrHdr)
      ensures old(log) <= log && CrashRange(log, |old(log)|, |log|, Model(), care)
    {
      hide Indexed, Agrees, KvCache.Wf, Taped, Apart, MapOf, CrashState, Lagless, NoGcMark, HasEmpty, Represents;
      AgreesStatus(sc.table[..], flash, l, ErrHdr, gcSec, -1);
      if Lagless(flash) { MarkedLagless(flash, l, ErrHdr); }
      StatusApart(flash, l, ErrHdr);
      StatusEmpty(flash, l, ErrHdr);
      KvOkGivenUp(kc.table[..], flash, l);
      ExecQuiet(OpStatus(l, ErrHdr));
    }

    /** The slots of sector `s`, the `i`-th of the walk begun with `f0`, `w0` and `p0`, including those the
        walk itself appends. */
    method RecoverSector(s: nat, ghost i: nat, ghost f0: Flash, ghost w0: map<Key, Loc>, ghost p0: map<Key, Loc>) returns (end: Ending, ghost at: Loc)
      requires Served() && inRecovery && !gcRequest && Steady()
      requires i < SECTOR_NUM && s == RingAt(oldest, i) && Walking(f0, w0, p0, oldest, flash, wr, pd, i, 0)
      requires care.gc != Any ==> NoGcMark(flash)
      modifies `flash, `wr, `pd, `log, `trail, `care, `lastDel, `gcRequest, sc.table, kc.table
      ensures Served() && Model() == old(Model()) && Steady()
      ensures end == Through ==> !gcRequest && Walking(f0, w0, p0, oldest, flash, wr, pd, i + 1, 0)
      ensures end != Through ==> Walked(f0, w0, p0, oldest, end, flash, wr, pd, at)
      ensures end == AtTorn ==> !gcRequest
      ensures end == AtFull ==> gcRequest == (|EmptySet(flash)| == 1)
      ensures old(HasEmpty(flash)) ==> HasEmpty(flash)
      ensures old(NoGcMark(flash)) ==> NoGcMark(flash)
      ensures PdLeft(old(flash), old(pd), flash, pd)
      ensures care == old(care) && old(log) <= log && CrashRange(log, |old(log)|, |log|, Model(), care)
    {
      hide Indexed, Agrees, KvOk, KvCache.Wf, CrashState, MapOf, HasEmpty, SectorShape, TornSame, Taped;
      hide Apart, Lagless, Walking, SlotDone, NoGcMark, EmptySet, OutOfSpace, Size, TornAt, PdLeft;
      end, at := Through, Loc(s, 0);
      PdSame(flash, wr, pd);
      var j := 0;
      while j < |flash[s].recs|
        invariant Served() && inRecovery && !gcRequest && Steady()
        invariant 0 <= j <= |flash[s].recs| && Model() == old(Model()) && end == Through
        invariant Walking(f0, w0, p0, oldest, flash, wr, pd, i, j) && PdLeft(old(flash), old(pd), flash, pd)
        invariant (old(HasEmpty(flash)) ==> HasEmpty(flash)) && (old(NoGcMark(flash)) ==> NoGcMark(flash))
        invariant care == old(care) && old(log) <= log && CrashRange(log, |old(log)|, |log|, Model(), care)
        decreases |pd|, |flash[s].recs| - j
      {
        ghost var f1, w1, p1 := flash, wr, pd;
        end := RecoverSlot(Loc(s, j));
        PdLeftTrans(old(flash), old(pd), f1, p1, flash, pd);
        if end != Through {
          at := Loc(s, j);
          StoppedAt(f0, w0, p0, oldest, end, f1, flash, wr, pd, at, i, j);
          return;
        }
        WalkNext(f0, w0, p0, oldest, f1, w1, p1, i, j, flash, wr, pd);
        j := j + 1;
      }
      WalkSector(f0, w0, p0, oldest, flash, wr, pd, i, j);
    }

    /** Walk every slot of every sector from the oldest on and recover it. */
    method RecoveryWalk() returns (end: Ending, ghost at: Loc)
      requires Served() && inRecovery && !gcRequest && Steady()
      requires care.gc != Any ==> NoGcMark(flash)
      modifies `flash, `wr, `pd, `log, `trail, `care, `lastDel, `gcRequest, sc.table, kc.table
      ensures Served() && Model() == old(Model()) && Steady()
      ensures Walked(old(flash), old(wr), old(pd), oldest, end, flash, wr, pd, at)
      ensures gcRequest == (end == AtFull && |EmptySet(flash)| == 1)
      ensures old(HasEmpty(flash)) ==> HasEmpty(flash)
      ensures old(NoGcMark(flash)) ==> NoGcMark(flash)
      ensures PdLeft(old(flash), old(pd), flash, pd)
      ensures care == old(care) && old(log) <= log && CrashRange(log, |old(log)|, |log|, Model(), care)
    {
      hide Index, Agrees, KvOk, KvCache.Wf, CrashState, MapOf, HasEmpty, SectorShape, Taped, Apart, Lagless, Walking, NoGcMark, EmptySet, PdLeft;
      ghost var f0, w0, p0 := flash, wr, pd;
      WalkStart(flash, wr, pd, oldest);
      PdSame(flash, wr, pd);
      at := Loc(0, 0);
      var i := 0;
      while i < SECTOR_NUM
        invariant 0 <= i <= SECTOR_NUM && Served() && inRecovery && !gcRequest && Steady()
        invariant Model() == old(Model()) && Walking(f0, w0, p0, oldest, flash, wr, pd, i, 0) && PdLeft(f0, p0, flash, pd)
        invariant (old(HasEmpty(flash)) ==> HasEmpty(flash)) && (old(NoGcMark(flash)) ==> NoGcMark(flash))
        invariant care == old(care) && old(log) <= log && CrashRange(log, |old(log)|, |log|, Model(), care)
      {
        var s := RingAt(oldest, i);
        var info := ReadSectorInfo(s, false);
        if info.ok && info.store == Using {
          ghost var f1, p1 := flash, pd;
          end, at := RecoverSector(s, i, f0, w0, p0);
          PdLeftTrans(f0, p0, f1, p1, flash, pd);
          if end != Through {
            return;
          }
        } else {
          SkipSector(flash, s);
          WalkSector(f0, w0, p0, oldest, flash, wr, pd, i, 0);
        }
        i := i + 1;
      }
      end, at := Through, Loc(0, 0);
    }

    /** A collection over records that were not recovered yet: what it leaves behind holds the map, and
        no more is asked of it. */
    ghost method Loosen()
      requires Served()
      modifies `care
      ensures Served() && care == Care(Any, old(care).solid, false, None) && Model() == old(Model()) && Weaker(old(care), care)
    {
      hide Indexed, Taped, Agrees, KvOk, KvCache.Wf, Shape, Apart, MapOf;
      ghost var less := Care(Any, care.solid, false, None);
      ApartWeaker(care, less, flash, wr, pd);
      care := less;
    }

    /** Collect every dirty sector, and walk again. */
    method CollectAndWalk() returns (end: Ending, ghost at: Loc, ghost f: Flash, ghost w: map<Key, Loc>, ghost p: map<Key, Loc>)
      requires Served() && inRecovery && gcRequest && Steady() && |EmptySet(flash)| == 1
      modifies `flash, `wr, `pd, `log, `trail, `care, `lastDel, `gcRequest, `gcSec, `oldest, sc.table, kc.table
      ensures Served() && Model() == old(Model()) && Steady() && Weaker(old(care), care) && care == Care(Any, old(care).solid, false, None)
      ensures TornKept(old(flash), f) && CleanPd(old(flash), old(pd), p) && DirtyLess(old(flash), f) && DirtySet(f) == {}
      ensures Indexed(f, w, p) && Walked(f, w, p, oldest, end, flash, wr, pd, at)
      ensures gcRequest == (end == AtFull && |EmptySet(flash)| == 1)
      ensures HasEmpty(flash) && (old(NoGcMark(flash)) ==> NoGcMark(flash)) && PdLeft(old(flash), old(pd), flash, pd)
      ensures old(log) <= log
      ensures Leaves(log, |old(log)|, Model(), Was(old(flash), old(pd)), care, Misordered(old(flash), old(oldest)))
    {
      hide Index, Agrees, KvOk, KvCache.Wf, CrashState, MapOf, HasEmpty, TwinsClean, NoGcMark, SectorShape, Taped, Apart, Lagless;
      hide EmptySet, DirtySet, TwinsOrdered, Walked, TornKept, Misordered, CleanPd, DirtyLess, PdLeft, Unindexed, OldOrNew, Olds, Was;
      ghost var f0, w0, p0, o0, n0 := flash, wr, pd, oldest, |log|;
      SomeEmpty(flash);
      PdSame(flash, wr, pd);
      WasLeft(flash, pd, flash, wr, pd, oldest);
      Loosen();
      ghost var olds := GcCollect(SECTOR_NUM * SEC_SIZE);
      ghost var m, was, mixed := Model(), Was(f0, p0), Misordered(f0, o0);
      MixedWider(log, n0, |log|, m, olds, was, care);
      if mixed { NotAll(log, n0, m, care); } else { MixedNone(log, n0, |log|, m, care); }
      f, w, p := flash, wr, pd;
      ghost var log1 := log;
      end, at := RecoveryWalk();
      PdLeftTrans(f0, p0, f, p, flash, pd);
      LeavesAll(log, |log1|, m, was, care);
      LeavesNext(log1, log, n0, m, was, care, care, mixed, false);
    }

    /** Repair headers, resume a collection that was cut off, and walk. */
    method FirstWalk() returns (end: Ending, ghost at: Loc)
      requires Served() && !gcRequest && inRecovery && Steady()
      requires if NoGcMark(flash) then true else HasSpare(flash) && TwinsClean(flash, wr, pd) && care.gc == Any && !care.lone
      modifies `flash, `wr, `pd, `log, `trail, `care, `lastDel, `gcRequest, `gcSec, `oldest, sc.table, kc.table
      ensures Served() && Model() == old(Model()) && Steady() && care == old(care)
      ensures LoadState(old(flash), old(wr), old(pd), old(oldest), end, !NoGcMark(old(flash)), flash, wr, pd, oldest)
      ensures gcRequest == (end == AtFull && |EmptySet(flash)| == 1)
      ensures old(HasSpare(flash)) ==> HasEmpty(flash)
      ensures old(NoGcMark(flash)) || |EmptySet(Repaired(old(flash)))| <= 1 ==> NoGcMark(flash)
      ensures PdLeft(old(flash), old(pd), flash, pd)
      ensures old(log) <= log && CrashRange(log, |old(log)|, |log|, Model(), care)
    {
      hide Index, Agrees, KvOk, KvCache.Wf, CrashState, MapOf, HasEmpty, HasSpare, TwinsClean, NoGcMark, SectorShape, Taped, Apart, Lagless;
      hide LoadState, EmptySet, Repaired, Walked, TornKept, AllOk, TornSame, PdLeft;
      ghost var f0, w0, p0, o0 := flash, wr, pd, oldest;
      RepairedMarks(flash, wr, pd);
      RepairedTorn(flash);
      RepairedPd(flash, wr, pd);
      RepairHeaders();
      ghost var f2, p2 := flash, pd;
      ResumeGc();
      ghost var f1, w1, p1 := flash, wr, pd;
      PdLeftTrans(f0, p0, f2, p2, f1, p1);
      end, at := RecoveryWalk();
      PdLeftTrans(f0, p0, f1, p1, flash, pd);
      LoadFirst(f0, w0, p0, o0, f1, w1, p1, oldest, end, flash, wr, pd, at);
    }

    /** Load the flash after a power loss: repair headers, resume a collection that was cut off, and
        recover every record; when a record finds no room, collect and walk again. The model stops where the
        code does not come back. The ghost results tell whether a collection was resumed or asked for, and whether
        one left two PRE_DELETE records of a key. */
    method Load() returns (outcome: Outcome, ghost collected: bool, ghost mixed: bool)
      requires Served() && !gcRequest && Steady()
      requires if NoGcMark(flash) then true else HasSpare(flash) && TwinsClean(flash, wr, pd) && care.gc == Any && !care.lone
      modifies `flash, `wr, `pd, `log, `trail, `care, `lastDel, `gcRequest, `gcSec, `oldest, `inRecovery, sc.table, kc.table
      ensures Served() && Model() == old(Model()) && Steady()
      ensures LoadDone(old(flash), old(wr), old(pd), old(oldest), outcome, collected, flash, wr, pd, oldest)
      ensures outcome == Loaded || outcome == TornStop || outcome == NoSpace ==> !gcRequest && !inRecovery
      ensures (outcome == NoSpace ==> |EmptySet(flash)| != 1) && (outcome == Spins ==> |EmptySet(flash)| == 1)
      ensures care == old(care) || (collected && care == Care(Any, old(care).solid, false, None))
      ensures old(HasSpare(flash)) ==> HasEmpty(flash)
      ensures old(NoGcMark(flash)) || |EmptySet(Repaired(old(flash)))| <= 1 ==> NoGcMark(flash)
      ensures MixedWhen(old(flash), old(oldest), collected, mixed)
      ensures old(log) <= log && Leaves(log, |old(log)|, Model(), Was(old(flash), old(pd)), care, mixed)
    {
      hide Indexed, Agrees, KvOk, KvCache.Wf, CrashState, MapOf, HasEmpty;
      hide HasSpare, TwinsClean, NoGcMark, SectorShape, Taped, Apart, Lagless;
      hide LoadDone, LoadState, LoadAsked, EmptySet, DirtySet, TwinsOrdered, Repaired, Walked;
      hide TornKept, Misordered, NoneDirty, AllOk, DirtyLess, CleanPd, Shape, PdLeft, Was, Leaves, MixedWhen, MixedSoFar, Weaker, Seen, VeilOk;
      ghost var f0, w0, p0, o0, n0, was := flash, wr, pd, oldest, |log|, Was(flash, pd);
      SeenNone(flash);
      inRecovery := true;
      collected, mixed := !NoGcMark(flash), false;
      var end: Ending, at := FirstWalk();
      LeavesAll(log, n0, Model(), was, care);
      SeenNone(flash);
      MixedStart(f0, o0);
      while gcRequest
        invariant Served() && inRecovery && Model() == old(Model()) && Steady() && PdLeft(f0, p0, flash, pd)
        invariant LoadState(f0, w0, p0, o0, end, collected, flash, wr, pd, oldest)
        invariant gcRequest == (end == AtFull && |EmptySet(flash)| == 1)
        invariant care == old(care) || (collected && care == Care(Any, old(care).solid, false, None))
        invariant care.gc != Any ==> NoGcMark(flash)
        invariant old(HasSpare(flash)) ==> HasEmpty(flash)
        invariant old(NoGcMark(flash)) || |EmptySet(Repaired(old(flash)))| <= 1 ==> NoGcMark(flash)
        invariant MixedSoFar(f0, o0, collected, mixed)
        invariant old(log) <= log && Leaves(log, n0, Model(), was, care, mixed)
        decreases |pd|, |DirtySet(flash)|
      {
        SeenNone(flash);
        ghost var f2, p2, o2, care2, log2 := flash, pd, oldest, care, log;
        NowAsked(f0, w0, p0, o0, collected, flash, wr, pd, oldest);
        if NoneDirty(flash) {
          MixedNext(f0, p0, o0, collected, mixed, flash, pd, oldest);
          NowSpins(f0, w0, p0, o0, collected, flash, wr, pd, oldest);
          MixedDone(f0, w0, p0, o0, Spins, true, mixed, flash, wr, pd, oldest);
          return Spins, true, mixed;
        }
        ghost var f3, w3, p3, asked := [], map[], map[], collected;
        collected := true;
        end, at, f3, w3, p3 := CollectAndWalk();
        SeenNone(flash);
        LoadRound(f0, w0, p0, o0, asked, mixed, n0, Model(), f2, p2, o2, log2, care2, f3, w3, p3, oldest, end, flash, wr, pd, at, log, care);
        mixed := mixed || Misordered(f2, o2);
      }
      SeenNone(flash);
      NowDone(f0, w0, p0, o0, end, collected, flash, wr, pd, oldest);
      MixedDone(f0, w0, p0, o0, OutcomeOf(end), collected, mixed, flash, wr, pd, oldest);
      inRecovery := false;
      outcome := OutcomeOf(end);
    }
  }
}
