/** The sector cache: up to eight sectors' header status and free space. */
module SectorCache {
  import opened KvRecord
  import opened KvFlash

  const SECTOR_CACHE_TABLE_SIZE := 8
  const FAILED_ADDR := 0xFFFFFFFF

  /** What the database knows about a sector; `empty` is FAILED_ADDR until a traversal has found
      the next free offset. */
  datatype SecInfo = SecInfo(ok: bool, store: Store, dirty: Dirty, sec: nat, remain: int, empty: int)

  datatype SecSlot = SecUnused | SecUsed(info: SecInfo)

  /** An entry of a table that was never set up, all zero: it says sector 0, no magic word, status UNUSED,
      and that its sector spans no sectors. */
  const ZERO := SecInfo(false, StoreUnused, DirtyUnused, 0, 0, 0)

  ghost predicate Zeroed(t: seq<SecSlot>) {
    |t| == SECTOR_CACHE_TABLE_SIZE && forall i :: 0 <= i < |t| ==> t[i] == SecUsed(ZERO)
  }

  /** The header part of an entry matches the flash. The sector being collected may still be
      cached as dirty: nothing is allocated in either status while collecting. */
  predicate HeaderOk(info: SecInfo, sec: Sector, collected: bool) {
    && info.ok && sec.ok && info.store == sec.store
    && (info.dirty == sec.dirty || (collected && info.dirty == DirtyTrue && sec.dirty == DirtyGc))
  }

  /** A known free offset and remaining size are what a fresh traversal would compute. */
  predicate SpaceOk(info: SecInfo, sec: Sector) {
    info.empty != FAILED_ADDR ==> info.empty == End(sec) && info.remain == SEC_SIZE - End(sec)
  }

  /** Every entry matches the flash, except the free space of sector `except`; `gc` is the sector
      being collected (-1 when there is none). */
  ghost predicate Agrees(t: seq<SecSlot>, f: Flash, gc: int, except: int) {
    && |t| == SECTOR_CACHE_TABLE_SIZE
    && (forall i, j :: 0 <= i < j < |t| && t[i].SecUsed? && t[j].SecUsed? ==> t[i].info.sec != t[j].info.sec)
    && (forall i :: 0 <= i < |t| && t[i].SecUsed? ==> SlotOk(t[i].info, f, gc, except))
  }

  predicate SlotOk(info: SecInfo, f: Flash, gc: int, except: int) {
    && info.sec < |f| && HeaderOk(info, f[info.sec], info.sec == gc)
    && (info.sec != except ==> SpaceOk(info, f[info.sec]))
  }

  predicate Caches(slot: SecSlot, s: nat) { slot.SecUsed? && slot.info.sec == s }

  /** Nothing is cached for `s`. */
  ghost predicate Absent(t: seq<SecSlot>, s: nat) {
    forall i :: 0 <= i < |t| && t[i].SecUsed? ==> t[i].info.sec != s
  }

  /** The same slots cache the same sectors. */
  ghost predicate SameSectors(t: seq<SecSlot>, t': seq<SecSlot>) {
    && |t'| == |t|
    && forall i :: 0 <= i < |t| ==> t'[i].SecUsed? == t[i].SecUsed? && (t[i].SecUsed? ==> t'[i].info.sec == t[i].info.sec)
  }

  class Cache {
    const table: array<SecSlot>

    constructor (zeroed: bool)
      ensures fresh(table) && table.Length == SECTOR_CACHE_TABLE_SIZE
      ensures if zeroed then Zeroed(table[..]) else forall i :: 0 <= i < table.Length ==> table[i] == SecUnused
    {
      table := new SecSlot[SECTOR_CACHE_TABLE_SIZE](i => if zeroed then SecUsed(ZERO) else SecUnused);
    }

    /** Start of a boot: no sector is cached. */
    method Clear()
      modifies table
      ensures forall i :: 0 <= i < table.Length ==> table[i] == SecUnused
    {
      var i := 0;
      while i < table.Length
        invariant 0 <= i <= table.Length
        invariant forall j :: 0 <= j < i ==> table[j] == SecUnused
      {
        table[i] := SecUnused;
        i := i + 1;
      }
    }

    /** The slot caching `s`, or the table size. */
    method Find(s: nat) returns (i: nat)
      ensures i <= table.Length
      ensures i < table.Length ==> table[i].SecUsed? && table[i].info.sec == s
      ensures i == table.Length ==> Absent(table[..], s)
    {
      i := 0;
      while i < table.Length
        invariant i <= table.Length
        invariant forall j :: 0 <= j < i && table[j].SecUsed? ==> table[j].info.sec != s
      {
        if table[i].SecUsed? && table[i].info.sec == s {
          return;
        }
        i := i + 1;
      }
    }

    /** Store `info`, or drop its sector when its header check failed. A full table ignores a
        new sector. */
    method Update(info: SecInfo, ghost f: Flash, ghost gc: int, ghost except: int)
      requires Agrees(table[..], f, gc, except)
      requires info.ok ==> SlotOk(info, f, gc, -1)
      modifies table
      ensures Agrees(table[..], f, gc, except)
      ensures !info.ok ==> Absent(table[..], info.sec)
      ensures info.ok ==> SecUsed(info) in table[..] || (table[..] == old(table[..]) && SecUnused !in table[..])
      ensures forall i :: 0 <= i < table.Length && table[i] != old(table[i]) ==> table[i] == SecUsed(info) || table[i] == SecUnused
      ensures forall i :: 0 <= i < table.Length && old(table[i]).SecUsed? && old(table[i]).info.sec != info.sec ==> table[i] == old(table[i])
    {
      var empty := table.Length;
      var i := 0;
      while i < table.Length
        invariant 0 <= i <= table.Length
        invariant table[..] == old(table[..])
        invariant forall j :: 0 <= j < i && table[j].SecUsed? ==> table[j].info.sec != info.sec
        invariant 0 <= empty <= table.Length
        invariant empty < table.Length ==> table[empty] == SecUnused
        invariant empty == table.Length ==> forall j :: 0 <= j < i ==> table[j] != SecUnused
      {
        if table[i].SecUsed? && table[i].info.sec == info.sec {
          table[i] := if info.ok then SecUsed(info) else SecUnused;
          assert info.ok ==> table[..][i] == SecUsed(info);
          return;
        } else if table[i] == SecUnused {
          empty := i;
        }
        i := i + 1;
      }
      if info.ok && empty < table.Length {
        table[empty] := SecUsed(info);
        assert table[..][empty] == SecUsed(info);
      }
    }

    /** A record was written up to offset `empty` of sector `s`. */
    method SetEmpty(s: nat, empty: nat, ghost f: Flash, ghost gc: int)
      requires Agrees(table[..], f, gc, s) && s < |f| && empty == End(f[s])
      modifies table
      ensures Agrees(table[..], f, gc, -1) && SameSectors(old(table[..]), table[..])
      ensures forall i :: 0 <= i < table.Length && Caches(old(table[i]), s) ==> table[i] == SecUsed(old(table[i]).info.(empty := empty, remain := 2048 - empty))
      ensures forall i :: 0 <= i < table.Length && !Caches(old(table[i]), s) ==> table[i] == old(table[i])
    {
      var i := Find(s);
      if i < table.Length {
        table[i] := SecUsed(table[i].info.(empty := empty, remain := SEC_SIZE - empty));
      }
    }

    /** Sector `s` changed its store status from that of flash `f` to that of flash `f'`. */
    method SetStore(s: nat, store: Store, ghost f: Flash, ghost f': Flash, ghost gc: int)
      requires Agrees(table[..], f, gc, -1) && s < |f|
      requires f' == f[s := f[s].(store := store)]
      modifies table
      ensures Agrees(table[..], f', gc, s) && SameSectors(old(table[..]), table[..])
      ensures forall i :: 0 <= i < table.Length && Caches(old(table[i]), s) ==> table[i] == SecUsed(old(table[i]).info.(store := store))
      ensures forall i :: 0 <= i < table.Length && !Caches(old(table[i]), s) ==> table[i] == old(table[i])
    {
      var i := Find(s);
      if i < table.Length {
        table[i] := SecUsed(table[i].info.(store := store));
      }
    }

    /** Sector `s` became dirty. */
    method SetDirty(s: nat, ghost f: Flash, ghost f': Flash, ghost gc: int, ghost except: int)
      requires Agrees(table[..], f, gc, except) && s < |f|
      requires f' == f[s := f[s].(dirty := DirtyTrue)]
      modifies table
      ensures Agrees(table[..], f', gc, except) && SameSectors(old(table[..]), table[..])
      ensures forall i :: 0 <= i < table.Length && Caches(old(table[i]), s) ==> table[i] == SecUsed(old(table[i]).info.(dirty := DirtyTrue))
      ensures forall i :: 0 <= i < table.Length && !Caches(old(table[i]), s) ==> table[i] == old(table[i])
    {
      var i := Find(s);
      if i < table.Length {
        table[i] := SecUsed(table[i].info.(dirty := DirtyTrue));
      }
    }
  }
}
