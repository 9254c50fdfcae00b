/** The key cache over the flash: which of its entries are right, and when a lookup through it
    finds the right record. */
module KvLookup {
  import opened KvRecord
  import opened KvFlash
  import opened KvDisk
  import opened KvMoves
  import KvCache
  import Crc32

  /** Every active slot outside the hash `except` points at a WRITE record with that hash. */
  ghost predicate KvOk(t: seq<KvCache.KvSlot>, f: Flash, except: Option<bv16>) {
    forall i :: 0 <= i < |t| && t[i].addr.Some? && except != Some(t[i].hash) ==> SlotLive(t[i], f)
  }

  predicate SlotLive(slot: KvCache.KvSlot, f: Flash)
    requires slot.addr.Some?
  {
    Is(f, slot.addr.value, Write) && Crc32.NameHash(Get(f, slot.addr.value).key) == slot.hash
  }

  /** The record at `l` would answer for `key`: their names have one hash, and the bytes behind its
      header start with the key. */
  predicate FalseHit(f: Flash, l: Loc, key: Key)
    requires In(f, l)
  {
    Crc32.NameHash(Get(f, l).key) == Crc32.NameHash(key) && key <= Shown(f[l.sec].recs, l.idx)
  }

  /** A record of the key `k` with the value `v` answers for `key` somewhere: behind its bytes stands
      the mark of another slot, or erased flash. */
  predicate MayHit(k: Key, v: Val, key: Key) {
    && Crc32.NameHash(k) == Crc32.NameHash(key)
    && (key <= NameArea(Written(k, v)) + [0x00] || key <= NameArea(Written(k, v)) + Fill(KV_NAME_MAX))
  }

  /** No other key of `m` would answer for `key` in the cache. */
  ghost predicate NoClash(m: map<Key, Val>, key: Key) {
    forall k :: k in m && MayHit(k, m[k], key) ==> k == key
  }

  /** No live record of another key would answer for `key`. */
  ghost predicate NoFalseHit(f: Flash, key: Key) {
    forall l {:trigger Is(f, l, Write)} :: Is(f, l, Write) && FalseHit(f, l, key) ==> Get(f, l).key == key
  }

  predicate Answers(slot: KvCache.KvSlot, f: Flash, key: Key) {
    && slot.addr.Some? && slot.hash == Crc32.NameHash(key) && In(f, slot.addr.value)
    && key <= Shown(f[slot.addr.value.sec].recs, slot.addr.value.idx)
  }

  /** Slot `i` of the cache answered for `key`, and was noted as used. */
  ghost predicate Answered(t: seq<KvCache.KvSlot>, t': seq<KvCache.KvSlot>, i: int, f: Flash, key: Key) {
    0 <= i < |t| && Answers(t[i], f, key) && t' == t[i := KvCache.Used(t[i])]
  }

  /** The cache's answer for `key` from slot `i` on. */
  function Probe(t: seq<KvCache.KvSlot>, f: Flash, key: Key, i: nat): (r: Option<Loc>)
    requires i <= |t|
    ensures r.Some? ==> In(f, r.value)
    decreases |t| - i
  {
    if i == |t| then None else if Answers(t[i], f, key) then t[i].addr else Probe(t, f, key, i + 1)
  }

  lemma {:induction false} ProbeRight(t: seq<KvCache.KvSlot>, f: Flash, key: Key, i: nat)
    requires KvOk(t, f, None) && NoFalseHit(f, key) && i <= |t|
    ensures Probe(t, f, key, i).Some? ==> Is(f, Probe(t, f, key, i).value, Write) && Get(f, Probe(t, f, key, i).value).key == key
    decreases |t| - i
  {
    if i < |t| {
      if Answers(t[i], f, key) {
        assert SlotLive(t[i], f) && FalseHit(f, t[i].addr.value, key);
      } else {
        ProbeRight(t, f, key, i + 1);
      }
    }
  }

  ghost predicate AnswersRight(t: seq<KvCache.KvSlot>, f: Flash, key: Key) {
    Probe(t, f, key, 0).Some? ==> Get(f, Probe(t, f, key, 0).value).key == key
  }

  /** The cache, in any state it can be in, answers for `key` with nothing but its own record
      exactly when no live record of another key has its hash and starts with its bytes, in the
      64 bytes that are compared. */
  lemma CacheRightIff(f: Flash, key: Key)
    ensures (forall t :: KvCache.Wf(t) && KvOk(t, f, None) ==> AnswersRight(t, f, key)) <==> NoFalseHit(f, key)
  {
    if NoFalseHit(f, key) {
      forall t | KvCache.Wf(t) && KvOk(t, f, None) ensures AnswersRight(t, f, key) {
        ProbeRight(t, f, key, 0);
      }
    } else {
      var l :| Is(f, l, Write) && FalseHit(f, l, key) && Get(f, l).key != key;
      var t := [KvCache.KvSlot(Crc32.NameHash(key), 0, Some(l))] + seq(63, _ => KvCache.KvSlot(0, 0, None));
      assert KvCache.Wf(t) && KvOk(t, f, None);
      assert Probe(t, f, key, 0) == Some(l);
      assert !AnswersRight(t, f, key);
    }
  }

  /** Two keys that clash: with only the second stored, a lookup of the first may find it. */
  lemma ClashExample(val: Val)
    ensures !NoClash(map[[0x6B, 0x7B, 0x4C] := val], [0x6B])
  {
    hide Crc32.NameHash;
    Crc32.SharedHash();
    var long: Key, m: map<Key, Val> := [0x6B, 0x7B, 0x4C], map[[0x6B, 0x7B, 0x4C] := val];
    assert [0x6B] <= Padded(long) <= NameArea(Written(long, val)) + [0x00];
    assert long in m && MayHit(long, m[long], [0x6B]) && long != [0x6B];
  }

  const SHORT: Key := [0x6B]
  const LONG: Key := [0x6B, 0x7B, 0x4C]

  /** Sectors that hold a record of the second one, and a cache that has seen it. */
  ghost function ClashFlash(val: Val): Flash {
    [Sector(true, Using, Clean, [Written(LONG, val)])] + seq(SECTOR_NUM - 1, _ => Sector(true, Empty, Clean, []))
  }

  ghost function ClashTable(): seq<KvCache.KvSlot> {
    [KvCache.KvSlot(Crc32.NameHash(LONG), KvCache.KV_CACHE_TABLE_SIZE, Some(Loc(0, 0)))] + seq(63, _ => KvCache.KvSlot(0, 0, None))
  }

  /** The cache answers for the first one, which has no record, with that of the second. */
  lemma ClashAnswers(val: Val)
    requires KvSize(LONG, val) <= 1800
    ensures var f, t := ClashFlash(val), ClashTable();
      && Shape(f) && KvCache.Wf(t) && KvOk(t, f, None) && !NoFalseHit(f, SHORT)
      && (forall l :: !Holds(f, l, Write, SHORT)) && Probe(t, f, SHORT, 0) == Some(Loc(0, 0))
  {
    hide Crc32.NameHash, Solid, KvSize, Padded;
    Crc32.SharedHash();
    var f, t := ClashFlash(val), ClashTable();
    ClashShape(f[0], val);
    ClashShown(f[0].recs);
    forall l | Is(f, l, Write) ensures l == Loc(0, 0) {}
    assert Is(f, Loc(0, 0), Write) && FalseHit(f, Loc(0, 0), SHORT);
    assert Answers(t[0], f, SHORT);
  }

  lemma ClashShown(recs: seq<Rec>)
    requires |recs| == 1 && recs[0].key == LONG
    ensures SHORT <= Shown(recs, 0)
  {
    assert SHORT <= Padded(LONG);
  }

  lemma ClashShape(sec: Sector, val: Val)
    requires sec == Sector(true, Using, Clean, [Written(LONG, val)]) && KvSize(LONG, val) <= 1800
    ensures SectorShape(sec)
  {
    hide Solid, KvSize, BodyWords;
    assert Off(sec.recs, 0) == Counted(sec.recs, 0) == SECTOR_HDR_SIZE;
    assert SlotReserved(sec.recs, 0);
  }

  lemma KvOkEntries(t: seq<KvCache.KvSlot>, t': seq<KvCache.KvSlot>, f: Flash, except: Option<bv16>)
    requires KvOk(t, f, except)
    requires |t'| == |t| && forall i :: 0 <= i < |t| ==> KvCache.SameEntry(t'[i], t[i])
    ensures KvOk(t', f, except)
  {
  }

  lemma KvOkInserted(t: seq<KvCache.KvSlot>, t': seq<KvCache.KvSlot>, f: Flash, h: bv16, l: Loc, except: Option<bv16>)
    requires KvOk(t, f, except) && |t'| == |t| && KvCache.FirstWins(t') && KvCache.Cached(t', h, l)
    requires forall i: nat :: i < |t| && t'[i].addr.Some? && t'[i].hash != h ==> KvCache.SameEntry(t'[i], t[i])
    requires In(f, l) && (except == None ==> Is(f, l, Write) && Crc32.NameHash(Get(f, l).key) == h)
    requires except == None || except == Some(h)
    ensures KvOk(t', f, except)
  {
    forall i | 0 <= i < |t'| && t'[i].addr.Some? && except != Some(t'[i].hash) ensures SlotLive(t'[i], f) {
      if t'[i].hash == h {
        assert KvCache.Maps(t', i, h, t'[i].addr.value);
        KvCache.CachedOnce(t', h, l, t'[i].addr.value);
      } else {
        assert KvCache.SameEntry(t'[i], t[i]);
      }
    }
  }

  /** The cache stays right while every live record outside the hash `except` stays where it is. */
  lemma KvOkMono(t: seq<KvCache.KvSlot>, f: Flash, f': Flash, e: Option<bv16>, e': Option<bv16>)
    requires KvOk(t, f, e) && (e == None || e == e')
    requires forall l {:trigger Is(f, l, Write)} ::
      Is(f, l, Write) && e' != Some(Crc32.NameHash(Get(f, l).key)) ==> Is(f', l, Write) && Get(f', l).key == Get(f, l).key
    ensures KvOk(t, f', e')
  {
  }

  lemma KvOkRemoved(t: seq<KvCache.KvSlot>, t': seq<KvCache.KvSlot>, f: Flash, h: bv16)
    requires KvOk(t, f, Some(h)) && |t'| == |t|
    requires forall i: nat :: i < |t| && t[i].hash != h ==> t'[i] == t[i]
    requires forall i: nat :: i < |t| ==> t'[i].hash == t[i].hash
    requires forall l :: !KvCache.Cached(t', h, l)
    ensures forall i :: 0 <= i < |t'| && t'[i].addr.Some? ==> t'[i].hash != h && SlotLive(t'[i], f)
  {
    forall i | 0 <= i < |t'| && t'[i].addr.Some? ensures t'[i].hash != h {
      if t'[i].hash == h {
        assert KvCache.Maps(t', i, h, t'[i].addr.value);
        assert KvCache.Cached(t', h, t'[i].addr.value);
      }
    }
  }

  /** No slot can point at the record at `l`. */
  ghost predicate Unreferenced(t: seq<KvCache.KvSlot>, f: Flash, l: Loc)
    requires In(f, l)
  {
    Is(f, l, PreDelete) || forall i :: 0 <= i < |t| && t[i].addr.Some? ==> t[i].hash != Crc32.NameHash(Get(f, l).key)
  }

  /** No slot points at the deleted record, and nothing else moved. */
  lemma KvOkDeleted(t: seq<KvCache.KvSlot>, f: Flash, l: Loc)
    requires In(f, l) && KvOk(t, f, None) && Unreferenced(t, f, l)
    ensures KvOk(t, SetStatus(f, l, Deleted), None)
  {
    forall i | 0 <= i < |t| && t[i].addr.Some? ensures SlotLive(t[i], SetStatus(f, l, Deleted)) {
      var x := t[i].addr.value;
      assert SlotLive(t[i], f) && x != l;
      SetStatusIs(f, l, Deleted, x, Write);
    }
  }

  lemma KvOkDirtied(t: seq<KvCache.KvSlot>, f: Flash, s: nat)
    requires s < |f| && KvOk(t, f, None)
    ensures KvOk(t, f[s := Dirtied(f[s])], None)
  {
  }

  /** Finishing a record keeps the key cache right, once it knows about it. */
  lemma KvOkClosed(kt: seq<KvCache.KvSlot>, f: Flash, s: nat, key: Key, val: Val, n: nat)
    requires s < |f|
    requires KvOk(kt, WithRec(f, s, Rec(PreWrite, key, val, n)), Some(Crc32.NameHash(key))) && KvCache.Wf(kt)
    requires KvCache.Cached(kt, Crc32.NameHash(key), EndOf(WithRec(f, s, Written(key, val)), s))
    ensures KvOk(kt, WithRec(f, s, Written(key, val)), None)
  {
    hide Crc32.NameHash;
    var f1, f2 := WithRec(f, s, Rec(PreWrite, key, val, n)), WithRec(f, s, Written(key, val));
    var h, l := Crc32.NameHash(key), EndOf(f2, s);
    forall i | 0 <= i < |kt| && kt[i].addr.Some? ensures SlotLive(kt[i], f2) {
      var x := kt[i].addr.value;
      if kt[i].hash == h {
        assert KvCache.Maps(kt, i, h, x);
        KvCache.CachedOnce(kt, h, l, x);
      } else {
        assert SlotLive(kt[i], f1);
        assert x.sec == s ==> f1[s].recs[x.idx] == f2[s].recs[x.idx];
      }
    }
  }

  /** Once the entry under `h` points at the live record, the whole cache is right. */
  lemma KvOkFill(t: seq<KvCache.KvSlot>, f: Flash, h: bv16, l: Loc)
    requires KvOk(t, f, Some(h)) && KvCache.Wf(t) && KvCache.Cached(t, h, l)
    requires Is(f, l, Write) && Crc32.NameHash(Get(f, l).key) == h
    ensures KvOk(t, f, None)
  {
    forall i | 0 <= i < |t| && t[i].addr.Some? ensures SlotLive(t[i], f) {
      if t[i].hash == h {
        assert KvCache.Maps(t, i, h, t[i].addr.value);
        KvCache.CachedOnce(t, h, l, t[i].addr.value);
      }
    }
  }

  lemma KvOkPreparing(t: seq<KvCache.KvSlot>, f: Flash, l: Loc)
    requires In(f, l) && KvOk(t, f, None)
    ensures KvOk(t, Preparing(f, l), Some(Crc32.NameHash(Get(f, l).key)))
  {
    forall i | 0 <= i < |t| && t[i].addr.Some? && t[i].hash != Crc32.NameHash(Get(f, l).key)
      ensures SlotLive(t[i], Preparing(f, l))
    {
      assert SlotLive(t[i], f) && t[i].addr.value != l;
    }
  }

  lemma KvOkErased(t: seq<KvCache.KvSlot>, f: Flash, s: nat)
    requires s < |f| && NoLive(f[s]) && KvOk(t, f, None)
    ensures KvOk(t, f[s := Sector(true, Empty, Clean, [])], None)
  {
    forall i | 0 <= i < |t| && t[i].addr.Some? ensures SlotLive(t[i], f[s := Sector(true, Empty, Clean, [])]) {
      assert SlotLive(t[i], f);
    }
  }

  lemma KvOkDirty(t: seq<KvCache.KvSlot>, f: Flash, s: nat, d: Dirty)
    requires s < |f| && KvOk(t, f, None)
    ensures KvOk(t, f[s := f[s].(dirty := d)], None)
  {
  }

  lemma KvOkGivenUp(t: seq<KvCache.KvSlot>, f: Flash, l: Loc)
    requires Is(f, l, PreWrite) && KvOk(t, f, None)
    ensures KvOk(t, SetStatus(f, l, ErrHdr), None)
  {
    forall i | 0 <= i < |t| && t[i].addr.Some? ensures SlotLive(t[i], SetStatus(f, l, ErrHdr)) {
      assert SlotLive(t[i], f);
      SetStatusIs(f, l, ErrHdr, t[i].addr.value, Write);
    }
  }

  // ---------------------------------------------------------------- the map lookups answer from

  /** What the WRITE records alone say. */
  ghost function WritesOf(f: Flash, w: map<Key, Loc>): map<Key, Val>
    requires Index(f, Write, w)
  {
    map k | k in w :: Get(f, w[k]).val
  }

  lemma WritesKeys(f: Flash, w: map<Key, Loc>)
    requires Index(f, Write, w)
    ensures WritesOf(f, w).Keys == w.Keys
  {
  }

  lemma WriteOf(f: Flash, w: map<Key, Loc>, k: Key)
    requires Index(f, Write, w)
    ensures k in w ==> Is(f, w[k], Write) && Get(f, w[k]).key == k
  {
  }

  /** They hold the whole map exactly when every PRE_DELETE record has its replacement. */
  lemma LookupIff(f: Flash, w: map<Key, Loc>, p: map<Key, Loc>)
    requires Indexed(f, w, p)
    ensures WritesOf(f, w) == MapOf(f, w, p) <==> p.Keys <= w.Keys
  {
    var a, b := WritesOf(f, w), MapOf(f, w, p);
    assert a.Keys == w.Keys && b.Keys == w.Keys + p.Keys;
    forall k | k in w ensures a[k] == b[k] {}
    if p.Keys <= w.Keys { assert w.Keys + p.Keys == w.Keys; }
    if a == b { assert p.Keys <= b.Keys; }
  }

  lemma WritesAll(f: Flash, w: map<Key, Loc>, p: map<Key, Loc>)
    requires Indexed(f, w, p)
    ensures p == map[] ==> WritesOf(f, w) == MapOf(f, w, p)
  {
    LookupIff(f, w, p);
  }

  /** Deleting a record takes its key from the WRITE records. */
  lemma WritesMarked(f: Flash, w: map<Key, Loc>, l: Loc)
    requires Is(f, l, Write) && Index(f, Write, w)
    ensures var k := Get(f, l).key;
      Index(Marked(f, l, Deleted), Write, w - {k}) ==> WritesOf(Marked(f, l, Deleted), w - {k}) == WritesOf(f, w) - {k}
  {
    var k, f' := Get(f, l).key, Marked(f, l, Deleted);
    if Index(f', Write, w - {k}) {
      forall x | x in w && x != k ensures Get(f', w[x]).val == Get(f, w[x]).val { assert Is(f, w[x], Write); }
    }
  }

  /** The key has a PRE_DELETE record. */
  ghost predicate HasOld(f: Flash, key: Key) { exists l :: Holds(f, l, PreDelete, key) }

  /** The map `m` without the WRITE record of `key`. */
  ghost function Without(f: Flash, p: map<Key, Loc>, m: map<Key, Val>, key: Key): map<Key, Val> {
    if key in p && In(f, p[key]) then m[key := Get(f, p[key]).val] else m - {key}
  }

  lemma PdHolds(f: Flash, w: map<Key, Loc>, p: map<Key, Loc>, k: Key)
    requires Indexed(f, w, p)
    ensures k in p <==> HasOld(f, k)
    ensures k in p ==> In(f, p[k])
  {
    if k in p { assert Holds(f, p[k], PreDelete, k); }
  }

  lemma MapIs(f: Flash, w: map<Key, Loc>, p: map<Key, Loc>, k: Key)
    requires Indexed(f, w, p) && k !in w
    ensures k in MapOf(f, w, p) <==> HasOld(f, k)
    ensures Without(f, p, MapOf(f, w, p), k) == MapOf(f, w, p)
  {
    PdHolds(f, w, p, k);
  }

  lemma WithoutIs(f: Flash, w: map<Key, Loc>, p: map<Key, Loc>, m: map<Key, Val>, k: Key)
    requires Indexed(f, w, p)
    ensures k in Without(f, p, m, k) <==> HasOld(f, k)
    ensures p == map[] ==> Without(f, p, m, k) == m - {k}
  {
    PdHolds(f, w, p, k);
  }

  lemma ClashFree(f: Flash, w: map<Key, Loc>, key: Key)
    requires Index(f, Write, w) && NoClash(WritesOf(f, w), key)
    ensures NoFalseHit(f, key)
  {
    hide Crc32.NameHash, Padded;
    forall l {:trigger Is(f, l, Write)} | Is(f, l, Write) && FalseHit(f, l, key) ensures Get(f, l).key == key {
      var r := Get(f, l);
      assert r.key in WritesOf(f, w) && WritesOf(f, w)[r.key] == r.val;
      assert NameArea(Written(r.key, r.val)) == NameArea(r);
      assert MayHit(r.key, r.val, key);
    }
  }
}
