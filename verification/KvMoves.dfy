/** What moving records and collecting sectors do to the flash. */
module KvMoves {
  import opened KvRecord
  import opened KvFlash
  import opened KvDisk
  import opened KvCrash
  import opened SectorCache

  /** Sector `s` is in use and follows an EMPTY one in address order. */
  predicate Turns(f: Flash, s: int) {
    1 <= s < |f| && f[s].ok && f[s].store == Using && IsEmpty(f[s - 1])
  }

  /** No EMPTY sector among the first `i` of a walk from `o` comes after `last`. */
  ghost predicate LastEmpty(f: Flash, o: nat, i: nat, last: nat)
    requires |f| == SECTOR_NUM && o < SECTOR_NUM && last < SECTOR_NUM
  {
    forall s: nat :: s < |f| && IsEmpty(f[s]) && RingIndex(o, s) < i ==> RingIndex(o, s) <= RingIndex(o, last)
  }

  lemma LastEmptyStart(f: Flash, o: nat)
    requires |f| == SECTOR_NUM && o < SECTOR_NUM
    ensures LastEmpty(f, o, 0, 0)
  {
  }

  lemma LastEmptyNext(f: Flash, o: nat, i: nat, last: nat)
    requires |f| == SECTOR_NUM && o < SECTOR_NUM && last < SECTOR_NUM && i < SECTOR_NUM && LastEmpty(f, o, i, last)
    ensures LastEmpty(f, o, i + 1, if IsEmpty(f[RingAt(o, i)]) then RingAt(o, i) else last)
  {
    forall x: nat | x < SECTOR_NUM && RingIndex(o, x) == i ensures x == RingAt(o, i) { RingCovers(o, x); }
  }

  /** None of the first `i` sectors of a walk from `o` can hold `size` bytes. */
  ghost predicate NoRoomBefore(f: Flash, o: nat, i: nat, store: Store, size: nat, gc: bool)
    requires |f| == SECTOR_NUM && o < SECTOR_NUM
  {
    forall s: nat :: s < |f| && f[s].ok && f[s].store == store && RingIndex(o, s) < i ==> !CanHold(f[s], size, gc)
  }

  /** The space found for a record: where it starts, and how much is free there. */
  predicate Fits(info: SecInfo, f: Flash) {
    && info.sec < |f| && f[info.sec].ok && info.ok && info.store == f[info.sec].store
    && info.empty == End(f[info.sec]) && info.remain == SEC_SIZE - End(f[info.sec])
  }

  lemma SpaceInShape(f: Flash, info: SecInfo)
    requires Shape(f) && Fits(info, f)
    ensures SectorShape(f[info.sec])
  {
  }

  lemma SpaceBounded(f: Flash, info: SecInfo, size: nat, gc: bool)
    requires Fits(info, f) && CanHold(f[info.sec], size, gc)
    ensures size + REMAIN_THRESHOLD < SEC_SIZE - SECTOR_HDR_SIZE
  {
  }

  /** A sector that holds a record is in use. */
  lemma RecordInUse(f: Flash, l: Loc)
    requires Shape(f) && In(f, l)
    ensures |f| == SECTOR_NUM && f[l.sec].ok && f[l.sec].store == Using
  {
    assert SectorShape(f[l.sec]);
  }

  function Dirtied(sec: Sector): Sector {
    if sec.dirty == Clean then sec.(dirty := DirtyTrue) else sec
  }

  /** The record at `l` with status `st`, its sector dirty. */
  function Marked(f: Flash, l: Loc, st: Status): Flash
    requires In(f, l)
  {
    var f' := SetStatus(f, l, st);
    f'[l.sec := Dirtied(f'[l.sec])]
  }

  /** The words of a record up to its name. */
  lemma WordsOf(key: Key, val: Val)
    ensures HDR_BODY_WORDS + WordsFor(|key|) <= Total(Rec(PreWrite, key, val, 0))
  {
  }

  /** The space found for a record is where it can be begun. */
  lemma BeginFits(f: Flash, info: SecInfo, key: Key, val: Val, blank: bool, gc: bool)
    requires Fits(info, f) && SectorShape(f[info.sec]) && CanHold(f[info.sec], KvSize(key, val), gc) && |key| < KV_NAME_MAX
    requires Placeable(f[info.sec].recs, key, val)
    requires blank == (f[info.sec].recs == [] && info.empty == SECTOR_HDR_SIZE + KV_HDR_SIZE)
    ensures var f1 := f[info.sec := f[info.sec].(store := Using)]; Can(f1, OpBegin(info.sec, key, val, blank))
    ensures f[info.sec].recs == [] ==> blank == (f[info.sec].store == Using)
    ensures blank == IsBlank(f[info.sec])
  {
  }

  lemma AgreesClosed(t: seq<SecSlot>, f: Flash, s: nat, key: Key, val: Val, n: nat, gc: int)
    requires s < |f| && Agrees(t, WithRec(f, s, Rec(PreWrite, key, val, n)), gc, s)
    ensures Agrees(t, WithRec(f, s, Written(key, val)), gc, s)
  {
  }

  /** The flash once the record at `l` is prepared for deletion. */
  function Preparing(f: Flash, l: Loc): Flash
    requires In(f, l)
  {
    if Get(f, l).status == Write then Marked(f, l, PreDelete) else f
  }

  /** The flash after the record at `l` moved to sector `target` (-1: it was only deleted). */
  function Moved(f: Flash, l: Loc, target: int): (f': Flash)
    requires In(f, l) && -1 <= target < |f|
  {
    if target < 0 then Marked(Preparing(f, l), l, Deleted) else MovedInto(Preparing(f, l), l, target)
  }

  lemma WithRecKeepsAt(f: Flash, s: nat, r: Rec, l: Loc)
    requires In(f, l) && s < |f|
    ensures In(WithRec(f, s, r), l)
  {
  }

  function MovedInto(f: Flash, l: Loc, target: nat): Flash
    requires In(f, l) && target < |f|
  {
    WithRecKeepsAt(f, target, Written(Get(f, l).key, Get(f, l).val), l);
    Marked(WithRec(f, target, Written(Get(f, l).key, Get(f, l).val)), l, Deleted)
  }

  /** The sector the allocation may choose. */
  ghost predicate Chosen(f: Flash, l: Loc, target: nat, gc: bool)
    requires In(f, l) && target < |f|
  {
    && CanHold(Preparing(f, l)[target], Size(Get(f, l)), gc)
    && (gc || Preparing(f, l)[target].store == Using || |EmptySet(Preparing(f, l))| >= 2)
    && (Preparing(f, l)[target].store == Empty ==> NoRoom(Preparing(f, l), Using, Size(Get(f, l)), gc))
  }

  /** The allocation finds no room for `size` bytes: neither in a sector in use nor, during a
      collection or beside the EMPTY one kept for collecting, in an EMPTY one. */
  ghost predicate OutOfSpace(f: Flash, size: nat, gc: bool) {
    NoRoom(f, Using, size, gc) && (gc || |EmptySet(f)| >= 2 ==> NoRoom(f, Empty, size, gc))
  }

  /** From `f` to `f'` the record at `l` moved to sector `target`, if not -1, which had room for it. */
  ghost predicate MovedTo(f: Flash, l: Loc, target: int, f': Flash, gc: bool) {
    && In(f, l) && -1 <= target < |f| == SECTOR_NUM && f' == Moved(f, l, target)
    && (target >= 0 ==> Chosen(f, l, target, gc)) && (!gc ==> TakesRoom(Preparing(f, l), Size(Get(f, l))))
  }

  /** It was marked PRE_DELETE, if it was not, and there was no room for it. */
  ghost predicate NotMoved(f: Flash, l: Loc, f': Flash, gc: bool) {
    In(f, l) && f' == Preparing(f, l) && OutOfSpace(f', Size(Get(f, l)), gc)
  }

  lemma MovedToIs(f: Flash, l: Loc, f1: Flash, target: int, f': Flash, gc: bool)
    requires In(f, l) && f1 == Preparing(f, l) && |f| == SECTOR_NUM && In(f1, l) && |f1| == |f| && -1 <= target < |f|
    requires f' == if target < 0 then Marked(f1, l, Deleted) else MovedInto(f1, l, target)
    requires target >= 0 ==> CanHold(f1[target], Size(Get(f, l)), gc) && (gc || f1[target].store == Using || |EmptySet(f1)| >= 2)
    requires target >= 0 && f1[target].store == Empty ==> NoRoom(f1, Using, Size(Get(f, l)), gc)
    requires !gc ==> TakesRoom(f1, Size(Get(f, l)))
    ensures MovedTo(f, l, target, f', gc)
  {
  }

  // ---------------------------------------------------------------- when there is room outside a collection

  ghost predicate AllOk(f: Flash) { forall s :: 0 <= s < |f| ==> f[s].ok }

  /** The sectors that are EMPTY, or that the next boot will format. */
  ghost function SpareSet(f: Flash): set<nat> {
    set s: nat | s < |f| && (!f[s].ok || IsEmpty(f[s]))
  }

  /** A boot finds room for a record of `size` bytes: in a sector in use, or beside another EMPTY one. */
  ghost predicate TakesRoom(f: Flash, size: nat) {
    UsingHolds(f, size) || |SpareSet(f)| >= 2
  }

  ghost predicate UsingHolds(f: Flash, size: nat) {
    exists s: nat :: s < |f| && f[s].ok && f[s].store == Using && CanHold(f[s], size, false)
  }

  lemma ChosenTakes(f: Flash, s: nat, size: nat)
    requires s < |f| && f[s].ok && CanHold(f[s], size, false) && (f[s].store == Using || |EmptySet(f)| >= 2)
    ensures TakesRoom(f, size)
  {
    hide CanHold;
    SubsetSize(EmptySet(f), SpareSet(f));
  }

  /** A record that stands in a sector fits into an EMPTY one. */
  lemma LiveFits(f: Flash, l: Loc)
    requires Shape(f) && In(f, l)
    ensures Size(Get(f, l)) + REMAIN_THRESHOLD < SEC_SIZE - SECTOR_HDR_SIZE
  {
    assert SectorShape(f[l.sec]) && SlotReserved(f[l.sec].recs, l.idx);
  }

  lemma NoRoomIs(f: Flash, size: nat)
    requires Shape(f) && AllOk(f) && size + REMAIN_THRESHOLD < SEC_SIZE - SECTOR_HDR_SIZE
    ensures OutOfSpace(f, size, false) <==> !TakesRoom(f, size)
    ensures |EmptySet(f)| == |SpareSet(f)|
  {
    assert EmptySet(f) == SpareSet(f);
    if |EmptySet(f)| >= 2 && NoRoom(f, Empty, size, false) {
      TwoEmpty(f, 0);
      var e: nat :| e < |f| && IsEmpty(f[e]) && e != 0;
      assert SectorShape(f[e]) && CanHold(f[e], size, false);
    }
  }

  /** The sectors a collection would collect. */
  ghost function DirtySet(f: Flash): set<nat> {
    set s: nat | s < |f| && f[s].ok && (f[s].dirty == DirtyTrue || f[s].dirty == DirtyGc)
  }

  /** From `f` to `f'` no header but that of sector `s` changed, except that sectors came into
      use, no other sector got more free space, the dirty ones stayed as they were, and no record was left unfinished. */
  ghost predicate OthersKept(f: Flash, f': Flash, s: nat) {
    && |f'| == |f| && TornKept(f, f')
    && forall x :: 0 <= x < |f| && x != s ==> KeptSector(f[x], f'[x])
  }

  predicate KeptSector(a: Sector, b: Sector) {
    b.dirty == a.dirty && b.ok == a.ok && End(a) <= End(b) && (a.dirty != Clean ==> b == a)
  }

  /** The sector being collected: its first `j` records are no longer live. */
  ghost predicate Collected(sec: Sector, j: int) {
    && sec.ok && sec.dirty == DirtyGc && j <= |sec.recs|
    && forall i :: 0 <= i < j ==> sec.recs[i].status != Write && sec.recs[i].status != PreDelete
  }

  /** A collection from `o` meets the PRE_DELETE record of each key before its WRITE record, or does not meet the
      WRITE record. */
  ghost predicate TwinsOrdered(f: Flash, w: map<Key, Loc>, p: map<Key, Loc>, o: nat) {
    forall k {:trigger TwinOrdered(f, w, p, o, k)} :: k in w && k in p ==> TwinOrdered(f, w, p, o, k)
  }

  /** The values that the other keys had before. */
  ghost function Olds(f: Flash, w: map<Key, Loc>, p: map<Key, Loc>, o: nat): map<Key, Val>
    requires Indexed(f, w, p)
  {
    map k | k in p && k in w && !TwinOrdered(f, w, p, o, k) :: Get(f, p[k]).val
  }

  /** All of them are among `olds`. */
  ghost predicate OldsCover(olds: map<Key, Val>, f: Flash, w: map<Key, Loc>, p: map<Key, Loc>, o: nat) {
    forall k {:trigger TwinOrdered(f, w, p, o, k)} :: k in w && k in p && !TwinOrdered(f, w, p, o, k) ==>
      k in olds && In(f, p[k]) && Get(f, p[k]).val == olds[k]
  }

  /** All of `olds` are among them. */
  ghost predicate OldsThere(olds: map<Key, Val>, f: Flash, w: map<Key, Loc>, p: map<Key, Loc>, o: nat) {
    forall k :: k in olds ==> k in w && k in p && !TwinOrdered(f, w, p, o, k)
  }

  ghost predicate TwinOrdered(f: Flash, w: map<Key, Loc>, p: map<Key, Loc>, o: nat, k: Key)
    requires k in w && k in p
  {
    && w[k].sec < |f| && p[k].sec < |f|
    && (f[w[k].sec].dirty == Clean || (f[p[k].sec].dirty != Clean && Ahead(o, p[k], w[k])))
  }

  /** The collection would mark the WRITE record at `a` PRE_DELETE while there still is the PRE_DELETE
      record of its key at `b`. */
  predicate TwinAt(f: Flash, o: nat, a: Loc, b: Loc) {
    && Is(f, a, Write) && Is(f, b, PreDelete) && Get(f, a).key == Get(f, b).key && f[a.sec].dirty != Clean
    && !(f[b.sec].dirty != Clean && Ahead(o, b, a))
  }

  predicate Misordered(f: Flash, o: nat) {
    exists s: nat, j: nat, t: nat, i: nat {:trigger TwinAt(f, o, Loc(s, j), Loc(t, i))} ::
      s < |f| && j < |f[s].recs| && t < |f| && i < |f[t].recs| && TwinAt(f, o, Loc(s, j), Loc(t, i))
  }

  lemma MisorderedIff(f: Flash, w: map<Key, Loc>, p: map<Key, Loc>, o: nat)
    requires Indexed(f, w, p)
    ensures Misordered(f, o) <==> !TwinsOrdered(f, w, p, o)
  {
    if Misordered(f, o) {
      var s: nat, j: nat, t: nat, i: nat :|
        s < |f| && j < |f[s].recs| && t < |f| && i < |f[t].recs| && TwinAt(f, o, Loc(s, j), Loc(t, i));
      assert !TwinOrdered(f, w, p, o, Get(f, Loc(s, j)).key);
    }
    if !TwinsOrdered(f, w, p, o) {
      var k :| k in w && k in p && !TwinOrdered(f, w, p, o, k);
      assert Is(f, w[k], Write) && Is(f, p[k], PreDelete);
      assert TwinAt(f, o, Loc(w[k].sec, w[k].idx), Loc(p[k].sec, p[k].idx));
    }
  }

  lemma OldsStart(f: Flash, w: map<Key, Loc>, p: map<Key, Loc>, o: nat)
    requires Indexed(f, w, p)
    ensures OldsCover(Olds(f, w, p, o), f, w, p, o) && OldsThere(Olds(f, w, p, o), f, w, p, o)
    ensures Olds(f, w, p, o) == map[] <==> !Misordered(f, o)
  {
    hide Misordered, Index, TwinOrdered;
    MisorderedIff(f, w, p, o);
    OldsAre(f, w, p, o);
  }

  lemma OldsAre(f: Flash, w: map<Key, Loc>, p: map<Key, Loc>, o: nat)
    requires Indexed(f, w, p)
    ensures OldsCover(Olds(f, w, p, o), f, w, p, o) && OldsThere(Olds(f, w, p, o), f, w, p, o)
    ensures Olds(f, w, p, o) == map[] <==> TwinsOrdered(f, w, p, o)
  {
    hide TwinOrdered;
    var olds := Olds(f, w, p, o);
    forall k ensures k in olds <==> k in w && k in p && !TwinOrdered(f, w, p, o, k) {}
    if k :| k in w && k in p && !TwinOrdered(f, w, p, o, k) { assert k in olds; }
    if olds != map[] {
      var k :| k in olds;
      assert !TwinOrdered(f, w, p, o, k);
    }
  }

  /** Marking a WRITE record PRE_DELETE keeps the records readable exactly when its key has no
      PRE_DELETE record yet: with two of them a reader cannot tell which value is the newer one. */
  lemma MarkingIff(f: Flash, w: map<Key, Loc>, p: map<Key, Loc>, l: Loc)
    requires Indexed(f, w, p) && Is(f, l, Write)
    ensures (exists w', p' :: Indexed(SetStatus(f, l, PreDelete), w', p')) <==> Get(f, l).key !in p
  {
    hide MapOf;
    var f', k := SetStatus(f, l, PreDelete), Get(f, l).key;
    if k !in p {
      PreDeleteStep(f, l, w, p);
    } else if w', p' :| Indexed(f', w', p') {
      SetStatusIs(f, l, PreDelete, l, PreDelete);
      SetStatusIs(f, l, PreDelete, p[k], PreDelete);
      assert false;
    }
  }

  /** A collection from `o` that has come to sector `s` has left none dirty behind it. */
  ghost predicate SweptTo(f: Flash, o: nat, s: nat)
    requires o < SECTOR_NUM && s < SECTOR_NUM
  {
    |f| == SECTOR_NUM && forall x :: x in DirtySet(f) ==> RingIndex(o, x) >= RingIndex(o, s)
  }

  /** A live record of the sector being collected has a twin only as one of `olds`. */
  lemma LiveMovable(f: Flash, w: map<Key, Loc>, p: map<Key, Loc>, o: nat, s: nat, j: nat, inRecovery: bool, olds: map<Key, Val>, care: Care)
    requires Shape(f) && Indexed(f, w, p) && OldsCover(olds, f, w, p, o) && (inRecovery || w.Keys !! p.Keys)
    requires In(f, Loc(s, j)) && Collected(f[s], j) && o < SECTOR_NUM && SweptTo(f, o, s)
    requires care.gc != Calm && (care.gc == Resumable ==> TwinsClean(f, w, p)) && (care.lone ==> p == map[])
    ensures f[s].dirty == DirtyGc
    ensures Is(f, Loc(s, j), Write) && Get(f, Loc(s, j)).key in p ==> care.gc == Any && !care.lone && !TwinsClean(f, w, p) && inRecovery
    ensures var k := Get(f, Loc(s, j)).key;
      Is(f, Loc(s, j), Write) && k in p ==> k in olds && In(f, p[k]) && Get(f, p[k]).val == olds[k]
    ensures Is(f, Loc(s, j), PreDelete) ==> inRecovery || Get(f, Loc(s, j)).key !in w
  {
    var k := Get(f, Loc(s, j)).key;
    if Is(f, Loc(s, j), Write) && k in p { TwinBehind(f, w, p, o, s, j, k); }
  }

  /** Its PRE_DELETE record would have been met before. */
  lemma TwinBehind(f: Flash, w: map<Key, Loc>, p: map<Key, Loc>, o: nat, s: nat, j: nat, k: Key)
    requires Shape(f) && Indexed(f, w, p) && In(f, Loc(s, j)) && Collected(f[s], j) && o < SECTOR_NUM && SweptTo(f, o, s)
    requires k in w && k in p && w[k] == Loc(s, j)
    ensures !TwinOrdered(f, w, p, o, k)
  {
    assert Is(f, p[k], PreDelete) && SectorShape(f[p[k].sec]);
    assert f[p[k].sec].dirty != Clean ==> p[k].sec in DirtySet(f);
  }

  lemma CollectedMark(sec: Sector, j: int)
    requires Collected(sec, j)
    ensures sec.ok && sec.dirty == DirtyGc
  {
  }

  lemma CollectedNoLive(sec: Sector)
    requires Collected(sec, |sec.recs|)
    ensures NoLive(sec)
  {
  }

  /** Sector `x` has at least as much free space as sector `s` had before its `j`-th record. */
  ghost predicate Room(f: Flash, x: nat, s: nat, j: nat) {
    && x < |f| && s < |f| && x != s && j <= |f[s].recs|
    && f[x].ok && f[x].dirty == Clean && (f[x].store == Empty || f[x].store == Using)
    && End(f[x]) <= Off(f[s].recs, j)
  }

  /** Any EMPTY sector will do to start with. */
  lemma StartRoom(f: Flash, w: map<Key, Loc>, p: map<Key, Loc>, s: nat, o: nat, olds: map<Key, Val>) returns (room: nat)
    requires Shape(f) && HasEmpty(f) && s < SECTOR_NUM && f[s].ok && (f[s].dirty == DirtyTrue || f[s].dirty == DirtyGc)
    ensures Can(f, OpDirty(s, DirtyGc)) && |f| == SECTOR_NUM
    ensures var f' := f[s := f[s].(dirty := DirtyGc)];
      && Collected(f'[s], 0) && Room(f', room, s, 0) && OthersKept(f, f', s) && Spares(f', room) == |EmptySet(f)| - 1
      && (TwinsClean(f, w, p) ==> TwinsClean(f', w, p))
      && (OldsCover(olds, f, w, p, o) ==> OldsCover(olds, f', w, p, o)) && (OldsThere(olds, f, w, p, o) ==> OldsThere(olds, f', w, p, o))
      && DirtySet(f') == DirtySet(f) && (Lagless(f) ==> Lagless(f'))
  {
    room :| room < |f| && IsEmpty(f[room]);
    assert SectorShape(f[s]) && SectorShape(f[room]);
    var f' := f[s := f[s].(dirty := DirtyGc)];
    assert EmptySet(f') == EmptySet(f);
    forall l | TornAt(f', l) ensures TornAt(f, l) {}
    forall k | k in w && k in p ensures TwinOrdered(f', w, p, o, k) <==> TwinOrdered(f, w, p, o, k) {}
  }

  /** The EMPTY sectors beside `x`. */
  ghost function Spares(f: Flash, x: nat): int
    requires x < |f|
  {
    |EmptySet(f)| - if IsEmpty(f[x]) then 1 else 0
  }

  /** A move takes an EMPTY sector into use only if the room it had was one, too. */
  lemma MovedSpares(f: Flash, x: nat, s: nat, j: nat, target: int)
    requires Shape(f) && Room(f, x, s, j) && j < |f[s].recs| && Collected(f[s], j) && -1 <= target < |f|
    requires f[s].recs[j].status == Write || f[s].recs[j].status == PreDelete
    requires target >= 0 ==> Chosen(f, Loc(s, j), target, true)
    ensures var f', x' := Moved(f, Loc(s, j), target), if target >= 0 && f[target].store == Empty then target else x;
      |f'| == |f| && x' < |f'| && Spares(f', x') == Spares(f, x)
  {
    hide Moved, CanHold, Shape, Collected, Chosen, Room, SectorShape;
    RoomIn(f, x, s, j);
    CollectedMark(f[s], j);
    var f' := Moved(f, Loc(s, j), target);
    TargetFit(f, s, j, target);
    MovedSectors(f, s, j, target);
    if target >= 0 && f[target].store == Empty {
      RoomEmpty(f, x, s, j, target);
      assert EmptySet(f') == EmptySet(f) - {target};
    } else {
      assert EmptySet(f') == EmptySet(f);
    }
  }

  lemma NoneLive(f: Flash, s: nat, j: nat)
    requires s < |f|
    ensures var f' := f[s := f[s].(dirty := DirtyGc)];
      NoLive(f[s]) ==> !Is(f', Loc(s, j), Write) && !Is(f', Loc(s, j), PreDelete)
  {
  }

  /** Formatting the sector collected makes one more EMPTY sector, and two more if no record was moved. */
  lemma FormatSpares(f0: Flash, f: Flash, s: nat, x: nat)
    requires Shape(f) && s < |f| == |f0| && f[s].ok && f[s].dirty == DirtyGc && x < |f| && Spares(f, x) == |EmptySet(f0)| - 1
    requires NoLive(f0[s]) ==> f == f0[s := f0[s].(dirty := DirtyGc)]
    ensures |EmptySet(f[s := Sector(true, Empty, Clean, [])])| >= |EmptySet(f0)| + if NoLive(f0[s]) then 1 else 0
  {
    hide NoLive;
    assert SectorShape(f[s]);
    assert EmptySet(f[s := Sector(true, Empty, Clean, [])]) == EmptySet(f) + {s};
    if NoLive(f0[s]) {
      assert f0[s].store == f[s].store && EmptySet(f0) == EmptySet(f);
    }
  }

  lemma RoomIn(f: Flash, x: nat, s: nat, j: nat)
    requires Room(f, x, s, j)
    ensures x < |f| && s < |f| && x != s
  {
  }

  lemma RoomEmpty(f: Flash, x: nat, s: nat, j: nat, target: nat)
    requires Shape(f) && Room(f, x, s, j) && j < |f[s].recs| && target < |f| && target != s
    requires Chosen(f, Loc(s, j), target, true) && f[target].store == Empty
    ensures IsEmpty(f[x])
  {
    assert SectorShape(f[s]) && SlotReserved(f[s].recs, j);
    assert CanHold(Preparing(f, Loc(s, j))[x], Size(f[s].recs[j]), true);
  }

  /** So it holds that record: the record fitted behind no fewer bytes when it was written. */
  lemma RoomHolds(f: Flash, x: nat, s: nat, j: nat)
    requires Shape(f) && Room(f, x, s, j) && j < |f[s].recs|
    ensures !OutOfSpace(Preparing(f, Loc(s, j)), Size(f[s].recs[j]), true)
  {
    assert SectorShape(f[s]) && SlotReserved(f[s].recs, j);
    assert CanHold(Preparing(f, Loc(s, j))[x], Size(f[s].recs[j]), true);
  }

  predicate FreeAbove(sec: Sector, size: nat) { sec.ok && SEC_SIZE - End(sec) > size }

  /** At least one dirty sector was collected, if there was one, and none became dirty. */
  ghost predicate DirtyLess(f: Flash, f': Flash) {
    DirtySet(f') <= DirtySet(f) && (DirtySet(f) != {} ==> DirtySet(f') < DirtySet(f))
  }

  /** After `i` sectors of a collection from `o`, those are clean and no other became dirty. */
  ghost predicate Swept(f: Flash, f': Flash, o: nat, i: nat)
    requires o < SECTOR_NUM
  {
    && |f| == |f'| == SECTOR_NUM && DirtySet(f') <= DirtySet(f)
    && forall x :: x in DirtySet(f') ==> RingIndex(o, x) >= i
  }

  lemma GcStart(f: Flash, o: nat)
    requires |f| == SECTOR_NUM && o < SECTOR_NUM
    ensures Swept(f, f, o, 0) && TornKept(f, f)
  {
  }

  /** One step of a collection: sector `s` is collected if it is dirty. */
  lemma GcSwept(f: Flash, f1: Flash, f2: Flash, o: nat, i: nat)
    requires o < SECTOR_NUM && i < SECTOR_NUM && Swept(f, f1, o, i) && TornKept(f, f1)
    requires var s := RingAt(o, i);
      if s in DirtySet(f1) then |f2| == |f1| && OthersKept(f1, f2, s) && f2[s] == Sector(true, Empty, Clean, []) else f2 == f1
    ensures Swept(f, f2, o, i + 1) && TornKept(f, f2)
    ensures NoGcMark(f1) ==> NoGcMark(f2)
    ensures RingAt(o, i) in DirtySet(f1) ==> DirtySet(f2) < DirtySet(f)
  {
    var s := RingAt(o, i);
    forall x: nat | x < SECTOR_NUM && RingIndex(o, x) == i ensures x == s { RingCovers(o, x); }
    if s in DirtySet(f1) {
      assert DirtySet(f2) == DirtySet(f1) - {s};
    }
  }

  /** What a move out of the sector being collected changes. */
  lemma MovedSectors(f: Flash, s: nat, j: nat, target: int)
    requires In(f, Loc(s, j)) && f[s].dirty == DirtyGc && -1 <= target < |f| && target != s
    ensures var f' := Moved(f, Loc(s, j), target); var r := f[s].recs[j];
      && |f'| == |f| && f'[s] == f[s].(recs := f[s].recs[j := r.(status := Deleted)])
      && (target >= 0 ==> f'[target] == Extended(f[target], Written(r.key, r.val)))
      && forall x :: 0 <= x < |f| && x != s && x != target ==> f'[x] == f[x]
  {
    var r := f[s].recs[j];
    assert f[s].recs[j := r.(status := PreDelete)][j := r.(status := Deleted)] == f[s].recs[j := r.(status := Deleted)];
  }

  /** The sector a live record moves to is clean, so it is not the one being collected. */
  lemma TargetFit(f: Flash, s: nat, j: nat, target: int)
    requires Shape(f) && s < |f| && j < |f[s].recs| && Collected(f[s], j) && -1 <= target < |f|
    requires f[s].recs[j].status == Write || f[s].recs[j].status == PreDelete
    requires target >= 0 ==> Chosen(f, Loc(s, j), target, true)
    ensures target != s && Complete(f[s].recs[j]) && SectorShape(f[s])
    ensures target >= 0 ==> SectorShape(f[target]) && f[target].ok && f[target].dirty == Clean
    ensures target >= 0 ==> f[target].store == Using || (f[target].store == Empty && f[target].recs == [])
  {
    assert SectorShape(f[s]) && RecShape(f[s].recs[j]);
    if target >= 0 { assert SectorShape(f[target]); }
  }

  lemma TargetClean(f: Flash, s: nat, j: nat, target: int)
    requires Shape(f) && s < |f| && j < |f[s].recs| && Collected(f[s], j) && -1 <= target < |f|
    requires f[s].recs[j].status == Write || f[s].recs[j].status == PreDelete
    requires target >= 0 ==> Chosen(f, Loc(s, j), target, true)
    ensures target >= 0 ==> f[target].dirty == Clean
  {
    TargetFit(f, s, j, target);
  }

  /** After the `j`-th record moved, there is room for the next one. */
  lemma MovedRoom(f: Flash, x: nat, s: nat, j: nat, target: int)
    requires Shape(f) && Room(f, x, s, j) && j < |f[s].recs| && Collected(f[s], j) && -1 <= target < |f|
    requires f[s].recs[j].status == Write || f[s].recs[j].status == PreDelete
    requires target >= 0 ==> Chosen(f, Loc(s, j), target, true) && Placeable(f[target].recs, f[s].recs[j].key, f[s].recs[j].val)
    ensures target != s
    ensures var f' := Moved(f, Loc(s, j), target);
      Room(f', if target >= 0 && f[target].store == Empty then target else x, s, j + 1)
  {
    hide Chosen, CanHold, Preparing, Moved, SectorShape, SlotReserved, Shape, Placeable, KvSize, Off, Counted;
    var f', r := Moved(f, Loc(s, j), target), f[s].recs[j];
    TargetFit(f, s, j, target);
    MovedSectors(f, s, j, target);
    OffSame(f'[s].recs, f[s].recs, j + 1);
    OffSame(f'[s].recs, f[s].recs, j);
    SlotWhole(f[s], j);
    if target >= 0 {
      EndExtended(f[target], Written(r.key, r.val));
      if f[target].store == Empty {
        EmptyRoom(f, f', target, s, j);
      } else {
        UsedRoom(f, f', x, target, s, j);
      }
    } else {
      UsedRoom(f, f', x, target, s, j);
    }
  }

  lemma SlotWhole(sec: Sector, j: nat)
    requires SectorShape(sec) && j < |sec.recs| && Complete(sec.recs[j])
    ensures Off(sec.recs, j + 1) == Off(sec.recs, j) + Size(sec.recs[j])
  {
    assert SlotReserved(sec.recs, j);
    WholeStep(sec.recs, j);
  }

  lemma EmptyRoom(f: Flash, f': Flash, target: nat, s: nat, j: nat)
    requires target < |f| == |f'| && s < |f| && target != s && j < |f[s].recs| < |f'[s].recs| + 1
    requires IsEmpty(f[target]) && f[target].recs == [] && f[target].dirty == Clean
    requires Off(f'[s].recs, j + 1) == Off(f[s].recs, j) + Size(f[s].recs[j])
    requires f'[target].ok && f'[target].dirty == Clean && f'[target].store == Using
    requires End(f'[target]) == End(f[target]) + Size(f[s].recs[j])
    ensures Room(f', target, s, j + 1)
  {
  }

  lemma UsedRoom(f: Flash, f': Flash, x: nat, target: int, s: nat, j: nat)
    requires Room(f, x, s, j) && |f| == |f'| && j < |f[s].recs| < |f'[s].recs| + 1
    requires Off(f'[s].recs, j + 1) == Off(f[s].recs, j) + Size(f[s].recs[j])
    requires x != target ==> f'[x] == f[x]
    requires x == target ==> f'[x].ok && f'[x].dirty == Clean && f'[x].store == Using && End(f'[x]) == End(f[x]) + Size(f[s].recs[j])
    ensures Room(f', x, s, j + 1)
  {
  }

  lemma MovedCollected(f: Flash, s: nat, j: nat, target: int)
    requires In(f, Loc(s, j)) && Collected(f[s], j) && -1 <= target < |f| && target != s
    ensures var f' := Moved(f, Loc(s, j), target); |f'[s].recs| == |f[s].recs| && Collected(f'[s], j + 1)
  {
    MovedSectors(f, s, j, target);
  }

  lemma MovedTwins(f: Flash, f': Flash, s: nat, j: nat, target: int, w: map<Key, Loc>, p: map<Key, Loc>, w': map<Key, Loc>, p': map<Key, Loc>,
                   o: nat, olds: map<Key, Val>)
    requires Shape(f) && In(f, Loc(s, j)) && Collected(f[s], j) && -1 <= target < |f| && target != s && o < SECTOR_NUM && SweptTo(f, o, s)
    requires Is(f, Loc(s, j), Write) || Is(f, Loc(s, j), PreDelete)
    requires f' == Moved(f, Loc(s, j), target) && (target >= 0 ==> Chosen(f, Loc(s, j), target, true))
    requires Indexed(f, w, p) && Indexed(f', w', p')
    requires var k := Get(f, Loc(s, j)).key;
      && w'.Keys == w.Keys + {k} && p' == if Is(f, Loc(s, j), Write) && k in p then p else p - {k}
    ensures !(Is(f, Loc(s, j), Write) && Get(f, Loc(s, j)).key in p) && TwinsClean(f, w, p) ==> TwinsClean(f', w', p')
    ensures OldsCover(olds, f, w, p, o) ==> OldsCover(olds, f', w', p', o)
    ensures !(Is(f, Loc(s, j), Write) && Get(f, Loc(s, j)).key in p) && OldsThere(olds, f, w, p, o) ==> OldsThere(olds, f', w', p', o)
  {
    hide Moved, Chosen, TwinOrdered, Index, TwinsClean, SweptTo;
    var l, k0 := Loc(s, j), Get(f, Loc(s, j)).key;
    forall k | k in w' && k in p' && k != k0
      ensures TwinStays(f, w, p, f', w', p', o, k)
    {
      MovedTwin(f, f', s, j, target, w, p, w', p', o, k);
    }
    if Is(f, l, Write) && k0 in p {
      CopyOrdered(f, f', s, j, target, w, p, w', p', o);
    } else {
      if TwinsClean(f, w, p) { CleanStays(f, w, p, f', w', p', o, k0); }
      if OldsThere(olds, f, w, p, o) {
        forall k | k in olds ensures k != k0 && k in w' && k in p' {
          MisorderedStays(f, w, p, o, s, j, k);
        }
      }
    }
  }

  /** The records of the key `k` stay where and as they are. */
  ghost predicate TwinStays(f: Flash, w: map<Key, Loc>, p: map<Key, Loc>, f': Flash, w': map<Key, Loc>, p': map<Key, Loc>, o: nat, k: Key) {
    && k in w && k in p && k in w' && k in p' && w'[k] == w[k] && p'[k] == p[k] && In(f, p[k]) && In(f', p[k]) && Get(f', p[k]).val == Get(f, p[k]).val
    && (TwinOrdered(f', w', p', o, k) <==> TwinOrdered(f, w, p, o, k))
    && w[k].sec < |f| == |f'| && f'[w[k].sec].dirty == f[w[k].sec].dirty
  }

  lemma CleanStays(f: Flash, w: map<Key, Loc>, p: map<Key, Loc>, f': Flash, w': map<Key, Loc>, p': map<Key, Loc>, o: nat, k0: Key)
    requires TwinsClean(f, w, p) && k0 !in p' && forall k :: k in w' && k in p' && k != k0 ==> TwinStays(f, w, p, f', w', p', o, k)
    ensures TwinsClean(f', w', p')
  {
    hide TwinOrdered;
    forall k | k in w' && k in p' ensures w'[k].sec < |f'| && f'[w'[k].sec].dirty == Clean { assert TwinStays(f, w, p, f', w', p', o, k); }
  }

  lemma MovedTwin(f: Flash, f': Flash, s: nat, j: nat, target: int, w: map<Key, Loc>, p: map<Key, Loc>, w': map<Key, Loc>, p': map<Key, Loc>, o: nat, k: Key)
    requires In(f, Loc(s, j)) && f[s].dirty == DirtyGc && -1 <= target < |f| && target != s && f' == Moved(f, Loc(s, j), target)
    requires Indexed(f, w, p) && Indexed(f', w', p') && k in w' && k in p' && k != Get(f, Loc(s, j)).key
    requires w'.Keys == w.Keys + {Get(f, Loc(s, j)).key} && (p' == p || p' == p - {Get(f, Loc(s, j)).key})
    ensures TwinStays(f, w, p, f', w', p', o, k)
  {
    hide Moved, Index, TwinStays;
    IndexedAt(f, w, p, k);
    MovedKeeps(f, s, j, target, w[k]);
    MovedKeeps(f, s, j, target, p[k]);
    MovedCount(f, Loc(s, j), target);
    TwinSame(f, f', w, p, w', p', o, k);
  }

  lemma IndexedAt(f: Flash, w: map<Key, Loc>, p: map<Key, Loc>, k: Key)
    requires Indexed(f, w, p) && k in w && k in p
    ensures Is(f, w[k], Write) && Get(f, w[k]).key == k && Is(f, p[k], PreDelete) && Get(f, p[k]).key == k
  {
  }

  lemma TwinSame(f: Flash, f': Flash, w: map<Key, Loc>, p: map<Key, Loc>, w': map<Key, Loc>, p': map<Key, Loc>, o: nat, k: Key)
    requires k in w && k in p && k in w' && k in p' && |f'| == |f| && Indexed(f', w', p')
    requires Is(f, w[k], Write) && Is(f, p[k], PreDelete) && Get(f, w[k]).key == k && Get(f, p[k]).key == k
    requires In(f', w[k]) && Get(f', w[k]) == Get(f, w[k]) && f'[w[k].sec].dirty == f[w[k].sec].dirty
    requires In(f', p[k]) && Get(f', p[k]) == Get(f, p[k]) && f'[p[k].sec].dirty == f[p[k].sec].dirty
    ensures TwinStays(f, w, p, f', w', p', o, k)
  {
    hide Ahead;
    assert Is(f', w[k], Write) && Is(f', p[k], PreDelete);
  }

  /** The copy of a replacement stands in a clean sector. */
  lemma CopyOrdered(f: Flash, f': Flash, s: nat, j: nat, target: int, w: map<Key, Loc>, p: map<Key, Loc>, w': map<Key, Loc>, p': map<Key, Loc>, o: nat)
    requires Shape(f) && In(f, Loc(s, j)) && Collected(f[s], j) && -1 <= target < |f| && target != s && f' == Moved(f, Loc(s, j), target)
    requires Is(f, Loc(s, j), Write) && (target >= 0 ==> Chosen(f, Loc(s, j), target, true))
    requires Indexed(f, w, p) && Indexed(f', w', p') && p' == p && Get(f, Loc(s, j)).key in p && Get(f, Loc(s, j)).key in w'
    ensures TwinOrdered(f', w', p', o, Get(f, Loc(s, j)).key)
  {
    hide Moved, Chosen, Reserved, RecShape;
    var k := Get(f, Loc(s, j)).key;
    TargetFit(f, s, j, target);
    MovedSectors(f, s, j, target);
    assert Is(f', w'[k], Write) && Is(f', p'[k], PreDelete);
    if target < 0 || w'[k].sec != target {
      StaysWrite(f, f', s, j, target, w'[k]);
      assert false;
    }
  }

  lemma StaysWrite(f: Flash, f': Flash, s: nat, j: nat, target: int, x: Loc)
    requires In(f, Loc(s, j)) && f[s].dirty == DirtyGc && -1 <= target < |f| && target != s && f' == Moved(f, Loc(s, j), target)
    requires Is(f', x, Write) && x.sec != target
    ensures Is(f, x, Write) && x != Loc(s, j) && Get(f, x).key == Get(f', x).key
  {
    MovedSectors(f, s, j, target);
  }

  /** A record that the collection moves is not the original of a replacement that comes first. */
  lemma MisorderedStays(f: Flash, w: map<Key, Loc>, p: map<Key, Loc>, o: nat, s: nat, j: nat, k: Key)
    requires Shape(f) && Indexed(f, w, p) && In(f, Loc(s, j)) && Collected(f[s], j) && o < SECTOR_NUM && SweptTo(f, o, s)
    requires k in w && k in p && !TwinOrdered(f, w, p, o, k)
    requires Is(f, Loc(s, j), PreDelete) || (Is(f, Loc(s, j), Write) && Get(f, Loc(s, j)).key !in p)
    ensures k != Get(f, Loc(s, j)).key
  {
    if k == Get(f, Loc(s, j)).key {
      OrderedHere(f, w, p, o, s, j, k);
      assert false;
    }
  }

  /** A PRE_DELETE record that the collection moves comes before its replacement, unless that is in a clean sector. */
  lemma OrderedHere(f: Flash, w: map<Key, Loc>, p: map<Key, Loc>, o: nat, s: nat, j: nat, k: Key)
    requires Shape(f) && Indexed(f, w, p) && In(f, Loc(s, j)) && Collected(f[s], j) && o < SECTOR_NUM && SweptTo(f, o, s)
    requires k in w && k in p
    ensures p[k] == Loc(s, j) ==> TwinOrdered(f, w, p, o, k)
  {
    assert Is(f, w[k], Write) && Is(f, p[k], PreDelete) && SectorShape(f[w[k].sec]);
    if f[w[k].sec].dirty != Clean {
      assert w[k].sec in DirtySet(f);
      RingCovers(o, w[k].sec);
      RingCovers(o, s);
    }
  }

  /** Formatting a sector without a live record moves none. */
  lemma FormatTwins(f: Flash, s: nat, w: map<Key, Loc>, p: map<Key, Loc>, o: nat, olds: map<Key, Val>)
    requires s < |f| && NoLive(f[s]) && Indexed(f, w, p)
    ensures var f' := f[s := Sector(true, Empty, Clean, [])];
      && (TwinsClean(f, w, p) ==> TwinsClean(f', w, p))
      && (OldsCover(olds, f, w, p, o) ==> OldsCover(olds, f', w, p, o)) && (OldsThere(olds, f, w, p, o) ==> OldsThere(olds, f', w, p, o))
      && (Lagless(f) ==> Lagless(f'))
  {
    var f' := f[s := Sector(true, Empty, Clean, [])];
    forall k | k in w && k in p ensures w[k].sec != s && p[k].sec != s && (TwinOrdered(f', w, p, o, k) <==> TwinOrdered(f, w, p, o, k)) {
      assert Is(f, w[k], Write) && Is(f, p[k], PreDelete);
    }
  }

  /** The mark on a replacement is seen in the log. */
  lemma TwinMixed(log: seq<Flash>, n0: int, f: Flash, l: Loc, w: map<Key, Loc>, p: map<Key, Loc>, m: map<Key, Val>, olds: map<Key, Val>,
                  care: Care, at: nat)
    requires TwinMoved(log, n0, f, l, p, m, care) && Indexed(f, w, p) && at <= n0
    requires var k := Get(f, l).key; k in olds && Get(f, p[k]).val == olds[k]
    ensures MixedRange(log, n0, |log|, m, olds, care) && SomeUnindexed(log, at)
  {
    hide CrashState, Index;
    MarkingIff(f, w, p, l);
    var r := Get(f, l);
    var x := Aside(l, r.key, r.val);
    forall i | n0 <= i < |log| ensures OldOrNew(log[i], m, olds, care) { assert Doubled(log[i], m, olds, care, x); }
    assert Unindexed(log[n0]);
  }

  /** With no dirty sector left, the collection has met every replacement. */
  lemma MarksEnd(f: Flash, w: map<Key, Loc>, p: map<Key, Loc>, o: nat, olds: map<Key, Val>, log: seq<Flash>, at: nat, m: map<Key, Val>, care: Care)
    requires Shape(f) && Indexed(f, w, p) && DirtySet(f) == {} && care.veil == None
    requires OldsThere(olds, f, w, p, o) || SomeUnindexed(log, at)
    requires MixedRange(log, at, |log|, m, olds, care)
    ensures SomeUnindexed(log, at) <==> olds != map[]
  {
    hide MapOf;
    if olds == map[] {
      MixedNone(log, at, |log|, m, care);
      forall i | at <= i < |log| ensures !Unindexed(log[i]) { assert CrashState(log[i], m, care); }
    } else if OldsThere(olds, f, w, p, o) {
      var k :| k in olds;
      CleanTwin(f, w, p, o, k);
      assert false;
    }
  }

  lemma CleanTwin(f: Flash, w: map<Key, Loc>, p: map<Key, Loc>, o: nat, k: Key)
    requires Shape(f) && Indexed(f, w, p) && DirtySet(f) == {} && k in w && k in p
    ensures TwinOrdered(f, w, p, o, k)
  {
    assert Is(f, w[k], Write) && Is(f, p[k], PreDelete) && SectorShape(f[w[k].sec]);
    assert w[k].sec !in DirtySet(f);
  }

  // ---------------------------------------------------------------- later slots reach into no moved record

  lemma MarkedLagless(f: Flash, l: Loc, st: Status)
    requires In(f, l) && Lagless(f)
    ensures Lagless(SetStatus(f, l, st)) && Lagless(Marked(f, l, st))
  {
    var recs := f[l.sec].recs;
    OffSame(recs[l.idx := Get(f, l).(status := st)], recs, |recs|);
  }

  lemma WithRecLagless(f: Flash, s: nat, r: Rec)
    requires s < |f| && SectorShape(f[s]) && f[s].ok && Complete(r) && Lagless(f)
    ensures Lagless(WithRec(f, s, r))
  {
    EndExtended(f[s], r);
  }

  /** A move keeps every sector's slots where a traversal counts them. */
  lemma MovedLagless(f: Flash, l: Loc, target: int)
    requires Shape(f) && In(f, l) && -1 <= target < |f| && Lagless(f)
    requires target >= 0 ==> f[target].ok
    ensures Lagless(Preparing(f, l)) && Lagless(Moved(f, l, target))
  {
    hide Lagless, WithRec;
    var f1, r := Preparing(f, l), Written(Get(f, l).key, Get(f, l).val);
    if Get(f, l).status == Write { MarkedLagless(f, l, PreDelete); }
    if target >= 0 {
      PreparingShape(f, l, target);
      WithRecLagless(f1, target, r);
      WithRecKeepsAt(f1, target, r, l);
      MarkedLagless(WithRec(f1, target, r), l, Deleted);
    } else {
      MarkedLagless(f1, l, Deleted);
    }
  }

  /** What a PRE_DELETE record and its copy in sector `x` are before and after the copy is written. */
  lemma BeforeMove(f: Flash, l: Loc, x: nat, gc: bool)
    requires Shape(f) && Is(f, l, PreDelete) && x < |f| && CanHold(f[x], Size(Get(f, l)), gc)
    ensures var r := Get(f, l); var f' := WithRec(f, x, Written(r.key, r.val));
      && |r.key| < KV_NAME_MAX && Is(f', l, PreDelete) && Get(f', l).key == r.key && |f'| == |f| && f'[l.sec].dirty == f[l.sec].dirty
      && (NoGcMark(f) ==> NoGcMark(f')) && (gc ==> f[x].dirty == Clean)
  {
    assert SectorShape(f[l.sec]);
  }

  /** A copy of the record does not change the map. */
  lemma SameValue(f: Flash, w: map<Key, Loc>, p: map<Key, Loc>, l: Loc)
    requires Is(f, l, PreDelete) && Indexed(f, w, p) && Get(f, l).key !in w
    ensures var r := Get(f, l); p[r.key] == l && MapOf(f, w, p)[r.key := r.val] == MapOf(f, w, p)
  {
    assert Get(f, l).key in p;
  }

  /** The record at `l` can be copied to any sector, also when it is disregarded. */
  lemma MovePlaceable(care: Care, f: Flash, l: Loc, x: nat)
    requires VeilOk(care, f) && Is(f, l, PreDelete) && x < |f| && (care.veil == None || Veiled(care) == Some(l))
    requires if care.solid then SolidLive(Seen(f, Veiled(care))) else Lagless(f)
    ensures Placeable(f[x].recs, Get(f, l).key, Get(f, l).val) && (care.solid ==> Solid(Get(f, l).key, Get(f, l).val))
  {
    hide Solid, Lags;
    if care.veil == None { assert Is(f, l, PreDelete); }
  }

  lemma MovedDeleted(f: Flash, l: Loc, target: int)
    requires In(f, l) && 0 <= target < |f|
    ensures Is(Moved(f, l, target), l, Deleted)
  {
  }

  lemma PreparingShape(f: Flash, l: Loc, x: nat)
    requires Shape(f) && In(f, l) && x < |f| && f[x].ok
    ensures SectorShape(Preparing(f, l)[x]) && Preparing(f, l)[x].ok && |Preparing(f, l)| == |f|
  {
    assert SectorShape(f[x]) && SectorShape(f[l.sec]);
    var recs := f[l.sec].recs;
    if Get(f, l).status == Write { UpdateShape(recs, l.idx, Get(f, l).(status := PreDelete)); }
  }

  lemma MoveSteady(f: Flash, l: Loc)
    requires Shape(f) && In(f, l)
    ensures Lagless(f) ==> Lagless(Preparing(f, l))
    ensures |Preparing(f, l)| == |f| && forall x :: 0 <= x < |f| ==> Preparing(f, l)[x].ok == f[x].ok
  {
    if Lagless(f) { MovedLagless(f, l, -1); }
  }

  lemma MovedSteady(f: Flash, l: Loc, target: int)
    requires Shape(f) && In(f, l) && -1 <= target < |f| && (target >= 0 ==> f[target].ok)
    ensures Lagless(f) ==> Lagless(Moved(f, l, target))
  {
    if Lagless(f) { MovedLagless(f, l, target); }
  }

  /** A live record can be placed anywhere when all live records are solid, or no slot was lost. */
  lemma LivePlaceable(f: Flash, l: Loc, st: Status, solid: bool, x: nat)
    requires (st == Write || st == PreDelete) && Is(f, l, st) && x < |f|
    requires if solid then SolidLive(f) else Lagless(f)
    ensures Placeable(f[x].recs, Get(f, l).key, Get(f, l).val) && (solid ==> Solid(Get(f, l).key, Get(f, l).val))
  {
    hide Solid, Lags;
  }

  lemma MovedKeeps(f: Flash, s: nat, j: nat, target: int, x: Loc)
    requires In(f, Loc(s, j)) && f[s].dirty == DirtyGc && -1 <= target < |f| && target != s
    requires In(f, x) && x != Loc(s, j)
    ensures var f' := Moved(f, Loc(s, j), target); In(f', x) && Get(f', x) == Get(f, x) && f'[x.sec].dirty == f[x.sec].dirty
  {
    MovedSectors(f, s, j, target);
  }

  lemma KeyShort(f: Flash, l: Loc)
    requires Shape(f) && In(f, l)
    ensures |Get(f, l).key| < KV_NAME_MAX
  {
    assert SectorShape(f[l.sec]);
  }

  /** Writing a record leaves an EMPTY sector. */
  lemma EmptyKept(f: Flash, s: nat, r: Rec)
    requires s < |f| && HasEmpty(f) && (f[s].store == Using || |EmptySet(f)| >= 2)
    ensures HasEmpty(WithRec(f, s, r))
  {
    var e: nat;
    if f[s].store == Using {
      e :| e < |f| && IsEmpty(f[e]);
    } else {
      TwoEmpty(f, s);
      e :| e < |f| && IsEmpty(f[e]) && e != s;
    }
    assert IsEmpty(WithRec(f, s, r)[e]);
  }

  lemma MarkedEmpty(f: Flash, l: Loc, st: Status)
    requires In(f, l)
    ensures EmptySet(Marked(f, l, st)) == EmptySet(f)
    ensures HasEmpty(f) ==> HasEmpty(Marked(f, l, st))
  {
    var f' := Marked(f, l, st);
    assert forall s :: 0 <= s < |f| ==> IsEmpty(f'[s]) == IsEmpty(f[s]);
    if HasEmpty(f) {
      var e: nat :| e < |f| && IsEmpty(f[e]);
      assert IsEmpty(f'[e]);
    }
  }

  /** Marking a record moves no free space, and keeps a sector usable outside a collection. */
  lemma MarkedFits(f: Flash, l: Loc, st: Status, info: SecInfo, size: nat)
    requires In(f, l) && Fits(info, f) && CanHold(f[info.sec], size, false) && HasEmpty(f)
    ensures Fits(info, Marked(f, l, st)) && CanHold(Marked(f, l, st)[info.sec], size, false)
    ensures HasEmpty(Marked(f, l, st)) && EmptySet(Marked(f, l, st)) == EmptySet(f)
    ensures Marked(f, l, st)[info.sec].store == f[info.sec].store
  {
    EndStatus(f[l.sec], l.idx, st);
    MarkedEmpty(f, l, st);
  }

  /** A move outside a collection leaves an EMPTY sector. */
  lemma MoveKeepsEmpty(f: Flash, l: Loc, target: int)
    requires In(f, l) && -1 <= target < |f| && (target >= 0 ==> Chosen(f, l, target, false))
    ensures HasEmpty(f) ==> HasEmpty(Moved(f, l, target))
  {
    if HasEmpty(f) {
      var f1 := Preparing(f, l);
      MarkedEmpty(f, l, PreDelete);
      if target < 0 {
        MarkedEmpty(f1, l, Deleted);
      } else {
        var r := Written(Get(f, l).key, Get(f, l).val);
        EmptyKept(f1, target, r);
        WithRecKeepsAt(f1, target, r, l);
        MarkedEmpty(WithRec(f1, target, r), l, Deleted);
      }
    }
  }

  lemma NoGcMarkKept(f: Flash, l: Loc, st: Status, s: nat, r: Rec)
    requires In(f, l) && s < |f|
    ensures NoGcMark(f) ==> NoGcMark(Marked(f, l, st)) && NoGcMark(WithRec(Marked(f, l, st), s, r))
  {
  }

  lemma EndGrows(sec: Sector, r: Rec)
    ensures End(sec) <= End(Extended(sec, r))
  {
    var pre := Before(sec, IsBlank(sec));
    OffAppend(pre, r, |pre|);
    assert pre + [r] == Extended(sec, r).recs;
    if IsBlank(sec) { assert Off([BLANK], 1) >= Counted([BLANK], 1) == Counted([BLANK], 0) + Span(BLANK); }
  }

  lemma OthersKeptTrans(f: Flash, f1: Flash, f2: Flash, s: nat)
    requires OthersKept(f, f1, s) && OthersKept(f1, f2, s)
    ensures OthersKept(f, f2, s)
  {
  }

  lemma OthersKeptFormat(f: Flash, f': Flash, s: nat)
    requires OthersKept(f, f', s) && s < |f|
    ensures OthersKept(f, f'[s := Sector(true, Empty, Clean, [])], s)
    ensures NoGcMark(f) ==> NoGcMark(f'[s := Sector(true, Empty, Clean, [])])
  {
    var f2 := f'[s := Sector(true, Empty, Clean, [])];
    forall l | TornAt(f2, l) ensures TornAt(f, l) {
      assert TornAt(f', l);
    }
  }

  lemma MovedOthersKept(f: Flash, s: nat, j: nat, target: int)
    requires In(f, Loc(s, j)) && f[s].dirty == DirtyGc && -1 <= target < |f| && target != s && (target >= 0 ==> f[target].dirty == Clean)
    ensures OthersKept(f, Moved(f, Loc(s, j), target), s)
  {
    hide End;
    MovedSectors(f, s, j, target);
    if target >= 0 { EndGrows(f[target], Written(f[s].recs[j].key, f[s].recs[j].val)); }
  }

  lemma MovedNoGc(f: Flash, l: Loc)
    requires In(f, l)
    ensures NoGcMark(f) ==> NoGcMark(Preparing(f, l))
    ensures forall target {:trigger Moved(f, l, target)} :: -1 <= target < |f| && NoGcMark(f) ==> NoGcMark(Moved(f, l, target))
  {
    NoGcMarkKept(f, l, PreDelete, 0, BLANK);
    forall target {:trigger Moved(f, l, target)} | -1 <= target < |f| && NoGcMark(f) ensures NoGcMark(Moved(f, l, target)) {
      var f1, r := Preparing(f, l), Written(Get(f, l).key, Get(f, l).val);
      if target >= 0 {
        WithRecKeepsAt(f1, target, r, l);
        NoGcMarkKept(WithRec(f1, target, r), l, Deleted, 0, BLANK);
      }
    }
  }

  lemma NewPlaceable(f: Flash, x: nat, key: Key, val: Val, solid: bool)
    requires x < |f| && if solid then Solid(key, val) else Lagless(f)
    ensures Placeable(f[x].recs, key, val)
  {
    hide Solid, Lags;
  }

  lemma WithRecSteady(f: Flash, s: nat, key: Key, val: Val)
    requires Shape(f) && s < |f| && f[s].ok
    ensures Lagless(f) ==> Lagless(WithRec(f, s, Written(key, val)))
  {
    if Lagless(f) {
      assert SectorShape(f[s]);
      WithRecLagless(f, s, Written(key, val));
    }
  }

  lemma NoGcMarkWith(f: Flash, s: nat, r: Rec)
    requires s < |f|
    ensures NoGcMark(f) ==> NoGcMark(WithRec(f, s, r))
  {
  }

  lemma NoTwins(f: Flash, w: map<Key, Loc>, p: map<Key, Loc>)
    requires Indexed(f, w, p) && p == map[]
    ensures TwinsClean(f, w, p) && forall o :: Olds(f, w, p, o) == map[]
  {
    forall o ensures Olds(f, w, p, o) == map[] { CleanOrdered(f, w, p, o); }
  }

  lemma FoundShort(f: Flash, w: map<Key, Loc>, key: Key)
    requires Shape(f) && Index(f, Write, w) && key in w
    ensures |key| < KV_NAME_MAX
  {
    KeyShort(f, w[key]);
  }

  lemma CleanOrdered(f: Flash, w: map<Key, Loc>, p: map<Key, Loc>, o: nat)
    requires Indexed(f, w, p) && TwinsClean(f, w, p)
    ensures TwinsOrdered(f, w, p, o) && Olds(f, w, p, o) == map[]
  {
    forall k | k in w && k in p ensures TwinOrdered(f, w, p, o, k) { assert Is(f, p[k], PreDelete); }
    OldsAre(f, w, p, o);
  }

  lemma StatusEmpty(f: Flash, l: Loc, st: Status)
    requires In(f, l)
    ensures HasEmpty(f) ==> HasEmpty(SetStatus(f, l, st))
  {
    if e: nat :| e < |f| && IsEmpty(f[e]) { assert IsEmpty(SetStatus(f, l, st)[e]); }
  }

  /** The sector a boot takes as the oldest; over `zeroed` tables it is the first one. */
  ghost predicate OldestIs(f: Flash, zeroed: bool, o: nat) {
    if zeroed then o == 0 else (o == 0 || Turns(f, o)) && forall s :: o < s < SECTOR_NUM ==> !Turns(f, s)
  }

  // ---------------------------------------------------------------- which PRE_DELETE records a collection leaves

  /** The records left in `p` are where they were in `p0`. */
  ghost predicate PdLeft(f0: Flash, p0: map<Key, Loc>, f: Flash, p: map<Key, Loc>) {
    && |f| == |f0|
    && forall k {:trigger p[k]} :: k in p ==>
         k in p0 && p[k] == p0[k] && In(f0, p[k]) && In(f, p[k]) && Get(f, p[k]).val == Get(f0, p[k]).val
  }

  /** And their sectors are as clean as before. */
  ghost predicate PdKept(f0: Flash, p0: map<Key, Loc>, f: Flash, p: map<Key, Loc>) {
    && PdLeft(f0, p0, f, p)
    && forall k {:trigger p[k]} :: k in p ==> (f[p[k].sec].dirty == Clean <==> f0[p[k].sec].dirty == Clean)
  }

  /** The values of the PRE_DELETE records. */
  ghost function Was(f: Flash, p: map<Key, Loc>): map<Key, Val> {
    map k | k in p && In(f, p[k]) :: Get(f, p[k]).val
  }

  lemma WasLeft(f0: Flash, p0: map<Key, Loc>, f: Flash, w: map<Key, Loc>, p: map<Key, Loc>, o: nat)
    requires PdLeft(f0, p0, f, p) && Indexed(f, w, p)
    ensures var olds, was := Olds(f, w, p, o), Was(f0, p0); forall k :: k in olds ==> k in was && was[k] == olds[k]
  {
    hide TwinOrdered;
    forall k | k in Olds(f, w, p, o) ensures k in Was(f0, p0) && Was(f0, p0)[k] == Olds(f, w, p, o)[k] { assert p[k] == p0[k]; }
  }

  lemma WasPast(f0: Flash, p0: map<Key, Loc>, f: Flash, p: map<Key, Loc>)
    requires PdLeft(f0, p0, f, p)
    ensures forall k :: k in Was(f, p) ==> k in Was(f0, p0) && Was(f0, p0)[k] == Was(f, p)[k]
  {
    forall k | k in Was(f, p) ensures k in Was(f0, p0) && Was(f0, p0)[k] == Was(f, p)[k] { assert p[k] == p0[k]; }
  }

  lemma PdLeftTrans(f0: Flash, p0: map<Key, Loc>, f1: Flash, p1: map<Key, Loc>, f2: Flash, p2: map<Key, Loc>)
    requires PdLeft(f0, p0, f1, p1) && PdLeft(f1, p1, f2, p2)
    ensures PdLeft(f0, p0, f2, p2)
  {
  }

  /** A move changes no record's value. */
  lemma MovedVals(f: Flash, w: map<Key, Loc>, p: map<Key, Loc>, l: Loc, target: int, p': map<Key, Loc>)
    requires In(f, l) && -1 <= target < |f| && Indexed(f, w, p) && p' == p - {Get(f, l).key}
    ensures PdLeft(f, p, Moved(f, l, target), p')
  {
    hide Moved, Index;
    forall k | k in p' ensures In(f, p[k]) && In(Moved(f, l, target), p[k]) && Get(Moved(f, l, target), p[k]).val == Get(f, p[k]).val {
      assert Is(f, p[k], PreDelete) by { PdIs(f, w, p, k); }
      MovedVal(f, l, target, p[k]);
    }
    MovedCount(f, l, target);
  }

  lemma PdIs(f: Flash, w: map<Key, Loc>, p: map<Key, Loc>, k: Key)
    requires Indexed(f, w, p) && k in p
    ensures Is(f, p[k], PreDelete)
  {
  }

  lemma PdAt(f: Flash, w: map<Key, Loc>, p: map<Key, Loc>, l: Loc)
    requires Indexed(f, w, p) && Is(f, l, PreDelete)
    ensures p == p[Get(f, l).key := l]
  {
    assert Get(f, l).key in p;
  }

  lemma MovedCount(f: Flash, l: Loc, target: int)
    requires In(f, l) && -1 <= target < |f|
    ensures |Moved(f, l, target)| == |f|
  {
  }

  lemma MovedVal(f: Flash, l: Loc, target: int, x: Loc)
    requires In(f, l) && -1 <= target < |f| && In(f, x)
    ensures In(Moved(f, l, target), x) && Get(Moved(f, l, target), x).val == Get(f, x).val
  {
    hide WithRec, Marked;
    var f1, r := Preparing(f, l), Written(Get(f, l).key, Get(f, l).val);
    MarkedVal(f, l, PreDelete, x);
    MarkedVal(f, l, PreDelete, l);
    if target >= 0 {
      WithRecKeepsAt(f1, target, r, l);
      WithRecKeeps(f1, target, r);
      MarkedVal(WithRec(f1, target, r), l, Deleted, x);
    } else {
      MarkedVal(f1, l, Deleted, x);
    }
  }

  lemma MarkedVal(f: Flash, l: Loc, st: Status, x: Loc)
    requires In(f, l) && In(f, x)
    ensures |Marked(f, l, st)| == |f| && In(Marked(f, l, st), x) && Get(Marked(f, l, st), x).val == Get(f, x).val
    ensures Get(Marked(f, l, st), x).key == Get(f, x).key
  {
  }

  /** Every record left in `p` stood in a clean sector. */
  ghost predicate CleanPd(f0: Flash, p0: map<Key, Loc>, p: map<Key, Loc>) {
    forall k {:trigger p[k]} :: k in p ==> k in p0 && p[k] == p0[k] && p[k].sec < |f0| && f0[p[k].sec].dirty == Clean
  }

  lemma PdSame(f: Flash, w: map<Key, Loc>, p: map<Key, Loc>)
    requires Indexed(f, w, p)
    ensures PdKept(f, p, f, p)
  {
    forall k | k in p ensures In(f, p[k]) { assert Is(f, p[k], PreDelete); }
  }

  lemma PdDirty(f0: Flash, f: Flash, w: map<Key, Loc>, p: map<Key, Loc>, s: nat)
    requires Indexed(f, w, p) && s < |f0| && f0[s].dirty != Clean && f == f0[s := f0[s].(dirty := DirtyGc)]
    ensures PdKept(f0, p, f, p)
  {
    forall k | k in p ensures In(f, p[k]) { assert Is(f, p[k], PreDelete); }
  }

  lemma PdKeptTrans(f0: Flash, p0: map<Key, Loc>, f1: Flash, p1: map<Key, Loc>, f2: Flash, p2: map<Key, Loc>)
    requires PdKept(f0, p0, f1, p1) && PdKept(f1, p1, f2, p2)
    ensures PdKept(f0, p0, f2, p2)
  {
  }

  lemma MovedPd(f: Flash, w: map<Key, Loc>, p: map<Key, Loc>, s: nat, j: nat, target: int, p': map<Key, Loc>)
    requires In(f, Loc(s, j)) && f[s].dirty == DirtyGc && -1 <= target < |f| && target != s && Indexed(f, w, p)
    requires p' == if Is(f, Loc(s, j), Write) && Get(f, Loc(s, j)).key in p then p else p - {Get(f, Loc(s, j)).key}
    ensures PdKept(f, p, Moved(f, Loc(s, j), target), p')
  {
    hide Moved;
    forall k | k in p'
      ensures In(f, p[k]) && In(Moved(f, Loc(s, j), target), p[k]) && Get(Moved(f, Loc(s, j), target), p[k]).val == Get(f, p[k]).val
      ensures Moved(f, Loc(s, j), target)[p[k].sec].dirty == f[p[k].sec].dirty
    {
      assert Is(f, p[k], PreDelete);
      if p[k] != Loc(s, j) { MovedKeeps(f, s, j, target, p[k]); }
    }
    MovedSectors(f, s, j, target);
  }

  lemma PdFormat(f0: Flash, p0: map<Key, Loc>, f: Flash, w: map<Key, Loc>, p: map<Key, Loc>, s: nat)
    requires PdKept(f0, p0, f, p) && s < |f| && NoLive(f[s]) && Indexed(f, w, p)
    ensures PdKept(f0, p0, f[s := Sector(true, Empty, Clean, [])], p)
  {
    forall k | k in p ensures p[k].sec != s { assert Is(f, p[k], PreDelete); }
  }

  /** A collection that was not cut short has moved every record of a dirty sector. */
  lemma PdGone(f0: Flash, p0: map<Key, Loc>, f: Flash, w: map<Key, Loc>, p: map<Key, Loc>)
    requires PdKept(f0, p0, f, p) && Shape(f) && Indexed(f, w, p) && DirtySet(f) == {}
    ensures CleanPd(f0, p0, p)
  {
    forall k | k in p ensures f[p[k].sec].dirty == Clean {
      assert Is(f, p[k], PreDelete) && SectorShape(f[p[k].sec]);
      assert p[k].sec !in DirtySet(f);
    }
  }

  /** What the move of a live record out of the sector being collected keeps. */
  lemma LiveMoved(f: Flash, f': Flash, s: nat, j: nat, target: int, room: nat, w: map<Key, Loc>, p: map<Key, Loc>,
                  w': map<Key, Loc>, p': map<Key, Loc>, o: nat, olds: map<Key, Val>, solid: bool) returns (room': nat)
    requires Shape(f) && Indexed(f, w, p) && Indexed(f', w', p') && o < SECTOR_NUM && s < SECTOR_NUM && SweptTo(f, o, s)
    requires In(f, Loc(s, j)) && Collected(f[s], j) && Room(f, room, s, j) && (Is(f, Loc(s, j), Write) || Is(f, Loc(s, j), PreDelete))
    requires -1 <= target < |f| && (target >= 0 ==> Chosen(f, Loc(s, j), target, true)) && f' == Moved(f, Loc(s, j), target)
    requires if solid then SolidLive(f) else Lagless(f)
    requires var k := Get(f, Loc(s, j)).key;
      w'.Keys == w.Keys + {k} && p' == if Is(f, Loc(s, j), Write) && k in p then p else p - {k}
    ensures |f'| == |f| && |f'[s].recs| == |f[s].recs| && Collected(f'[s], j + 1) && Room(f', room', s, j + 1)
    ensures OthersKept(f, f', s) && PdKept(f, p, f', p') && room < |f| && room' < |f'| && Spares(f', room') == Spares(f, room)
    ensures OldsCover(olds, f, w, p, o) ==> OldsCover(olds, f', w', p', o)
    ensures var twin := Is(f, Loc(s, j), Write) && Get(f, Loc(s, j)).key in p;
      && (!twin && TwinsClean(f, w, p) ==> TwinsClean(f', w', p'))
      && (!twin && OldsThere(olds, f, w, p, o) ==> OldsThere(olds, f', w', p', o))
      && (!twin && w.Keys !! p.Keys ==> w'.Keys !! p'.Keys) && (!twin && p == map[] ==> p' == map[])
  {
    hide Moved, Chosen, Room, OthersKept, PdKept, OldsCover, OldsThere, TwinsClean, SweptTo, Lagless, SolidLive, Index, Shape, CanHold, Placeable, Collected, End, Spares;
    CollectedMark(f[s], j);
    MovedCount(f, Loc(s, j), target);
    if target >= 0 { LivePlaceable(f, Loc(s, j), Get(f, Loc(s, j)).status, solid, target); }
    TargetClean(f, s, j, target);
    RoomIn(f, room, s, j);
    MovedRoom(f, room, s, j, target);
    MovedSpares(f, room, s, j, target);
    MovedCollected(f, s, j, target);
    MovedTwins(f, f', s, j, target, w, p, w', p', o, olds);
    MovedOthersKept(f, s, j, target);
    MovedPd(f, w, p, s, j, target, p');
    room' := if target >= 0 && f[target].store == Empty then target else room;
  }

  lemma SweptKept(f: Flash, f': Flash, o: nat, s: nat)
    requires o < SECTOR_NUM && s < SECTOR_NUM && SweptTo(f, o, s) && OthersKept(f, f', s)
    ensures SweptTo(f', o, s)
  {
    forall x | x in DirtySet(f') && x != s ensures x in DirtySet(f) {}
  }

  lemma SweptIs(f: Flash, f': Flash, o: nat, i: nat)
    requires o < SECTOR_NUM && i < SECTOR_NUM && Swept(f, f', o, i)
    ensures SweptTo(f', o, RingAt(o, i))
  {
  }
}
