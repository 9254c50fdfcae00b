/** Which sectors a collection collects, and when a record still finds no room after it. */
module KvCollect {
  import opened KvRecord
  import opened KvFlash
  import opened KvDisk
  import opened KvMoves
  import opened SectorCache

  // ---------------------------------------------------------------- where a collection stops

  /** What a collection of `f` from `o` emptied last before it came to its `i`-th sector: the last dirty sector among
      those before, or `last`, the EMPTY one it began with. */
  ghost predicate Latest(f: Flash, o: nat, last: nat, i: int, x: nat)
    requires |f| == SECTOR_NUM && o < SECTOR_NUM
  {
    if x in DirtySet(f) then RingIndex(o, x) < i && forall y :: y in DirtySet(f) && RingIndex(o, y) < i ==> RingIndex(o, y) <= RingIndex(o, x)
    else x == last && forall y :: y in DirtySet(f) ==> RingIndex(o, y) >= i
  }

  /** A collection of `f` from `o` has come to its `i`-th sector, left the flash `f'` and takes `o'` as the oldest sector.
      It has collected every dirty sector on its way and no other, and `stopped` there if and only if what it emptied
      before the last of them has more than `size` bytes. */
  ghost predicate CameTo(f: Flash, o: nat, last: nat, size: nat, i: nat, f': Flash, o': nat, stopped: bool)
    requires |f| == SECTOR_NUM && o < SECTOR_NUM
  {
    && |f'| == |f| && i <= SECTOR_NUM
    && (forall x: nat {:trigger x in DirtySet(f')} :: x in DirtySet(f') <==> x in DirtySet(f) && RingIndex(o, x) >= i)
    && (forall x {:trigger Latest(f, o, last, i, x)} :: x in DirtySet(f) && Latest(f, o, last, i, x) ==> o' == RingAt(x, 1))
    && ((forall y :: y in DirtySet(f) ==> RingIndex(o, y) >= i) ==> o' == o)
    && (forall s: nat, x: nat {:trigger Latest(f, o, last, RingIndex(o, s), x)} ::
          s in DirtySet(f) && RingIndex(o, s) < i && Latest(f, o, last, RingIndex(o, s), x) ==>
            x < |f| && (FreeAbove(f'[x], size) <==> stopped && RingIndex(o, s) == i - 1))
    && (stopped ==> i > 0 && RingAt(o, i - 1) in DirtySet(f) && IsEmpty(f'[RingAt(o, i - 1)]))
  }

  /** A collection of `f` from `o` for `size` bytes left the flash `f'` and the oldest sector `o'`. */
  ghost predicate Collects(f: Flash, o: nat, size: nat, f': Flash, o': nat)
    requires |f| == SECTOR_NUM && o < SECTOR_NUM
  {
    exists last: nat, i: nat, stopped: bool {:trigger CameTo(f, o, last, size, i, f', o', stopped)} ::
      && last < SECTOR_NUM && IsEmpty(f[last]) && LastEmpty(f, o, SECTOR_NUM, last)
      && CameTo(f, o, last, size, i, f', o', stopped) && (i == SECTOR_NUM || stopped) && Gains(f, f')
  }

  /** The sectors collected that held no live record. */
  ghost function Garbage(f: Flash, f': Flash): set<nat> {
    set s: nat | s in DirtySet(f) && s !in DirtySet(f') && NoLive(f[s])
  }

  /** There is one more EMPTY sector for each of these, and never one less. */
  ghost predicate Gains(f: Flash, f': Flash) {
    |EmptySet(f')| >= |EmptySet(f)| + |Garbage(f, f')|
  }

  /** A collection that emptied sector `x` last; what is still dirty it has not touched. */
  ghost predicate Sweeps(f: Flash, o: nat, last: nat, size: nat, i: nat, f': Flash, o': nat, x: nat, stopped: bool)
    requires |f| == SECTOR_NUM && o < SECTOR_NUM
  {
    && CameTo(f, o, last, size, i, f', o', stopped) && Latest(f, o, last, i, x) && Gains(f, f')
    && forall y {:trigger y in DirtySet(f')} :: y in DirtySet(f') ==> f'[y] == f[y]
  }

  lemma SweepStart(f: Flash, o: nat, last: nat, size: nat)
    requires Shape(f) && o < SECTOR_NUM && last < SECTOR_NUM && IsEmpty(f[last])
    ensures Sweeps(f, o, last, size, 0, f, o, last, false)
  {
    assert SectorShape(f[last]);
    CameStart(f, o, last, size);
    assert Garbage(f, f) == {};
  }

  lemma SweepNext(f: Flash, o: nat, last: nat, size: nat, i: nat, f1: Flash, o1: nat, x: nat, f2: Flash, o2: nat, done: bool)
    requires Shape(f) && o < SECTOR_NUM && i < SECTOR_NUM && last < SECTOR_NUM && IsEmpty(f[last]) && x < SECTOR_NUM
    requires Sweeps(f, o, last, size, i, f1, o1, x, false)
    requires var s := RingAt(o, i);
      if s in DirtySet(f1) then
        && OthersKept(f1, f2, s) && f2[s] == Sector(true, Empty, Clean, []) && o2 == RingAt(s, 1) && done == FreeAbove(f2[x], size)
        && |EmptySet(f2)| >= |EmptySet(f1)| + if NoLive(f1[s]) then 1 else 0
      else f2 == f1 && o2 == o1 && !done
    ensures Sweeps(f, o, last, size, i + 1, f2, o2, if RingAt(o, i) in DirtySet(f1) then RingAt(o, i) else x, done)
  {
    hide CameTo, Latest, NoLive, EmptySet, TornKept;
    assert last !in DirtySet(f) by { assert SectorShape(f[last]); }
    CameNext(f, o, last, size, i, f1, o1, x, f2, o2, done);
    var s := RingAt(o, i);
    if s in DirtySet(f1) {
      CameLess(f, o, last, size, i, f1, o1, false);
      forall y: nat ensures y in DirtySet(f2) <==> y in DirtySet(f1) && y != s {}
      assert Garbage(f, f2) == if NoLive(f1[s]) then Garbage(f, f1) + {s} else Garbage(f, f1);
    }
  }

  /** At its end. */
  lemma SweepEnd(f: Flash, o: nat, last: nat, size: nat, i: nat, f': Flash, o': nat, x: nat, stopped: bool)
    requires Shape(f) && o < SECTOR_NUM && last < SECTOR_NUM && IsEmpty(f[last]) && LastEmpty(f, o, SECTOR_NUM, last)
    requires Sweeps(f, o, last, size, i, f', o', x, stopped) && (i == SECTOR_NUM || stopped)
    ensures Collects(f, o, size, f', o')
  {
    hide CameTo, LastEmpty, Latest, Gains;
    assert CameTo(f, o, last, size, i, f', o', stopped);
  }

  /** A collection goes through all dirty sectors, or stops after one of them. */
  lemma CollectsLess(f: Flash, o: nat, size: nat, f': Flash, o': nat)
    requires Shape(f) && o < SECTOR_NUM && Collects(f, o, size, f', o')
    ensures DirtyLess(f, f') && (DirtySet(f') == {} || Freed(f', size)) && Gains(f, f')
    ensures size >= SEC_SIZE ==> DirtySet(f') == {}
  {
    hide LastEmpty, Latest, Gains;
    var last: nat, i: nat, stopped: bool :| last < SECTOR_NUM && IsEmpty(f[last]) && CameTo(f, o, last, size, i, f', o', stopped) && (i == SECTOR_NUM || stopped);
    assert SectorShape(f[last]);
    CameLess(f, o, last, size, i, f', o', stopped);
    if stopped { StopAfter(f, o, last, size, i, f', o'); }
  }

  lemma CameLess(f: Flash, o: nat, last: nat, size: nat, i: nat, f': Flash, o': nat, stopped: bool)
    requires |f| == SECTOR_NUM && o < SECTOR_NUM && CameTo(f, o, last, size, i, f', o', stopped)
    ensures DirtySet(f') <= DirtySet(f) && (stopped ==> DirtySet(f') < DirtySet(f)) && (i == SECTOR_NUM ==> DirtySet(f') == {})
  {
    if stopped { assert RingAt(o, i - 1) in DirtySet(f) && RingAt(o, i - 1) !in DirtySet(f'); }
    if i == SECTOR_NUM { assert forall x :: x !in DirtySet(f'); }
  }

  /** It stopped because the sector emptied before the last one, or the EMPTY one it began with, has more than `size` bytes
      free, and the last one is EMPTY. */
  lemma StopAfter(f: Flash, o: nat, last: nat, size: nat, i: nat, f': Flash, o': nat)
    requires |f| == SECTOR_NUM && o < SECTOR_NUM && last < SECTOR_NUM && last !in DirtySet(f) && CameTo(f, o, last, size, i, f', o', true)
    ensures Freed(f', size)
  {
    hide FreeAbove;
    var s := RingAt(o, i - 1);
    var x := LatestIs(f, o, last, i - 1);
    assert Latest(f, o, last, RingIndex(o, s), x);
  }

  /** A sector has more than `size` bytes free, and another one is EMPTY. */
  ghost predicate Freed(f: Flash, size: nat) {
    exists x: nat, s: nat {:trigger FreeAbove(f[x], size), IsEmpty(f[s])} :: x < |f| && s < |f| && x != s && FreeAbove(f[x], size) && x !in DirtySet(f) && IsEmpty(f[s])
  }

  lemma {:induction false} LatestIs(f: Flash, o: nat, last: nat, i: nat) returns (x: nat)
    requires |f| == SECTOR_NUM && o < SECTOR_NUM && last !in DirtySet(f) && i <= SECTOR_NUM
    ensures Latest(f, o, last, i, x)
  {
    if i == 0 {
      x := last;
    } else {
      x := LatestIs(f, o, last, i - 1);
      LatestNext(f, o, last, i - 1, x);
      if RingAt(o, i - 1) in DirtySet(f) { x := RingAt(o, i - 1); }
    }
  }

  lemma CameStart(f: Flash, o: nat, last: nat, size: nat)
    requires |f| == SECTOR_NUM && o < SECTOR_NUM && last !in DirtySet(f)
    ensures CameTo(f, o, last, size, 0, f, o, false) && Latest(f, o, last, 0, last)
  {
  }

  /** One step of a collection. */
  lemma CameNext(f: Flash, o: nat, last: nat, size: nat, i: nat, f1: Flash, o1: nat, x: nat, f2: Flash, o2: nat, done: bool)
    requires |f| == SECTOR_NUM && o < SECTOR_NUM && i < SECTOR_NUM && last < SECTOR_NUM && last !in DirtySet(f)
    requires CameTo(f, o, last, size, i, f1, o1, false) && Latest(f, o, last, i, x) && x < SECTOR_NUM
    requires var s := RingAt(o, i);
      if s in DirtySet(f1) then OthersKept(f1, f2, s) && f2[s] == Sector(true, Empty, Clean, []) && o2 == RingAt(s, 1) && done == FreeAbove(f2[x], size)
      else f2 == f1 && o2 == o1 && !done
    ensures CameTo(f, o, last, size, i + 1, f2, o2, done)
    ensures Latest(f, o, last, i + 1, if RingAt(o, i) in DirtySet(f1) then RingAt(o, i) else x)
  {
    hide FreeAbove, TornKept, Latest, IsEmpty;
    var s := RingAt(o, i);
    OnlyAt(o, i);
    LatestNext(f, o, last, i, x);
    LatestOne(f, o, last, i, x);
    if s in DirtySet(f1) {
      LatestOne(f, o, last, i + 1, s);
      forall x: nat ensures x in DirtySet(f2) <==> x in DirtySet(f1) && x != s {}
      forall s', x': nat | s' in DirtySet(f) && RingIndex(o, s') < i && Latest(f, o, last, RingIndex(o, s'), x')
        ensures x' < |f| && !FreeAbove(f2[x'], size)
      {
        LatestBefore(f, o, last, RingIndex(o, s'), x', s);
        NoneFreed(f1, f2, s, x', size);
      }
      assert IsEmpty(f2[s]) by { FreshEmpty(f2, s); }
    } else {
      LatestOne(f, o, last, i + 1, x);
    }
  }

  lemma OnlyAt(o: nat, i: nat)
    requires o < SECTOR_NUM && i < SECTOR_NUM
    ensures forall y: nat :: y < SECTOR_NUM && RingIndex(o, y) == i ==> y == RingAt(o, i)
  {
    forall y: nat | y < SECTOR_NUM && RingIndex(o, y) == i ensures y == RingAt(o, i) { RingCovers(o, y); }
  }

  lemma FreshEmpty(f: Flash, s: nat)
    requires s < |f| && f[s] == Sector(true, Empty, Clean, [])
    ensures IsEmpty(f[s])
  {
  }

  lemma NoneFreed(f1: Flash, f2: Flash, s: nat, x: nat, size: nat)
    requires OthersKept(f1, f2, s) && x < |f1| && x != s && !FreeAbove(f1[x], size)
    ensures !FreeAbove(f2[x], size)
  {
    hide End;
  }

  lemma LatestBefore(f: Flash, o: nat, last: nat, i: int, x: nat, s: nat)
    requires |f| == SECTOR_NUM && o < SECTOR_NUM && last < SECTOR_NUM && last !in DirtySet(f) && Latest(f, o, last, i, x)
    requires s in DirtySet(f) && RingIndex(o, s) >= i
    ensures x < SECTOR_NUM && x != s
  {
  }

  lemma LatestNext(f: Flash, o: nat, last: nat, i: nat, x: nat)
    requires |f| == SECTOR_NUM && o < SECTOR_NUM && i < SECTOR_NUM && Latest(f, o, last, i, x)
    ensures Latest(f, o, last, i + 1, if RingAt(o, i) in DirtySet(f) then RingAt(o, i) else x)
  {
    OnlyAt(o, i);
  }

  /** There is only one such sector. */
  lemma LatestOne(f: Flash, o: nat, last: nat, i: int, x: nat)
    requires |f| == SECTOR_NUM && o < SECTOR_NUM && Latest(f, o, last, i, x)
    ensures forall y {:trigger Latest(f, o, last, i, y)} :: Latest(f, o, last, i, y) ==> y == x
  {
    forall y | Latest(f, o, last, i, y) ensures y == x {
      if y in DirtySet(f) && x in DirtySet(f) {
        RingCovers(o, x);
        RingCovers(o, y);
      }
    }
  }

  // ---------------------------------------------------------------- when a record finds no room

  /** There is no room for `size` bytes if and only if no sector in use has more than these and the 104 bytes kept free,
      nor has an EMPTY one beside another EMPTY one. */
  lemma OutOfSpaceIff(f: Flash, size: nat)
    requires Shape(f)
    ensures OutOfSpace(f, size, false) <==>
      && (forall s: nat :: s < |f| && f[s].ok && f[s].store == Using && f[s].dirty != DirtyGc ==> End(f[s]) + size + 104 >= 2048)
      && (36 + size + 104 < 2048 ==> |EmptySet(f)| < 2)
  {
    hide End;
    forall s: nat | s < |f| && f[s].ok
      ensures f[s].dirty != DirtyUnused && (f[s].store == Empty ==> f[s].dirty == Clean && End(f[s]) == 36)
    {
      EmptyEnd(f, s);
    }
    if |EmptySet(f)| >= 2 { TwoEmpty(f, 0); }
  }

  lemma EmptyEnd(f: Flash, s: nat)
    requires Shape(f) && s < |f| && f[s].ok
    ensures f[s].dirty != DirtyUnused && (f[s].store == Empty ==> f[s].dirty == Clean && End(f[s]) == 36)
  {
    assert SectorShape(f[s]);
  }

  /** A record of `size` bytes fits into an EMPTY sector. */
  predicate Fitting(size: nat) { SECTOR_HDR_SIZE + size + REMAIN_THRESHOLD < SEC_SIZE }

  /** A sector in use has room for `size` bytes but not for the reserve behind them: enough to stop a collection, and too
      little for the record. */
  ghost predicate NearMiss(f: Flash, size: nat) {
    exists s: nat :: s < |f| && f[s].ok && f[s].store == Using && size < SEC_SIZE - End(f[s]) <= size + REMAIN_THRESHOLD
  }

  /** A record of `size` bytes found no room on the flash `f`, nor on `f'`, which differs only if one EMPTY sector was left.
      Then there was a collection, and if the record fits into a sector it met no sector without a live record, and
      went through all of them or stopped too early. */
  ghost predicate Refused(f: Flash, f': Flash, size: nat) {
    && OutOfSpace(f, size, false) && OutOfSpace(f', size, false)
    && if |EmptySet(f)| != 1 then f' == f
       else DirtyLess(f, f') && (Fitting(size) ==> Garbage(f, f') == {} && (DirtySet(f') == {} || NearMiss(f', size)))
  }

  lemma RoomFound(f: Flash, found: bool, info: SecInfo, size: nat)
    requires found ==> Fits(info, f) && CanHold(f[info.sec], size, false) && (info.store == Using || (info.store == Empty && |EmptySet(f)| >= 2))
    requires !found ==> OutOfSpace(f, size, false)
    ensures found <==> !OutOfSpace(f, size, false)
    ensures !found && |EmptySet(f)| != 1 ==> Refused(f, f, size)
  {
  }

  lemma RefusedWhen(f: Flash, o: nat, size: nat, f': Flash, o': nat)
    requires Shape(f) && Shape(f') && o < SECTOR_NUM && |EmptySet(f)| == 1 && Collects(f, o, size, f', o')
    requires OutOfSpace(f, size, false) && OutOfSpace(f', size, false)
    ensures Refused(f, f', size)
  {
    hide Collects, DirtyLess, DirtySet, EmptySet, End;
    CollectsLess(f, o, size, f', o');
    OutOfSpaceIff(f', size);
    if Fitting(size) {
      if DirtySet(f') != {} { StoppedEarly(f', size); }
      SomeGarbage(f, f');
    }
  }

  lemma SomeGarbage(f: Flash, f': Flash)
    requires |EmptySet(f')| < 2 && |EmptySet(f)| == 1 && Gains(f, f')
    ensures Garbage(f, f') == {}
  {
  }

  lemma StoppedEarly(f: Flash, size: nat)
    requires Shape(f) && Freed(f, size) && OutOfSpace(f, size, false) && Fitting(size)
    ensures NearMiss(f, size)
  {
    hide End;
    OutOfSpaceIff(f, size);
    var x: nat, s: nat :| x < |f| && s < |f| && x != s && FreeAbove(f[x], size) && x !in DirtySet(f) && IsEmpty(f[s]);
    assert SectorShape(f[x]);
    if IsEmpty(f[x]) {
      SubsetSize({x, s}, EmptySet(f));
      assert false;
    }
  }

  /** Every sector a collection would collect is without a live record. */
  ghost predicate AllGarbage(f: Flash) {
    DirtySet(f) != {} && forall s {:trigger s in DirtySet(f)} :: s in DirtySet(f) ==> NoLive(f[s])
  }

  /** Then a record that fits is not refused. */
  lemma GarbageTaken(f: Flash, f': Flash, size: nat)
    requires AllGarbage(f) && |EmptySet(f)| == 1 && Fitting(size)
    ensures !Refused(f, f', size)
  {
    hide NoLive;
    if DirtyLess(f, f') {
      var s :| s in DirtySet(f) && s !in DirtySet(f');
      assert s in Garbage(f, f');
    }
  }

  // ---------------------------------------------------------------- where a record goes

  /** Sector `s` is the first one from `o` on that has room for `size` bytes; an EMPTY one only if none in use has and
      another EMPTY one is left. */
  ghost predicate FirstRoom(f: Flash, o: nat, s: nat, size: nat)
    requires |f| == SECTOR_NUM && o < SECTOR_NUM
  {
    && s < |f| && CanHold(f[s], size, false) && NoRoomBefore(f, o, RingIndex(o, s), f[s].store, size, false)
    && (f[s].store == Using || (f[s].store == Empty && |EmptySet(f)| >= 2 && NoRoom(f, Using, size, false)))
  }

  lemma FirstFound(f: Flash, o: nat, info: SecInfo, size: nat)
    requires |f| == SECTOR_NUM && o < SECTOR_NUM && Fits(info, f) && CanHold(f[info.sec], size, false)
    requires NoRoomBefore(f, o, RingIndex(o, info.sec), info.store, size, false) && (info.store == Empty ==> NoRoom(f, Using, size, false))
    requires info.store == Using || (info.store == Empty && |EmptySet(f)| >= 2)
    ensures FirstRoom(f, o, info.sec, size)
  {
    hide NoRoomBefore, NoRoom, CanHold, EmptySet;
  }

  /** `f` and its oldest sector `o` when there is room for `size` bytes, else what a collection leaves. */
  ghost predicate Spaced(f: Flash, o: nat, size: nat, f1: Flash, o1: nat)
    requires |f| == SECTOR_NUM && o < SECTOR_NUM
  {
    if !OutOfSpace(f, size, false) then f1 == f && o1 == o else |EmptySet(f)| == 1 && Collects(f, o, size, f1, o1)
  }

  /** The record at `l` replaced by one in sector `s`. */
  function Replacing(f: Flash, l: Loc, s: nat, key: Key, val: Val): Flash
    requires In(f, l) && s < |f|
  {
    WithRecKeepsAt(Marked(f, l, PreDelete), s, Written(key, val), l);
    Marked(WithRec(Marked(f, l, PreDelete), s, Written(key, val)), l, Deleted)
  }

  lemma ReplacingIs(f: Flash, l: Loc, info: SecInfo, key: Key, val: Val)
    requires In(f, l) && Fits(info, f)
    ensures info.sec < |f|
    ensures var s := info.sec; var f1 := Marked(f, l, PreDelete); In(f1, l) && |f1| == |f| && In(WithRec(f1, s, Written(key, val)), l)
    ensures var s := info.sec; Replacing(f, l, s, key, val) == Marked(WithRec(Marked(f, l, PreDelete), s, Written(key, val)), l, Deleted)
  {
    WithRecKeepsAt(Marked(f, l, PreDelete), info.sec, Written(key, val), l);
  }

  lemma RecordIn(f: Flash, w: map<Key, Loc>, p: map<Key, Loc>, key: Key)
    requires Indexed(f, w, p) && key in w
    ensures In(f, w[key])
  {
    assert Is(f, w[key], Write);
  }

  /** The record for `key` written into the first room in `f1`, where `w` has the WRITE records; an older one is deleted. */
  ghost predicate StoredFrom(f1: Flash, w: map<Key, Loc>, o: nat, key: Key, val: Val, f': Flash) {
    && |f1| == SECTOR_NUM && o < SECTOR_NUM && Index(f1, Write, w)
    && exists s: nat :: FirstRoom(f1, o, s, KvSize(key, val)) && (key in w ==> In(f1, w[key])) &&
         f' == if key in w then Replacing(f1, w[key], s, key, val) else WithRec(f1, s, Written(key, val))
  }

  /** From `f` with the oldest sector `o` to `f'` with `o'` the value of `key` was set to `val`, after a collection if there
      was no room. */
  ghost predicate Stored(f: Flash, o: nat, key: Key, val: Val, f': Flash, o': nat)
    requires |f| == SECTOR_NUM && o < SECTOR_NUM
  {
    exists f1, w {:trigger StoredFrom(f1, w, o', key, val, f')} :: Spaced(f, o, KvSize(key, val), f1, o') && StoredFrom(f1, w, o', key, val, f')
  }

  /** From `f` to `f'` the WRITE record of `key` was deleted, if there was one, and nothing else changed. */
  ghost predicate DeletedIn(f: Flash, key: Key, done: bool, f': Flash) {
    if done then exists l {:trigger Marked(f, l, Deleted)} :: Is(f, l, Write) && Get(f, l).key == key && f' == Marked(f, l, Deleted) else f' == f
  }

  lemma DeletedAt(f: Flash, l: Loc, f': Flash)
    requires Is(f, l, Write) && f' == Marked(f, l, Deleted)
    ensures DeletedIn(f, Get(f, l).key, true, f')
  {
    hide Marked;
  }

  lemma StoredBy(f: Flash, o: nat, f1: Flash, w: map<Key, Loc>, o': nat, s: nat, key: Key, val: Val, f': Flash)
    requires |f| == SECTOR_NUM && o < SECTOR_NUM && |f1| == SECTOR_NUM && o' < SECTOR_NUM && Index(f1, Write, w)
    requires Spaced(f, o, KvSize(key, val), f1, o') && FirstRoom(f1, o', s, KvSize(key, val))
    requires (key in w ==> In(f1, w[key])) && f' == if key in w then Replacing(f1, w[key], s, key, val) else WithRec(f1, s, Written(key, val))
    ensures Stored(f, o, key, val, f', o')
  {
    hide Spaced, FirstRoom, Index, Replacing, WithRec, KvSize;
    assert StoredFrom(f1, w, o', key, val, f');
  }
}
