/** The walk over all slots that recovers them after a power loss: what it has done when it comes to
    a slot, why it stops, and which records it rescues. */
module KvWalk {
  import opened KvRecord
  import opened KvFlash
  import opened KvDisk
  import opened KvCrash
  import opened KvMoves

  /** How a walk ends: behind the last slot, at an unfinished slot, or at a record for whose copy
      there is no room. */
  datatype Ending = Through | AtTorn | AtFull

  /** Some PRE_DELETE record cannot be copied. */
  ghost predicate Stuck(f: Flash) {
    exists l :: Is(f, l, PreDelete) && OutOfSpace(f, Size(Get(f, l)), false)
  }

  /** Slot `l` is at or behind the `j`-th slot of the `i`-th sector of a walk from `o`. */
  predicate Behind(o: nat, l: Loc, i: nat, j: nat) {
    && o < SECTOR_NUM && l.sec < SECTOR_NUM
    && (RingIndex(o, l.sec) > i || (RingIndex(o, l.sec) == i && l.idx >= j))
  }

  /** Of the records in `p0`, those at or behind the `j`-th slot of the `i`-th sector are left. */
  ghost predicate Left(p0: map<Key, Loc>, p: map<Key, Loc>, o: nat, i: nat, j: nat) {
    && p.Keys <= p0.Keys && (forall k :: k in p ==> p[k] == p0[k])
    && forall k :: k in p0 ==> (k in p <==> Behind(o, p0[k], i, j))
  }

  /** Every unfinished slot is at or behind the `j`-th slot of the `i`-th sector. */
  ghost predicate NoneAhead(f: Flash, o: nat, i: nat, j: nat) {
    forall l {:trigger TornAt(f, l)} :: TornAt(f, l) ==> Behind(o, l, i, j)
  }

  /** If any record of `p0` is gone, the first one the walk meets had room for its copy in `f0`. */
  ghost predicate First(f0: Flash, p0: map<Key, Loc>, p: map<Key, Loc>, o: nat) {
    p == p0 || exists k :: FirstOut(f0, p0, p, o, k)
  }

  ghost predicate FirstOut(f0: Flash, p0: map<Key, Loc>, p: map<Key, Loc>, o: nat, k: Key) {
    && k in p0 && k !in p && In(f0, p0[k]) && TakesRoom(f0, Size(Get(f0, p0[k])))
    && forall x :: x in p0 && x != k ==> Ahead(o, p0[k], p0[x])
  }

  /** The walk from `o`, begun with `f0`, `w0` and `p0`, has come to the `j`-th slot of its `i`-th
      sector with `f`, `w` and `p`. */
  ghost predicate Walking(f0: Flash, w0: map<Key, Loc>, p0: map<Key, Loc>, o: nat, f: Flash, w: map<Key, Loc>, p: map<Key, Loc>,
                          i: nat, j: nat) {
    && |f0| == |f| == SECTOR_NUM && o < SECTOR_NUM
    && Left(p0, p, o, i, j) && NoneAhead(f, o, i, j) && TornSame(f0, f) && First(f0, p0, p, o)
    && w.Keys == w0.Keys + (p0.Keys - p.Keys) && (p == p0 ==> f == f0)
  }

  lemma WalkStart(f: Flash, w: map<Key, Loc>, p: map<Key, Loc>, o: nat)
    requires |f| == SECTOR_NUM && Indexed(f, w, p) && o < SECTOR_NUM
    ensures Walking(f, w, p, o, f, w, p, 0, 0)
  {
    forall k | k in p ensures Behind(o, p[k], 0, 0) { assert Is(f, p[k], PreDelete); }
    assert w.Keys == w.Keys + (p.Keys - p.Keys);
  }

  /** What recovering the slot at `l` does, unless the walk stops there. */
  ghost predicate SlotDone(f: Flash, w: map<Key, Loc>, p: map<Key, Loc>, l: Loc, f': Flash, w': map<Key, Loc>, p': map<Key, Loc>) {
    && In(f, l) && |f'| == |f| && TornSame(f, f') && !TornAt(f, l)
    && if Is(f, l, PreDelete) then
         var k := Get(f, l).key;
         p' == p - {k} && w'.Keys == w.Keys + {k} && TakesRoom(f, Size(Get(f, l)))
       else f' == f && w' == w && p' == p
  }

  lemma WalkNext(f0: Flash, w0: map<Key, Loc>, p0: map<Key, Loc>, o: nat, f: Flash, w: map<Key, Loc>, p: map<Key, Loc>,
                 i: nat, j: nat, f': Flash, w': map<Key, Loc>, p': map<Key, Loc>)
    requires Walking(f0, w0, p0, o, f, w, p, i, j) && Indexed(f, w, p) && i < SECTOR_NUM
    requires SlotDone(f, w, p, Loc(RingAt(o, i), j), f', w', p')
    ensures Walking(f0, w0, p0, o, f', w', p', i, j + 1)
  {
    hide TornAt, Size, TakesRoom, Left, First, Behind, RingAt, RingIndex, TornSame, NoneAhead;
    var l := Loc(RingAt(o, i), j);
    TornNext(f0, o, f, f', i, j);
    if Is(f, l, PreDelete) {
      var k := Get(f, l).key;
      assert p[k] == l;
      LeftNext(f, w, p0, p, p', o, i, j);
      FirstNext(f0, p0, p, p', o, i, j, k);
      LeftIn(p0, p, o, i, j, k);
      KeysNext(w0, p0, w, p, w', p', k);
    } else {
      LeftNext(f, w, p0, p, p', o, i, j);
    }
  }

  lemma KeysNext(w0: map<Key, Loc>, p0: map<Key, Loc>, w: map<Key, Loc>, p: map<Key, Loc>, w': map<Key, Loc>, p': map<Key, Loc>, k: Key)
    requires w.Keys == w0.Keys + (p0.Keys - p.Keys) && k in p && k in p0 && p' == p - {k} && w'.Keys == w.Keys + {k}
    ensures w'.Keys == w0.Keys + (p0.Keys - p'.Keys) && p' != p0
  {
    assert p0.Keys - p'.Keys == p0.Keys - p.Keys + {k};
    assert k !in p';
  }

  lemma LeftIn(p0: map<Key, Loc>, p: map<Key, Loc>, o: nat, i: nat, j: nat, k: Key)
    requires Left(p0, p, o, i, j) && k in p
    ensures k in p0 && p0[k] == p[k] && Behind(o, p0[k], i, j)
  {
  }

  lemma TornNext(f0: Flash, o: nat, f: Flash, f': Flash, i: nat, j: nat)
    requires o < SECTOR_NUM && i < SECTOR_NUM && TornSame(f0, f) && TornSame(f, f') && NoneAhead(f, o, i, j)
    requires !TornAt(f, Loc(RingAt(o, i), j))
    ensures TornSame(f0, f') && NoneAhead(f', o, i, j + 1)
  {
    hide TornAt;
    forall x | TornAt(f', x) ensures Behind(o, x, i, j + 1) && TornAt(f0, x) {
      assert TornAt(f, x) && Behind(o, x, i, j);
      RingCovers(o, x.sec);
    }
    forall x | TornAt(f0, x) ensures TornAt(f', x) { assert TornAt(f, x); }
  }

  lemma FirstNext(f: Flash, p0: map<Key, Loc>, p: map<Key, Loc>, p': map<Key, Loc>, o: nat, i: nat, j: nat, k: Key)
    requires First(f, p0, p, o) && Left(p0, p, o, i, j) && o < SECTOR_NUM && i < SECTOR_NUM
    requires k in p && p[k] == Loc(RingAt(o, i), j) && p' == p - {k}
    requires p == p0 ==> In(f, p[k]) && TakesRoom(f, Size(Get(f, p[k]))) && forall x, y :: x in p && y in p && p[x] == p[y] ==> x == y
    ensures First(f, p0, p', o)
  {
    hide TakesRoom, Size;
    if p == p0 {
      forall x | x in p0 && x != k ensures Ahead(o, p0[k], p0[x]) {
        assert p0[x] != p0[k];
        RingCovers(o, p0[x].sec);
      }
      assert FirstOut(f, p0, p', o, k);
    } else {
      var x :| FirstOut(f, p0, p, o, x);
      assert FirstOut(f, p0, p', o, x);
    }
  }

  lemma LeftNext(f: Flash, w: map<Key, Loc>, p0: map<Key, Loc>, p: map<Key, Loc>, p': map<Key, Loc>, o: nat, i: nat, j: nat)
    requires Left(p0, p, o, i, j) && Indexed(f, w, p) && o < SECTOR_NUM && i < SECTOR_NUM && |f| == SECTOR_NUM
    requires var l := Loc(RingAt(o, i), j); p' == if Is(f, l, PreDelete) then p - {Get(f, l).key} else p
    ensures Left(p0, p', o, i, j + 1)
  {
    var l := Loc(RingAt(o, i), j);
    forall k | k in p0 ensures k in p' <==> Behind(o, p0[k], i, j + 1) {
      if k in p {
        assert Is(f, p[k], PreDelete) && Get(f, p[k]).key == k;
        RingCovers(o, p[k].sec);
      }
    }
  }

  lemma WalkSector(f0: Flash, w0: map<Key, Loc>, p0: map<Key, Loc>, o: nat, f: Flash, w: map<Key, Loc>, p: map<Key, Loc>,
                   i: nat, j: nat)
    requires Walking(f0, w0, p0, o, f, w, p, i, j) && Indexed(f, w, p) && i < SECTOR_NUM && j >= |f[RingAt(o, i)].recs|
    ensures Walking(f0, w0, p0, o, f, w, p, i + 1, 0)
  {
    hide First, TornSame;
    forall k | k in p0 ensures k in p <==> Behind(o, p0[k], i + 1, 0) {
      if k in p {
        assert Is(f, p[k], PreDelete);
        RingCovers(o, p[k].sec);
      }
    }
    forall l | TornAt(f, l) ensures Behind(o, l, i + 1, 0) {
      assert Behind(o, l, i, j);
      RingCovers(o, l.sec);
    }
  }

  /** A sector that is not USING holds no record. */
  lemma SkipSector(f: Flash, s: nat)
    requires Shape(f) && s < |f| && (!f[s].ok || f[s].store != Using)
    ensures f[s].recs == []
  {
    assert SectorShape(f[s]);
  }

  /** The walk from `o`, begun with `f0`, `w0` and `p0`, has ended with `f`, `w` and `p`, at slot `at` if
      it stopped. */
  ghost predicate Walked(f0: Flash, w0: map<Key, Loc>, p0: map<Key, Loc>, o: nat, end: Ending, f: Flash, w: map<Key, Loc>,
                         p: map<Key, Loc>, at: Loc) {
    && o < SECTOR_NUM && at.sec < SECTOR_NUM
    && match end
       case Through => Walking(f0, w0, p0, o, f, w, p, SECTOR_NUM, 0)
       case AtTorn =>
         exists f1 :: Walking(f0, w0, p0, o, f1, w, p, RingIndex(o, at.sec), at.idx) && TornAt(f1, at) && f == SetStatus(f1, at, ErrHdr)
       case AtFull =>
         && Walking(f0, w0, p0, o, f, w, p, RingIndex(o, at.sec), at.idx)
         && Is(f, at, PreDelete) && OutOfSpace(f, Size(Get(f, at)), false)
  }

  lemma WalkedAll(f0: Flash, w0: map<Key, Loc>, p0: map<Key, Loc>, o: nat, f: Flash, w: map<Key, Loc>, p: map<Key, Loc>, at: Loc)
    requires Walked(f0, w0, p0, o, Through, f, w, p, at)
    ensures p == map[] && NoTorn(f0) && NoTorn(f)
  {
    forall l ensures !TornAt(f0, l) && !TornAt(f, l) {
      assert TornAt(f0, l) <==> TornAt(f, l);
    }
    forall k ensures k !in p {}
  }

  lemma GaveUp(f: Flash, at: Loc, l: Loc)
    requires TornAt(f, at)
    ensures TornAt(SetStatus(f, at, ErrHdr), l) <==> l != at && TornAt(f, l)
  {
  }

  /** The walk from `o` stops at slot `at`, the `j`-th of its `i`-th sector. */
  lemma StoppedAt(f0: Flash, w0: map<Key, Loc>, p0: map<Key, Loc>, o: nat, end: Ending, f1: Flash, f: Flash, w: map<Key, Loc>,
                  p: map<Key, Loc>, at: Loc, i: nat, j: nat)
    requires Walking(f0, w0, p0, o, f1, w, p, i, j) && i < SECTOR_NUM && at == Loc(RingAt(o, i), j)
    requires end == AtTorn || end == AtFull
    requires end == AtTorn ==> TornAt(f1, at) && f == SetStatus(f1, at, ErrHdr)
    requires end == AtFull ==> f == f1 && Is(f, at, PreDelete) && OutOfSpace(f, Size(Get(f, at)), false)
    ensures Walked(f0, w0, p0, o, end, f, w, p, at)
  {
    hide OutOfSpace, First, Left, NoneAhead, TornSame;
    assert RingIndex(o, at.sec) == i;
  }

  /** A walk leaves no new unfinished slot, and gives up the one it stops at. */
  lemma WalkedTorn(f0: Flash, w0: map<Key, Loc>, p0: map<Key, Loc>, o: nat, end: Ending, f: Flash, w: map<Key, Loc>, p: map<Key, Loc>, at: Loc)
    requires Walked(f0, w0, p0, o, end, f, w, p, at)
    ensures TornKept(f0, f) && (end == AtTorn ==> TornLess(f0, f))
    ensures end == AtFull ==> Stuck(f)
  {
    if end == AtTorn {
      hide TornAt, Behind, First, Left, NoneAhead;
      var f1 :| Walking(f0, w0, p0, o, f1, w, p, RingIndex(o, at.sec), at.idx) && TornAt(f1, at) && f == SetStatus(f1, at, ErrHdr);
      forall l | TornAt(f, l) ensures TornAt(f0, l) { assert TornAt(f1, l) by { GaveUp(f1, at, l); } }
      assert TornAt(f0, at) && !TornAt(f, at) by { GaveUp(f1, at, at); }
    }
  }

  // ---------------------------------------------------------------- which records a walk rescues

  /** At most one record is marked PRE_DELETE, as sets and deletes leave the flash. */
  ghost predicate Lone(f: Flash) {
    forall a, b {:trigger Is(f, a, PreDelete), Is(f, b, PreDelete)} :: Is(f, a, PreDelete) && Is(f, b, PreDelete) ==> a == b
  }

  ghost predicate HasTwin(f: Flash, l: Loc)
    requires In(f, l)
  {
    exists x :: Holds(f, x, Write, Get(f, l).key)
  }

  /** A walk from `o` meets no unfinished slot before `l`. */
  ghost predicate Reached(f: Flash, o: nat, l: Loc) { forall x {:trigger TornAt(f, x)} :: TornAt(f, x) ==> !Ahead(o, x, l) }

  /** Every PRE_DELETE record without a finished replacement comes before the first unfinished slot of
      a walk from `o`, and there is room for its copy. */
  ghost predicate Rescued(f: Flash, o: nat) {
    forall l {:trigger Is(f, l, PreDelete)} :: Is(f, l, PreDelete) && !HasTwin(f, l) ==> Reached(f, o, l) && TakesRoom(f, Size(Get(f, l)))
  }

  /** The walk meets a PRE_DELETE record for which there is no room, with one spare sector left for a
      collection. */
  ghost predicate Starved(f: Flash, o: nat) {
    |SpareSet(f)| == 1 && exists l :: Is(f, l, PreDelete) && Reached(f, o, l) && !TakesRoom(f, Size(Get(f, l)))
  }

  lemma TwinIs(f: Flash, w: map<Key, Loc>, p: map<Key, Loc>, l: Loc)
    requires Indexed(f, w, p) && In(f, l)
    ensures HasTwin(f, l) <==> Get(f, l).key in w
  {
    var k := Get(f, l).key;
    if k in w { assert Holds(f, w[k], Write, k); }
  }

  lemma LoneIs(f: Flash, w: map<Key, Loc>, p: map<Key, Loc>)
    requires Indexed(f, w, p)
    ensures Lone(f) <==> |p| <= 1
    ensures Lone(f) && p != map[] ==> exists k :: k in p && p.Keys == {k}
  {
    if p != map[] {
      var k :| k in p;
      if Lone(f) {
        forall x | x in p ensures x == k { assert Is(f, p[x], PreDelete) && Is(f, p[k], PreDelete); }
        assert p.Keys == {k};
        assert |p| == |p.Keys|;
      } else {
        var a, b :| Is(f, a, PreDelete) && Is(f, b, PreDelete) && a != b;
        var x, y := Get(f, a).key, Get(f, b).key;
        assert {x, y} <= p.Keys && x != y;
        SubsetSize({x, y}, p.Keys);
        assert |p| == |p.Keys|;
      }
    }
  }

  /** The walk is past `l`, or not. */
  lemma PassedIff(f: Flash, o: nat, l: Loc, at: Loc)
    requires o < SECTOR_NUM && l.sec < SECTOR_NUM && at.sec < SECTOR_NUM
    ensures Behind(o, l, RingIndex(o, at.sec), at.idx) <==> !Ahead(o, l, at)
    ensures l != at ==> (Ahead(o, l, at) <==> !Ahead(o, at, l))
    ensures forall x :: Ahead(o, x, l) && Ahead(o, l, at) ==> Ahead(o, x, at)
  {
    RingCovers(o, l.sec);
    RingCovers(o, at.sec);
  }

  /** With one PRE_DELETE record, at `p0[k]`: it is resolved exactly when it is reached and has room. */
  lemma LoneResolved(f0: Flash, w0: map<Key, Loc>, p0: map<Key, Loc>, o: nat, end: Ending, f: Flash, w: map<Key, Loc>,
                     p: map<Key, Loc>, at: Loc, k: Key)
    requires Shape(f0) && AllOk(f0) && Indexed(f0, w0, p0) && k in p0 && p0.Keys == {k}
    requires Walked(f0, w0, p0, o, end, f, w, p, at) && Indexed(f, w, p)
    ensures k !in p <==> Reached(f0, o, p0[k]) && TakesRoom(f0, Size(Get(f0, p0[k])))
    ensures end == AtFull <==> Reached(f0, o, p0[k]) && !TakesRoom(f0, Size(Get(f0, p0[k])))
    ensures end == AtFull ==> f == f0 && p == p0
  {
    var l := p0[k];
    assert Is(f0, l, PreDelete);
    hide TornAt, TakesRoom, OutOfSpace;
    PassedIff(f0, o, l, at);
    if k !in p { assert FirstOut(f0, p0, p, o, k); } else { assert p == p0; }
    match end {
      case Through =>
        WalkedAll(f0, w0, p0, o, f, w, p, at);
      case AtTorn =>
        var f1 :| Walking(f0, w0, p0, o, f1, w, p, RingIndex(o, at.sec), at.idx) && TornAt(f1, at) && f == SetStatus(f1, at, ErrHdr);
        TornIsNot(f0, f1, l, at);
        StoppedBefore(f0, f1, o, l, at);
      case AtFull =>
        StoppedBefore(f0, f, o, l, at);
        FullIs(f0, w0, p0, f, w, p, o, at, k);
    }
  }

  lemma TornIsNot(f0: Flash, f1: Flash, l: Loc, at: Loc)
    requires TornSame(f0, f1) && TornAt(f1, at) && Is(f0, l, PreDelete)
    ensures TornAt(f0, at) && at != l
  {
  }

  /** A walk that came to `at` met no unfinished slot before; so one past `l` met none before `l`. */
  lemma StoppedBefore(f0: Flash, f1: Flash, o: nat, l: Loc, at: Loc)
    requires o < SECTOR_NUM && l.sec < SECTOR_NUM && at.sec < SECTOR_NUM && |f0| == SECTOR_NUM
    requires NoneAhead(f1, o, RingIndex(o, at.sec), at.idx) && TornSame(f0, f1)
    ensures Ahead(o, l, at) || l == at ==> Reached(f0, o, l)
  {
    hide Behind;
    forall x | TornAt(f0, x) ensures (Ahead(o, l, at) || l == at) ==> !Ahead(o, x, l) {
      assert TornAt(f1, x) && x.sec < SECTOR_NUM;
      PassedIff(f0, o, x, at);
      PassedIff(f0, o, l, at);
    }
  }

  lemma FullIs(f0: Flash, w0: map<Key, Loc>, p0: map<Key, Loc>, f: Flash, w: map<Key, Loc>, p: map<Key, Loc>, o: nat, at: Loc, k: Key)
    requires Shape(f0) && AllOk(f0) && Indexed(f0, w0, p0) && k in p0 && p0.Keys == {k}
    requires Walked(f0, w0, p0, o, AtFull, f, w, p, at) && Indexed(f, w, p)
    ensures p == p0 ==> f == f0 && at == p0[k] && !TakesRoom(f0, Size(Get(f0, p0[k])))
    ensures p == p0
  {
    if p == p0 {
      assert Get(f0, at).key in p0;
      LiveFits(f0, at);
      NoRoomIs(f0, Size(Get(f0, at)));
    }
  }

  /** With at most one PRE_DELETE record, the WRITE records a walk leaves hold every key exactly when it
      rescues that one; and it ends with a request for a collection exactly when that one starves. */
  lemma WalkRescues(f0: Flash, w0: map<Key, Loc>, p0: map<Key, Loc>, o: nat, end: Ending, f: Flash, w: map<Key, Loc>,
                    p: map<Key, Loc>, at: Loc)
    requires Shape(f0) && AllOk(f0) && Indexed(f0, w0, p0) && Lone(f0)
    requires Walked(f0, w0, p0, o, end, f, w, p, at) && Indexed(f, w, p)
    ensures p.Keys <= w.Keys <==> Rescued(f0, o)
    ensures end == AtFull && |SpareSet(f0)| == 1 <==> Starved(f0, o)
    ensures end == AtFull ==> f == f0 && p == p0
  {
    hide TakesRoom, Reached, OutOfSpace, Shape, HasTwin, Walked, Rescued, Starved, Lone, Index;
    LoneIs(f0, w0, p0);
    if p0 == map[] {
      NoneResolved(f0, w0, p0, f, w, p, o, end, at);
    } else {
      var k :| k in p0 && p0.Keys == {k};
      LoneResolved(f0, w0, p0, o, end, f, w, p, at, k);
      KeysLeft(f0, w0, p0, f, w, p, o, end, at, k);
      RescuedIs(f0, w0, p0, o, k);
    }
  }

  lemma RescuedIs(f: Flash, w: map<Key, Loc>, p: map<Key, Loc>, o: nat, k: Key)
    requires Indexed(f, w, p) && k in p && p.Keys == {k}
    ensures Rescued(f, o) <==> k in w || (Reached(f, o, p[k]) && TakesRoom(f, Size(Get(f, p[k]))))
    ensures Starved(f, o) <==> |SpareSet(f)| == 1 && Reached(f, o, p[k]) && !TakesRoom(f, Size(Get(f, p[k])))
  {
    hide TakesRoom, Reached, HasTwin, Size;
    forall l | Is(f, l, PreDelete) ensures l == p[k] {}
    assert Is(f, p[k], PreDelete);
    TwinIs(f, w, p, p[k]);
  }

  lemma NoneResolved(f0: Flash, w0: map<Key, Loc>, p0: map<Key, Loc>, f: Flash, w: map<Key, Loc>, p: map<Key, Loc>, o: nat, end: Ending, at: Loc)
    requires Indexed(f0, w0, p0) && p0 == map[] && Walked(f0, w0, p0, o, end, f, w, p, at) && Indexed(f, w, p)
    ensures p == map[] && end != AtFull && Rescued(f0, o) && !Starved(f0, o)
  {
    forall l ensures !Is(f0, l, PreDelete) {}
  }

  lemma KeysLeft(f0: Flash, w0: map<Key, Loc>, p0: map<Key, Loc>, f: Flash, w: map<Key, Loc>, p: map<Key, Loc>, o: nat, end: Ending, at: Loc, k: Key)
    requires p0.Keys == {k} && Walked(f0, w0, p0, o, end, f, w, p, at)
    ensures p.Keys <= w.Keys <==> k in w0 || k !in p
  {
    assert w.Keys == w0.Keys + (p0.Keys - p.Keys) && p.Keys <= {k};
  }

  // ---------------------------------------------------------------- unfinished slots

  /** A move copies a finished record and leaves the unfinished slots alone. */
  lemma MovedTorn(f: Flash, l: Loc)
    requires In(f, l) && !TornAt(f, l) && Get(f, l).status != PreWrite
    ensures TornSame(f, f)
    ensures forall target {:trigger Moved(f, l, target)} :: -1 <= target < |f| ==> TornSame(f, Moved(f, l, target))
  {
    forall target {:trigger Moved(f, l, target)} | -1 <= target < |f| ensures TornSame(f, Moved(f, l, target)) {
      forall x ensures TornAt(Moved(f, l, target), x) <==> TornAt(f, x) {
        MovedSlot(f, l, target, x);
      }
    }
  }

  lemma MovedSlot(f: Flash, l: Loc, target: int, x: Loc)
    requires In(f, l) && Get(f, l).status != PreWrite && -1 <= target < |f|
    ensures TornAt(Moved(f, l, target), x) <==> TornAt(f, x)
  {
    hide TornAt, WithRec, Marked;
    var f1, r := Preparing(f, l), Written(Get(f, l).key, Get(f, l).val);
    MarkedTorn(f, l, PreDelete, x);
    if target >= 0 {
      WithRecTorn(f1, target, r, x);
      WithRecKeepsAt(f1, target, r, l);
      WithRecKeeps(f1, target, r);
      MarkedTorn(WithRec(f1, target, r), l, Deleted, x);
    } else {
      MarkedTorn(f1, l, Deleted, x);
    }
  }

  lemma MarkedTorn(f: Flash, l: Loc, st: Status, x: Loc)
    requires In(f, l) && Get(f, l).status != PreWrite && st != PreWrite
    ensures TornAt(Marked(f, l, st), x) <==> TornAt(f, x)
    ensures In(Marked(f, l, st), l) && |Marked(f, l, st)| == |f| && Get(Marked(f, l, st), l) == Get(f, l).(status := st)
  {
  }

  lemma WithRecTorn(f: Flash, s: nat, r: Rec, x: Loc)
    requires s < |f| && r.status != PreWrite
    ensures TornAt(WithRec(f, s, r), x) <==> TornAt(f, x)
  {
  }

  lemma NotPrepared(f: Flash, l: Loc)
    requires Is(f, l, PreDelete)
    ensures Preparing(f, l) == f && Size(Get(f, l)) == Size(Get(Preparing(f, l), l))
  {
  }

  /** No sector loses a slot. */
  ghost predicate KeepsSlots(f: Flash, f': Flash) {
    |f'| == |f| && forall s :: 0 <= s < |f| ==> |f[s].recs| <= |f'[s].recs|
  }

  /** A move copies a finished record, and needs room. */
  lemma MoveDone(f: Flash, w: map<Key, Loc>, p: map<Key, Loc>, l: Loc, target: int, f': Flash, w': map<Key, Loc>, p': map<Key, Loc>)
    requires Is(f, l, PreDelete) && -1 <= target < |f| && f' == Moved(f, l, target) && TakesRoom(f, Size(Get(f, l)))
    requires p' == p - {Get(f, l).key} && w'.Keys == w.Keys + {Get(f, l).key}
    ensures SlotDone(f, w, p, l, f', w', p')
  {
    hide TakesRoom, Moved, TornSame;
    MovedTorn(f, l);
    MovedLength(f, l, target);
  }

  lemma MovedLength(f: Flash, l: Loc, target: int)
    requires In(f, l) && -1 <= target < |f|
    ensures |Moved(f, l, target)| == |f| && KeepsSlots(f, Moved(f, l, target))
  {
  }

  lemma PdLess(f: Flash, w: map<Key, Loc>, p: map<Key, Loc>, l: Loc)
    requires Indexed(f, w, p) && Is(f, l, PreDelete)
    ensures |p - {Get(f, l).key}| < |p|
  {
    var k := Get(f, l).key;
    assert p[k] == l;
    assert p == (p - {k})[k := l];
  }

  /** A slot that needs no recovery. */
  lemma SlotKept(f: Flash, l: Loc)
    requires In(f, l)
    ensures TornSame(f, f) && KeepsSlots(f, f)
  {
  }

  lemma TornKeptTrans(f: Flash, f1: Flash, f2: Flash)
    requires TornKept(f, f1) && TornKept(f1, f2)
    ensures TornKept(f, f2)
  {
    forall l | TornAt(f2, l) ensures TornAt(f, l) { assert TornAt(f1, l); }
  }

  /** A slot given up is no PRE_DELETE record. */
  lemma PdStatus(f: Flash, w: map<Key, Loc>, p: map<Key, Loc>, l: Loc, st: Status)
    requires In(f, l) && Indexed(f, w, p)
    ensures PdLeft(f, p, f, p) && PdLeft(f, p, SetStatus(f, l, st), p)
  {
    PdSame(f, w, p);
  }

  // ---------------------------------------------------------------- repaired headers

  /** The flash once every sector with an unfinished header is formatted. */
  function Repaired(f: Flash): (f': Flash)
    ensures |f'| == |f|
  {
    seq(|f|, s requires 0 <= s < |f| => if f[s].ok then f[s] else Sector(true, Empty, Clean, []))
  }

  /** No record stood in those sectors. */
  lemma RepairedRecs(f: Flash, s: nat)
    requires Shape(f) && s < |f|
    ensures Repaired(f)[s].recs == f[s].recs
  {
    assert SectorShape(f[s]);
  }

  lemma RepairedSame(f: Flash, l: Loc)
    requires Shape(f)
    ensures In(Repaired(f), l) <==> In(f, l)
    ensures In(f, l) ==> Get(Repaired(f), l) == Get(f, l)
    ensures TornAt(Repaired(f), l) <==> TornAt(f, l)
  {
    if l.sec < |f| { RepairedRecs(f, l.sec); }
  }

  lemma RepairedTorn(f: Flash)
    requires Shape(f)
    ensures TornSame(f, Repaired(f)) && (Lagless(f) ==> Lagless(Repaired(f)))
    ensures Lone(f) <==> Lone(Repaired(f))
  {
    hide TornAt;
    forall l ensures TornAt(Repaired(f), l) <==> TornAt(f, l) { RepairedSame(f, l); }
    forall l ensures Is(Repaired(f), l, PreDelete) <==> Is(f, l, PreDelete) { RepairedSame(f, l); }
    forall s | 0 <= s < |f| ensures Repaired(f)[s].recs == f[s].recs { RepairedRecs(f, s); }
  }

  lemma RepairedPd(f: Flash, w: map<Key, Loc>, p: map<Key, Loc>)
    requires Shape(f) && Indexed(f, w, p)
    ensures PdLeft(f, p, Repaired(f), p)
  {
    hide Repaired;
    PdSame(f, w, p);
    forall k | k in p ensures In(Repaired(f), p[k]) && Get(Repaired(f), p[k]) == Get(f, p[k]) { RepairedSame(f, p[k]); }
  }

  lemma RepairedMarks(f: Flash, w: map<Key, Loc>, p: map<Key, Loc>)
    requires Shape(f) && Indexed(f, w, p)
    ensures HasSpare(f) ==> HasEmpty(Repaired(f))
    ensures NoGcMark(f) <==> NoGcMark(Repaired(f))
    ensures TwinsClean(f, w, p) ==> TwinsClean(Repaired(f), w, p)
    ensures AllOk(Repaired(f))
  {
    forall s | 0 <= s < |f| ensures Repaired(f)[s].dirty == DirtyGc <==> f[s].dirty == DirtyGc { assert SectorShape(f[s]); }
    if s: nat :| s < |f| && (!f[s].ok || IsEmpty(f[s])) {
      assert IsEmpty(Repaired(f)[s]);
    }
  }

  lemma RepairedRoom(f: Flash, size: nat)
    requires Shape(f)
    ensures SpareSet(Repaired(f)) == SpareSet(f)
    ensures TakesRoom(Repaired(f), size) <==> TakesRoom(f, size)
  {
    var f' := Repaired(f);
    forall s: nat | s < |f| ensures (!f[s].ok || IsEmpty(f[s])) <==> (!f'[s].ok || IsEmpty(f'[s])) {}
    assert SpareSet(f') == SpareSet(f);
    if s: nat :| s < |f| && f[s].ok && f[s].store == Using && CanHold(f[s], size, false) {
      assert f'[s] == f[s];
    }
  }

  /** Repairing headers changes nothing about which records a walk rescues. */
  lemma RepairedRescues(f: Flash, o: nat)
    requires Shape(f)
    ensures Rescued(Repaired(f), o) <==> Rescued(f, o)
    ensures Starved(Repaired(f), o) <==> Starved(f, o)
  {
    hide TornAt, TakesRoom, Ahead, HasTwin, Reached, Repaired;
    var f' := Repaired(f);
    RepairedRoom(f, 0);
    forall l
      ensures Is(f', l, PreDelete) <==> Is(f, l, PreDelete)
      ensures Is(f, l, PreDelete) ==> (HasTwin(f', l) <==> HasTwin(f, l)) && (Reached(f', o, l) <==> Reached(f, o, l))
      ensures Is(f, l, PreDelete) ==> (TakesRoom(f', Size(Get(f', l))) <==> TakesRoom(f, Size(Get(f, l))))
    {
      RepairedSame(f, l);
      RepairedReached(f, o, l);
      if In(f, l) {
        RepairedRoom(f, Size(Get(f, l)));
        RepairedTwin(f, l);
      }
    }
  }

  lemma RepairedReached(f: Flash, o: nat, l: Loc)
    requires Shape(f)
    ensures Reached(Repaired(f), o, l) <==> Reached(f, o, l)
  {
    hide TornAt, Ahead, Repaired;
    forall x ensures TornAt(Repaired(f), x) <==> TornAt(f, x) { RepairedSame(f, x); }
  }

  lemma RepairedTwin(f: Flash, l: Loc)
    requires Shape(f) && In(f, l)
    ensures In(Repaired(f), l) && (HasTwin(Repaired(f), l) <==> HasTwin(f, l))
  {
    hide Repaired;
    RepairedSame(f, l);
    forall x ensures Holds(Repaired(f), x, Write, Get(f, l).key) <==> Holds(f, x, Write, Get(f, l).key) { RepairedSame(f, x); }
  }

  // ---------------------------------------------------------------- resuming a collection

  /** None of the first `i` sectors of a walk from `o` has the mark of a collection. */
  ghost predicate NoneMarked(f: Flash, o: nat, i: nat)
    requires |f| == SECTOR_NUM && o < SECTOR_NUM
  {
    forall s: nat :: s < |f| && RingIndex(o, s) < i ==> f[s].dirty != DirtyGc
  }

  lemma MarkedStart(f: Flash, o: nat)
    requires |f| == SECTOR_NUM && o < SECTOR_NUM
    ensures NoneMarked(f, o, 0)
  {
  }

  lemma UnmarkedNext(f: Flash, o: nat, i: nat)
    requires Shape(f) && o < SECTOR_NUM && i < SECTOR_NUM && !(f[RingAt(o, i)].ok && f[RingAt(o, i)].dirty == DirtyGc)
    ensures NoneMarked(f, o, i) ==> NoneMarked(f, o, i + 1)
  {
    assert SectorShape(f[RingAt(o, i)]);
    forall s: nat | s < SECTOR_NUM && RingIndex(o, s) == i ensures s == RingAt(o, i) { RingCovers(o, s); }
  }

  lemma MarkedEnd(f: Flash, o: nat)
    requires |f| == SECTOR_NUM && o < SECTOR_NUM && NoneMarked(f, o, SECTOR_NUM)
    ensures NoGcMark(f)
  {
    forall s: nat | s < |f| ensures f[s].dirty != DirtyGc { RingCovers(o, s); }
  }

  lemma NoneLeftDirty(f: Flash)
    requires Shape(f) && DirtySet(f) == {}
    ensures NoGcMark(f) && NoneDirty(f)
  {
    NoneSet(f);
    forall s | 0 <= s < |f| ensures f[s].dirty != DirtyGc { assert SectorShape(f[s]); }
  }

  // ---------------------------------------------------------------- loading

  /** How a boot ends: every record recovered, a stop at an unfinished slot, or a stop because no
      sector is left to collect into; or it walks for ever. */
  datatype Outcome = Loaded | TornStop | NoSpace | Spins

  predicate NoneDirty(f: Flash) {
    forall s: nat :: s < |f| ==> !f[s].ok || (f[s].dirty != DirtyTrue && f[s].dirty != DirtyGc)
  }

  /** After a walk of a load over `f0`, `w0` and `p0` with the oldest sector `o0`. */
  ghost predicate LoadState(f0: Flash, w0: map<Key, Loc>, p0: map<Key, Loc>, o0: nat, end: Ending, collected: bool,
                            f: Flash, w: map<Key, Loc>, p: map<Key, Loc>, o: nat) {
    && TornKept(f0, f) && (!NoGcMark(f0) ==> collected)
    && (end == Through ==> p == map[] && NoTorn(f))
    && (end == AtTorn ==> TornLess(f0, f))
    && (end == AtFull ==> Stuck(f))
    && (!collected ==> o == o0 && exists at :: Walked(Repaired(f0), w0, p0, o0, end, f, w, p, at))
    && (collected && NoGcMark(f0) && Lone(f0) ==>
          Starved(f0, o0) && !NoneDirty(f0) && CleanPd(Repaired(f0), p0, p) && (end == AtFull ==> NoneDirty(f)))
  }

  /** After a walk that asked for a collection; `collected` if it was not the first one. */
  ghost predicate LoadAsked(f0: Flash, p0: map<Key, Loc>, o0: nat, collected: bool, f: Flash, p: map<Key, Loc>, o: nat) {
    && TornKept(f0, f) && Stuck(f)
    && (NoGcMark(f0) && Lone(f0) ==>
          && Starved(f0, o0)
          && if collected then !NoneDirty(f0) && NoneDirty(f) && CleanPd(Repaired(f0), p0, p)
             else f == Repaired(f0) && p == p0 && o == o0)
  }

  /** What a load has done. */
  ghost predicate LoadDone(f0: Flash, w0: map<Key, Loc>, p0: map<Key, Loc>, o0: nat, outcome: Outcome, collected: bool,
                           f: Flash, w: map<Key, Loc>, p: map<Key, Loc>, o: nat) {
    && TornKept(f0, f) && (!NoGcMark(f0) ==> collected)
    && (outcome == Loaded ==> p == map[] && NoTorn(f))
    && (outcome == TornStop ==> TornLess(f0, f))
    && (outcome == NoSpace || outcome == Spins ==> Stuck(f))
    && (outcome == Spins ==> NoneDirty(f))
    && (!collected ==> outcome != Spins && o == o0)
    && (!collected && outcome == Loaded ==> NoTorn(f0))
    && (!collected && Lone(f0) ==> (p.Keys <= w.Keys <==> Rescued(f0, o0)) && !Starved(f0, o0))
    && (collected && NoGcMark(f0) && Lone(f0) ==>
          Starved(f0, o0) && if NoneDirty(f0) then outcome == Spins && p == p0 else CleanPd(Repaired(f0), p0, p))
  }

  lemma LoadFirst(f0: Flash, w0: map<Key, Loc>, p0: map<Key, Loc>, o0: nat, f1: Flash, w1: map<Key, Loc>, p1: map<Key, Loc>, o: nat,
                  end: Ending, f: Flash, w: map<Key, Loc>, p: map<Key, Loc>, at: Loc)
    requires Shape(f0) && TornKept(Repaired(f0), f1) && Walked(f1, w1, p1, o, end, f, w, p, at)
    requires NoGcMark(f0) ==> f1 == Repaired(f0) && w1 == w0 && p1 == p0 && o == o0
    ensures LoadState(f0, w0, p0, o0, end, !NoGcMark(f0), f, w, p, o)
  {
    hide Walked, TornAt, Repaired, NoGcMark, Stuck;
    RepairedTorn(f0);
    WalkedTorn(f1, w1, p1, o, end, f, w, p, at);
    if end == Through { WalkedAll(f1, w1, p1, o, f, w, p, at); }
    TornKeptTrans(f0, Repaired(f0), f1);
    TornLessTrans(f0, f1, f);
  }

  lemma TornLessTrans(f: Flash, f1: Flash, f2: Flash)
    requires TornKept(f, f1) && TornKept(f1, f2)
    ensures TornKept(f, f2) && (TornLess(f1, f2) ==> TornLess(f, f2))
  {
    hide TornAt;
    TornKeptTrans(f, f1, f2);
    if TornLess(f1, f2) {
      var l :| TornAt(f1, l) && !TornAt(f2, l);
      assert TornAt(f, l);
    }
  }

  lemma SpareIs(f: Flash)
    requires AllOk(f)
    ensures EmptySet(f) == SpareSet(f)
  {
  }

  lemma NowAsked(f0: Flash, w0: map<Key, Loc>, p0: map<Key, Loc>, o0: nat, collected: bool, f: Flash, w: map<Key, Loc>, p: map<Key, Loc>, o: nat)
    requires LoadState(f0, w0, p0, o0, AtFull, collected, f, w, p, o) && |EmptySet(f)| == 1
    requires Shape(f0) && Indexed(f0, w0, p0) && Indexed(f, w, p)
    ensures LoadAsked(f0, p0, o0, collected, f, p, o)
  {
    hide Walked, TornAt, Shape, Index, Lone, Starved, Stuck, EmptySet, SpareSet, Repaired;
    if !collected && Lone(f0) {
      var at :| Walked(Repaired(f0), w0, p0, o0, AtFull, f, w, p, at);
      FirstLone(f0, w0, p0, o0, AtFull, f, w, p, at);
    }
  }

  /** The first walk over a flash with at most one PRE_DELETE record. */
  lemma FirstLone(f0: Flash, w0: map<Key, Loc>, p0: map<Key, Loc>, o: nat, end: Ending, f: Flash, w: map<Key, Loc>, p: map<Key, Loc>, at: Loc)
    requires Shape(f0) && Indexed(f0, w0, p0) && Lone(f0) && Indexed(f, w, p)
    requires Walked(Repaired(f0), w0, p0, o, end, f, w, p, at)
    ensures p.Keys <= w.Keys <==> Rescued(f0, o)
    ensures end == AtFull && |EmptySet(f)| == 1 <==> Starved(f0, o)
    ensures end == AtFull ==> f == Repaired(f0) && p == p0
  {
    hide Walked, TornAt, Index, Lone, Starved, Rescued, EmptySet, SpareSet, Repaired, SectorShape;
    var f' := Repaired(f0);
    RepairedMarks(f0, w0, p0);
    RepairedTorn(f0);
    RepairedShape(f0);
    RepairedIndexed(f0, w0, p0);
    WalkRescues(f', w0, p0, o, end, f, w, p, at);
    RepairedRescues(f0, o);
    SpareIs(f');
  }

  lemma RepairedShape(f: Flash)
    requires Shape(f)
    ensures Shape(Repaired(f))
  {
    forall s | 0 <= s < |f| ensures SectorShape(Repaired(f)[s]) { assert SectorShape(f[s]); }
  }

  lemma RepairedIndexed(f: Flash, w: map<Key, Loc>, p: map<Key, Loc>)
    requires Shape(f) && Indexed(f, w, p)
    ensures Indexed(Repaired(f), w, p)
  {
    hide Repaired;
    forall l, st ensures Is(Repaired(f), l, st) <==> Is(f, l, st) { RepairedSame(f, l); }
    forall l | In(f, l) ensures In(Repaired(f), l) && Get(Repaired(f), l) == Get(f, l) { RepairedSame(f, l); }
  }

  /** Nothing is dirty, so the collection changes nothing, and the walk begins again as it was. */
  lemma NowSpins(f0: Flash, w0: map<Key, Loc>, p0: map<Key, Loc>, o0: nat, collected: bool, f: Flash, w: map<Key, Loc>, p: map<Key, Loc>, o: nat)
    requires Shape(f0) && LoadAsked(f0, p0, o0, collected, f, p, o) && NoneDirty(f)
    ensures LoadDone(f0, w0, p0, o0, Spins, true, f, w, p, o)
  {
    hide TornAt, Starved, Stuck, Lone, NoneDirty;
    RepairedDirty(f0);
  }

  /** Whether the collections so far have left two PRE_DELETE records of one key. */
  ghost predicate MixedSoFar(f0: Flash, o0: nat, collected: bool, mixed: bool) {
    (mixed ==> collected) && (NoGcMark(f0) && Lone(f0) ==> (mixed <==> collected && Misordered(f0, o0)))
  }

  lemma MixedStart(f0: Flash, o0: nat)
    ensures MixedSoFar(f0, o0, !NoGcMark(f0), false)
  {
  }

  /** Whether a load does. */
  ghost predicate MixedWhen(f0: Flash, o0: nat, collected: bool, mixed: bool) {
    (mixed ==> collected) && (NoGcMark(f0) && Lone(f0) ==> (mixed <==> Starved(f0, o0) && Misordered(f0, o0)))
  }

  /** A collection leaves them when it meets a replacement first; where nothing is dirty, it meets none. */
  lemma MixedNext(f0: Flash, p0: map<Key, Loc>, o0: nat, collected: bool, mixed: bool, f: Flash, p: map<Key, Loc>, o: nat)
    requires Shape(f0) && LoadAsked(f0, p0, o0, collected, f, p, o) && MixedSoFar(f0, o0, collected, mixed)
    ensures !NoneDirty(f) ==> MixedSoFar(f0, o0, true, mixed || Misordered(f, o))
    ensures NoneDirty(f) ==> MixedSoFar(f0, o0, true, mixed)
  {
    hide TornAt, Starved, Stuck, Lone, NoneDirty, Misordered, Repaired, NoGcMark, Shape;
    RepairedDirty(f0);
    if NoneDirty(f0) { NoneMisordered(f0, o0); }
  }

  lemma MixedDone(f0: Flash, w0: map<Key, Loc>, p0: map<Key, Loc>, o0: nat, outcome: Outcome, collected: bool, mixed: bool,
                  f: Flash, w: map<Key, Loc>, p: map<Key, Loc>, o: nat)
    requires LoadDone(f0, w0, p0, o0, outcome, collected, f, w, p, o) && MixedSoFar(f0, o0, collected, mixed)
    ensures MixedWhen(f0, o0, collected, mixed)
  {
    hide TornAt, Starved, Stuck, Lone, NoneDirty, Misordered, Repaired, NoGcMark, Rescued;
  }

  lemma RepairedDirty(f: Flash)
    requires Shape(f)
    ensures NoneDirty(Repaired(f)) <==> NoneDirty(f)
    ensures forall o {:trigger Misordered(f, o)} :: Misordered(Repaired(f), o) <==> Misordered(f, o)
  {
    var f' := Repaired(f);
    forall s: nat | s < |f| ensures (f'[s].ok && (f'[s].dirty == DirtyTrue || f'[s].dirty == DirtyGc)) <==>
      (f[s].ok && (f[s].dirty == DirtyTrue || f[s].dirty == DirtyGc)) {}
    forall o {:trigger Misordered(f, o)} ensures Misordered(f', o) <==> Misordered(f, o) { RepairedMisordered(f, o); }
  }

  lemma RepairedMisordered(f: Flash, o: nat)
    requires Shape(f)
    ensures Misordered(Repaired(f), o) <==> Misordered(f, o)
  {
    hide Repaired, TwinAt, SectorShape;
    var f' := Repaired(f);
    if Misordered(f', o) {
      var s: nat, j: nat, t: nat, i: nat :|
        s < |f'| && j < |f'[s].recs| && t < |f'| && i < |f'[t].recs| && TwinAt(f', o, Loc(s, j), Loc(t, i));
      RepairedTwinAt(f, o, s, j, t, i);
    }
    if Misordered(f, o) {
      var s: nat, j: nat, t: nat, i: nat :|
        s < |f| && j < |f[s].recs| && t < |f| && i < |f[t].recs| && TwinAt(f, o, Loc(s, j), Loc(t, i));
      RepairedTwinAt(f, o, s, j, t, i);
    }
  }

  lemma RepairedTwinAt(f: Flash, o: nat, s: nat, j: nat, t: nat, i: nat)
    requires Shape(f) && s < |f| && t < |f|
    ensures TwinAt(Repaired(f), o, Loc(s, j), Loc(t, i)) <==> TwinAt(f, o, Loc(s, j), Loc(t, i))
    ensures Repaired(f)[s].recs == f[s].recs && Repaired(f)[t].recs == f[t].recs
  {
    hide Repaired, Ahead, SectorShape;
    RepairedRecs(f, s);
    RepairedRecs(f, t);
    RepairedMark(f, s, j);
    RepairedMark(f, t, i);
  }

  lemma RepairedMark(f: Flash, s: nat, j: nat)
    requires Shape(f)
    ensures In(f, Loc(s, j)) ==> s < |Repaired(f)| && Repaired(f)[s].dirty == f[s].dirty
  {
    if s < |f| { assert SectorShape(f[s]); }
  }

  /** A replacement met first stands in a dirty sector. */
  lemma NoneMisordered(f: Flash, o: nat)
    requires Shape(f) && NoneDirty(f)
    ensures !Misordered(f, o)
  {
    forall a: Loc, b ensures !TwinAt(f, o, a, b) {
      if In(f, a) { assert SectorShape(f[a.sec]); }
    }
  }

  lemma LoadNext(f0: Flash, w0: map<Key, Loc>, p0: map<Key, Loc>, o0: nat, collected: bool, f2: Flash, p2: map<Key, Loc>, o2: nat,
                 f3: Flash, w3: map<Key, Loc>, p3: map<Key, Loc>, o: nat, end: Ending, f: Flash, w: map<Key, Loc>, p: map<Key, Loc>, at: Loc)
    requires LoadAsked(f0, p0, o0, collected, f2, p2, o2) && TornKept(f2, f3) && CleanPd(f2, p2, p3) && DirtySet(f3) == {} && !NoneDirty(f2)
    requires Shape(f0) && Indexed(f0, w0, p0) && Indexed(f3, w3, p3) && Indexed(f, w, p)
    requires Walked(f3, w3, p3, o, end, f, w, p, at)
    ensures LoadState(f0, w0, p0, o0, end, true, f, w, p, o)
  {
    hide Walked, TornAt, Starved, Stuck, Repaired, Lone, NoGcMark, Index, NoneDirty, Shape, DirtySet;
    WalkedTorn(f3, w3, p3, o, end, f, w, p, at);
    if end == Through { WalkedAll(f3, w3, p3, o, f, w, p, at); }
    TornKeptTrans(f0, f2, f3);
    TornLessTrans(f0, f3, f);
    WalkedPd(f3, w3, p3, o, end, f, w, p, at);
    forall k {:trigger p[k]} | k in p ensures k in p3 && p[k] == p3[k] && k in p2 && p3[k] == p2[k] { assert p3[k] == p2[k]; }
    if Lone(f0) && NoGcMark(f0) && end == AtFull {
      LoneIs(f0, w0, p0);
      WalkedStuck(f3, w3, p3, o, f, w, p, at);
      OneLeft(p0, p3, p);
      NoneSet(f3);
      NoneSet(f);
    }
    RepairedDirty(f0);
  }

  lemma NoneSet(f: Flash)
    ensures NoneDirty(f) <==> DirtySet(f) == {}
  {
    if s: nat :| s < |f| && f[s].ok && (f[s].dirty == DirtyTrue || f[s].dirty == DirtyGc) { assert s in DirtySet(f); }
  }

  lemma WalkedStuck(f0: Flash, w0: map<Key, Loc>, p0: map<Key, Loc>, o: nat, f: Flash, w: map<Key, Loc>, p: map<Key, Loc>, at: Loc)
    requires Walked(f0, w0, p0, o, AtFull, f, w, p, at) && Indexed(f, w, p)
    ensures p != map[]
  {
    hide OutOfSpace, Walking;
    assert Get(f, at).key in p;
  }

  lemma OneLeft(p0: map<Key, Loc>, p1: map<Key, Loc>, p: map<Key, Loc>)
    requires |p0| <= 1 && p1.Keys <= p0.Keys && p.Keys <= p1.Keys && p != map[] && forall k :: k in p ==> p[k] == p1[k]
    ensures p == p1
  {
    var k :| k in p;
    SubsetSize({k}, p0.Keys);
    assert |p0| == |p0.Keys|;
    SameSize({k}, p0.Keys);
  }

  /** After a collection and another walk. */
  lemma LoadRound(f0: Flash, w0: map<Key, Loc>, p0: map<Key, Loc>, o0: nat, collected: bool, mixed: bool, from: int, m: map<Key, Val>,
                  f2: Flash, p2: map<Key, Loc>, o2: nat, log2: seq<Flash>, care2: Care, f3: Flash, w3: map<Key, Loc>, p3: map<Key, Loc>, o: nat,
                  end: Ending, f: Flash, w: map<Key, Loc>, p: map<Key, Loc>, at: Loc, log: seq<Flash>, care: Care)
    requires LoadAsked(f0, p0, o0, collected, f2, p2, o2) && !NoneDirty(f2) && MixedSoFar(f0, o0, collected, mixed)
    requires Shape(f0) && Indexed(f0, w0, p0) && Indexed(f3, w3, p3) && Indexed(f, w, p)
    requires TornKept(f2, f3) && CleanPd(f2, p2, p3) && DirtyLess(f2, f3) && DirtySet(f3) == {}
    requires Walked(f3, w3, p3, o, end, f, w, p, at)
    requires PdLeft(f0, p0, f2, p2) && PdLeft(f2, p2, f, p)
    requires Leaves(log2, from, m, Was(f0, p0), care2, mixed) && log2 <= log && Weaker(care2, care) && care.veil == None
    requires Leaves(log, |log2|, m, Was(f2, p2), care, Misordered(f2, o2))
    ensures LoadState(f0, w0, p0, o0, end, true, f, w, p, o) && PdLeft(f0, p0, f, p)
    ensures MixedSoFar(f0, o0, true, mixed || Misordered(f2, o2))
    ensures Leaves(log, from, m, Was(f0, p0), care, mixed || Misordered(f2, o2))
    ensures |p| < |p2| || (|p| == |p2| && |DirtySet(f)| < |DirtySet(f2)|)
  {
    hide LoadAsked, MixedSoFar, Shape, Index, TornKept, CleanPd, DirtyLess, DirtySet, Walked, PdLeft, Leaves, Was, Weaker, Misordered, NoneDirty, LoadState;
    PdLeftTrans(f0, p0, f2, p2, f, p);
    WasPast(f0, p0, f2, p2);
    LeavesWider(log, |log2|, m, Was(f2, p2), Was(f0, p0), care, Misordered(f2, o2));
    LeavesNext(log2, log, from, m, Was(f0, p0), care2, care, mixed, Misordered(f2, o2));
    MixedNext(f0, p0, o0, collected, mixed, f2, p2, o2);
    LoadNext(f0, w0, p0, o0, collected, f2, p2, o2, f3, w3, p3, o, end, f, w, p, at);
    LoadShrinks(f2, p2, f3, w3, p3, o, end, f, w, p, at);
  }

  lemma WalkedPd(f0: Flash, w0: map<Key, Loc>, p0: map<Key, Loc>, o: nat, end: Ending, f: Flash, w: map<Key, Loc>, p: map<Key, Loc>, at: Loc)
    requires Walked(f0, w0, p0, o, end, f, w, p, at)
    ensures p.Keys <= p0.Keys && forall k :: k in p ==> p[k] == p0[k]
    ensures p == p0 ==> DirtySet(f) == DirtySet(f0)
  {
    hide First, NoneAhead, TornSame, OutOfSpace, Behind;
    if p == p0 && end == AtTorn {
      forall s: nat | s < |f0| ensures f[s].ok == f0[s].ok && f[s].dirty == f0[s].dirty {}
      assert DirtySet(f) == DirtySet(f0);
    }
  }

  /** Each turn of the loop has fewer records to recover, or fewer sectors to collect. */
  lemma LoadShrinks(f2: Flash, p2: map<Key, Loc>, f3: Flash, w3: map<Key, Loc>, p3: map<Key, Loc>, o: nat, end: Ending,
                    f: Flash, w: map<Key, Loc>, p: map<Key, Loc>, at: Loc)
    requires CleanPd(f2, p2, p3) && DirtyLess(f2, f3) && !NoneDirty(f2)
    requires Walked(f3, w3, p3, o, end, f, w, p, at)
    ensures |p| < |p2| || (|p| == |p2| && |DirtySet(f)| < |DirtySet(f2)|)
  {
    hide Walked;
    WalkedPd(f3, w3, p3, o, end, f, w, p, at);
    forall k | k in p ensures k in p2 { assert p3[k] == p2[k]; }
    SubsetSize(p.Keys, p2.Keys);
    assert |p| == |p.Keys| && |p2| == |p2.Keys|;
    var s: nat :| s < |f2| && f2[s].ok && (f2[s].dirty == DirtyTrue || f2[s].dirty == DirtyGc);
    assert s in DirtySet(f2);
    if |p| == |p2| {
      SameSize(p.Keys, p2.Keys);
      forall k | k in p3 ensures k in p && p[k] == p3[k] { assert p3[k] == p2[k]; }
      assert p == p3;
      SmallerSize(DirtySet(f3), DirtySet(f2));
    }
  }

  lemma SameSize<T>(a: set<T>, b: set<T>)
    requires a <= b && |a| == |b|
    ensures a == b
  {
    if x :| x in b && x !in a { SubsetSize(a, b - {x}); }
  }

  lemma SmallerSize<T>(a: set<T>, b: set<T>)
    requires a < b
    ensures |a| < |b|
  {
    var x :| x in b && x !in a;
    SubsetSize(a, b - {x});
  }

  /** How a load ends that asks for no further collection. */
  function OutcomeOf(end: Ending): Outcome {
    match end case Through => Loaded case AtTorn => TornStop case AtFull => NoSpace
  }

  lemma NowDone(f0: Flash, w0: map<Key, Loc>, p0: map<Key, Loc>, o0: nat, end: Ending, collected: bool, f: Flash, w: map<Key, Loc>,
                p: map<Key, Loc>, o: nat)
    requires LoadState(f0, w0, p0, o0, end, collected, f, w, p, o) && !(end == AtFull && |EmptySet(f)| == 1)
    requires Shape(f0) && Indexed(f0, w0, p0) && Indexed(f, w, p)
    ensures LoadDone(f0, w0, p0, o0, OutcomeOf(end), collected, f, w, p, o)
  {
    hide Walked, TornAt, Shape, Index, Lone, Starved, Stuck, EmptySet, SpareSet, Repaired, Rescued;
    if !collected {
      var at :| Walked(Repaired(f0), w0, p0, o0, end, f, w, p, at);
      if Lone(f0) { FirstLone(f0, w0, p0, o0, end, f, w, p, at); }
      if end == Through {
        WalkedAll(Repaired(f0), w0, p0, o0, f, w, p, at);
        RepairedTorn(f0);
      }
    }
  }

  /** A walk that asked for a collection and got none asks for it again: it ends at the same record with
      nothing changed. */
  lemma WalkRepeats(f0: Flash, w0: map<Key, Loc>, p0: map<Key, Loc>, o: nat, f: Flash, w: map<Key, Loc>, p: map<Key, Loc>, at: Loc,
                    end': Ending, f': Flash, w': map<Key, Loc>, p': map<Key, Loc>, at': Loc)
    requires Shape(f) && AllOk(f) && Indexed(f, w, p) && Indexed(f', w', p')
    requires Walked(f0, w0, p0, o, AtFull, f, w, p, at) && Walked(f, w, p, o, end', f', w', p', at')
    ensures end' == AtFull && at' == at && f' == f && p' == p
  {
    hide TornAt, TakesRoom, OutOfSpace;
    var k := Get(f, at).key;
    assert k in p && p[k] == at;
    LiveFits(f, at);
    NoRoomIs(f, Size(Get(f, at)));
    FirstIs(p0, p, o, at, k);
    if p' != p {
      WalkedFirst(f, w, p, o, end', f', w', p', at');
      var x :| FirstOut(f, p, p', o, x);
      if x != k { AheadOnce(o, p[x], at); }
      assert false;
    }
    RepeatAt(f0, w0, p0, o, f, w, p, at, end', f', w', at');
  }

  lemma WalkedFirst(f0: Flash, w0: map<Key, Loc>, p0: map<Key, Loc>, o: nat, end: Ending, f: Flash, w: map<Key, Loc>, p: map<Key, Loc>, at: Loc)
    requires Walked(f0, w0, p0, o, end, f, w, p, at)
    ensures First(f0, p0, p, o)
  {
    hide First, Left, NoneAhead, TornSame, OutOfSpace;
  }

  lemma AheadOnce(o: nat, a: Loc, b: Loc)
    ensures !(Ahead(o, a, b) && Ahead(o, b, a))
  {
  }

  lemma FirstIs(p0: map<Key, Loc>, p: map<Key, Loc>, o: nat, at: Loc, k: Key)
    requires o < SECTOR_NUM && at.sec < SECTOR_NUM && Left(p0, p, o, RingIndex(o, at.sec), at.idx) && k in p && p[k] == at
    ensures forall x :: x in p && p[x] != at ==> Ahead(o, at, p[x])
  {
    forall x | x in p && p[x] != at ensures Ahead(o, at, p[x]) {
      assert p[x] == p0[x];
      PassedIff([], o, p[x], at);
    }
  }

  lemma RepeatAt(f0: Flash, w0: map<Key, Loc>, p0: map<Key, Loc>, o: nat, f: Flash, w: map<Key, Loc>, p: map<Key, Loc>, at: Loc,
                 end': Ending, f': Flash, w': map<Key, Loc>, at': Loc)
    requires |f| == SECTOR_NUM && Indexed(f, w, p) && Indexed(f', w', p)
    requires Walked(f0, w0, p0, o, AtFull, f, w, p, at) && Walked(f, w, p, o, end', f', w', p, at')
    ensures end' == AtFull && at' == at && f' == f
  {
    hide TornAt, OutOfSpace, First;
    var k := Get(f, at).key;
    assert p[k] == at;
    PassedIff(f, o, at, at');
    PassedIff(f, o, at', at);
    match end' {
      case Through =>
        WalkedAll(f, w, p, o, f', w', p, at');
        assert false;
      case AtTorn =>
        assert false;
      case AtFull =>
        var x := Get(f, at').key;
        assert p[x] == at';
        FirstIs(p0, p, o, at, k);
    }
  }
}
