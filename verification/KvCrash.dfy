/** What a power loss may leave behind: flash that still holds the map, and what else is asked of
    it so that the next boot can go on from there. */
module KvCrash {
  import opened KvRecord
  import opened KvFlash
  import opened KvDisk

  /** No sector was being collected. */
  ghost predicate NoGcMark(f: Flash) {
    forall s :: 0 <= s < |f| ==> f[s].dirty != DirtyGc
  }

  /** A key's WRITE record, when it also has a PRE_DELETE record, lies in a clean sector. */
  ghost predicate TwinsClean(f: Flash, w: map<Key, Loc>, p: map<Key, Loc>) {
    forall k :: k in w && k in p ==> w[k].sec < |f| && f[w[k].sec].dirty == Clean
  }

  /** How far a collection may be under way in every flash left behind: in any state, so that it can
      be resumed, or not at all. */
  datatype Level = Any | Resumable | Calm

  /** What is asked of every flash left behind besides the map it holds; with `solid`, that no live
      record ends in a word that looks erased; with `lone`, at most one PRE_DELETE record. The record
      `veil` is disregarded: a replacement that a collection is about to copy, while the record it replaces
      is still there. */
  datatype Care = Care(gc: Level, solid: bool, lone: bool, veil: Option<Aside>)

  datatype Aside = Aside(at: Loc, key: Key, val: Val)

  /** Where the disregarded record is. */
  function Veiled(care: Care): Option<Loc> {
    if care.veil.Some? then Some(care.veil.value.at) else None
  }

  /** The flash without the record at `veil`. */
  function Seen(f: Flash, veil: Option<Loc>): (g: Flash)
    ensures |g| == |f|
  {
    if veil.Some? && In(f, veil.value) then SetStatus(f, veil.value, Deleted) else f
  }

  /** A record is disregarded only while its sector is collected and no more is asked than the map. */
  predicate VeilOk(care: Care, f: Flash) {
    care.veil.Some? ==>
      && care.gc == Any && !care.lone && (care.solid ==> Solid(care.veil.value.key, care.veil.value.val))
      && In(f, care.veil.value.at) && f[care.veil.value.at.sec].dirty == DirtyGc
      && var r := Get(f, care.veil.value.at); Committed(r.status) && r.key == care.veil.value.key && r.val == care.veil.value.val
  }

  /** A collection resumed on this flash would not touch a finished replacement. */
  ghost predicate GcOk(gc: Level, f: Flash, w: map<Key, Loc>, p: map<Key, Loc>) {
    match gc
    case Any => true
    case Resumable => NoGcMark(f) || TwinsClean(f, w, p)
    case Calm => NoGcMark(f)
  }

  ghost predicate SolidLive(f: Flash) {
    forall l, st {:trigger Is(f, l, st)} :: (st == Write || st == PreDelete) && Is(f, l, st) ==> Solid(Get(f, l).key, Get(f, l).val)
  }

  ghost predicate Apart(care: Care, f: Flash, w: map<Key, Loc>, p: map<Key, Loc>) {
    GcOk(care.gc, f, w, p) && (care.solid ==> SolidLive(f)) && (care.lone ==> |p| <= 1)
  }

  lemma ApartSolid(care: Care, f: Flash, w: map<Key, Loc>, p: map<Key, Loc>)
    requires Apart(care, f, w, p)
    ensures care.solid ==> SolidLive(f)
  {
  }

  /** No slot of the flash was lost before its magic word. */
  ghost predicate Lagless(f: Flash) {
    forall s {:trigger f[s]} :: 0 <= s < |f| ==> !Lags(f[s].recs)
  }

  /** A flash from which a restart can read exactly the map `m`. */
  ghost predicate CrashState(f: Flash, m: map<Key, Val>, care: Care) {
    && Shape(f) && VeilOk(care, f) && Recoverable(Seen(f, Veiled(care))) == m
    && exists w, p :: Indexed(Seen(f, Veiled(care)), w, p) && Apart(care, Seen(f, Veiled(care)), w, p)
  }

  /** Every state left behind from `from` up to `to` holds the map `m`. */
  ghost predicate CrashRange(log: seq<Flash>, from: int, to: int, m: map<Key, Val>, care: Care) {
    0 <= from <= to <= |log| && forall i :: from <= i < to ==> CrashState(log[i], m, care)
  }

  // ---------------------------------------------------------------- changes beside a record that is disregarded

  lemma SeenDirty(f: Flash, veil: Option<Loc>)
    ensures forall s :: 0 <= s < |f| ==> Seen(f, veil)[s].dirty == f[s].dirty && Seen(f, veil)[s].ok == f[s].ok
    ensures NoGcMark(Seen(f, veil)) <==> NoGcMark(f)
  {
  }

  lemma SeenStatus(f: Flash, veil: Option<Loc>, l: Loc, st: Status)
    requires In(f, l)
    ensures Seen(SetStatus(f, l, st), veil) == if veil == Some(l) then Seen(f, veil) else SetStatus(Seen(f, veil), l, st)
  {
    var f' := SetStatus(f, l, st);
    if veil.Some? && In(f, veil.value) {
      var x := veil.value;
      var a, b := Seen(f', veil), if x == l then Seen(f, veil) else SetStatus(Seen(f, veil), l, st);
      assert a[x.sec].recs == b[x.sec].recs && a[l.sec].recs == b[l.sec].recs;
    }
  }

  /** A change that is not to the disregarded record, nor erases it. */
  predicate Beside(f: Flash, op: Op, veil: Option<Loc>) {
    veil.Some? ==> In(f, veil.value) && (op.OpStatus? ==> op.l != veil.value) && (op.OpErase? ==> op.s != veil.value.sec)
  }

  /** It is the same change without that record. */
  lemma SeenStep(care: Care, f: Flash, op: Op)
    requires Can(f, op) && VeilOk(care, f) && Beside(f, op, Veiled(care))
    ensures VeilOk(care, Apply(f, op))
    ensures Can(Seen(f, Veiled(care)), op) && Seen(Apply(f, op), Veiled(care)) == Apply(Seen(f, Veiled(care)), op)
    ensures Quiet(f, op) ==> Quiet(Seen(f, Veiled(care)), op)
  {
    if care.veil.Some? {
      var x := care.veil.value.at;
      if x.sec == SecOf(op) { SeenSector(f, op, x); }
    }
  }

  lemma SeenSector(f: Flash, op: Op, x: Loc)
    requires Can(f, op) && In(f, x) && Committed(Get(f, x).status) && Beside(f, op, Some(x)) && x.sec == SecOf(op) && f[x.sec].dirty == DirtyGc
    ensures var f' := Apply(f, op);
      && In(f', x) && f'[x.sec].dirty == DirtyGc && Committed(Get(f', x).status) && Get(f', x).key == Get(f, x).key && Get(f', x).val == Get(f, x).val
      && Can(Seen(f, Some(x)), op) && Seen(f', Some(x)) == Apply(Seen(f, Some(x)), op)
      && (Quiet(f, op) ==> Quiet(Seen(f, Some(x)), op))
  {
    hide Solid, KvSize, Total, Off, Counted;
    SeenCan(f, op, x);
    SeenNew(f, op, x);
  }

  /** Its place in the sector is as it was. */
  lemma SeenCan(f: Flash, op: Op, x: Loc)
    requires Can(f, op) && In(f, x) && Committed(Get(f, x).status) && Beside(f, op, Some(x)) && x.sec == SecOf(op)
    ensures Can(Seen(f, Some(x)), op)
  {
    hide Solid, KvSize, BodyWords, InkWords;
    var a, b := f[x.sec].recs, Seen(f, Some(x))[x.sec].recs;
    OffSame(b, a, |a|);
  }

  lemma SeenNew(f: Flash, op: Op, x: Loc)
    requires Can(f, op) && In(f, x) && Committed(Get(f, x).status) && Beside(f, op, Some(x)) && x.sec == SecOf(op) && Can(Seen(f, Some(x)), op)
    ensures In(Apply(f, op), x) && Seen(Apply(f, op), Some(x)) == Apply(Seen(f, Some(x)), op)
  {
    hide Solid, KvSize, Total, Off, Counted, Placeable;
    var g, f' := Seen(f, Some(x)), Apply(f, op);
    match op
    case OpStatus(l, st) => SeenStatus(f, Some(x), l, st);
    case OpBegin(s, key, val, blank) =>
      assert (f[s].recs + [Rec(PreWrite, key, val, 0)])[x.idx := Get(f, x).(status := Deleted)] == g[s].recs + [Rec(PreWrite, key, val, 0)];
      assert Seen(f', Some(x))[s].recs == Apply(g, op)[s].recs;
    case OpWord(s) =>
      assert Seen(f', Some(x))[s].recs == Apply(g, op)[s].recs;
    case _ =>
  }

  lemma QuietBeside(care: Care, f: Flash, op: Op)
    requires Can(f, op) && Quiet(f, op) && VeilOk(care, f) && (op.OpErase? ==> care.veil == None)
    ensures Beside(f, op, Veiled(care))
  {
  }

  lemma GcOkSeen(care: Care, f: Flash, w: map<Key, Loc>, p: map<Key, Loc>)
    requires VeilOk(care, f) && GcOk(care.gc, f, w, p)
    ensures GcOk(care.gc, Seen(f, Veiled(care)), w, p)
  {
  }

  /** A clean sector may be marked dirty. */
  lemma DirtyGcOk(care: Care, f: Flash, s: nat, w: map<Key, Loc>, p: map<Key, Loc>)
    requires s < |f| && f[s].ok && f[s].store == Using && f[s].dirty == Clean && (care.gc == Resumable ==> NoGcMark(f))
    requires Apart(care, Seen(f, Veiled(care)), w, p)
    ensures Can(f, OpDirty(s, DirtyTrue)) && GcOk(care.gc, Apply(f, OpDirty(s, DirtyTrue)), w, p)
  {
    hide SolidLive, Seen;
    SeenDirty(f, Veiled(care));
  }

  /** An unfinished record that is finished, or given up, is not the disregarded one. */
  lemma BesideOpen(care: Care, f: Flash, l: Loc, st: Status)
    requires VeilOk(care, f) && Is(f, l, PreWrite)
    ensures Veiled(care) != Some(l) && Is(Seen(f, Veiled(care)), l, PreWrite) && Get(Seen(f, Veiled(care)), l) == Get(f, l)
    ensures Seen(SetStatus(f, l, st), Veiled(care)) == SetStatus(Seen(f, Veiled(care)), l, st)
    ensures VeilOk(care, SetStatus(f, l, st)) && Seen(f, Veiled(care))[l.sec].dirty == f[l.sec].dirty
    ensures NoGcMark(Seen(f, Veiled(care))) <==> NoGcMark(f)
  {
    SeenStatus(f, Veiled(care), l, st);
    SeenDirty(f, Veiled(care));
  }

  lemma SeenDeleted(f: Flash, x: Loc)
    requires Is(f, x, Deleted)
    ensures Seen(f, Some(x)) == f
  {
    assert f[x.sec].recs[x.idx := Get(f, x).(status := Deleted)] == f[x.sec].recs;
  }

  lemma SeenNone(f: Flash)
    ensures Seen(f, None) == f
  {
  }

  /** Without its replacement a record has its value again. */
  lemma VeilStep(f: Flash, w: map<Key, Loc>, p: map<Key, Loc>, l: Loc)
    requires Is(f, l, Write) && Indexed(f, w, p) && Get(f, l).key in p
    ensures var k := Get(f, l).key;
      && Seen(f, Some(l)) == SetStatus(f, l, Deleted) && Indexed(SetStatus(f, l, Deleted), w - {k}, p) && In(f, p[k])
      && MapOf(SetStatus(f, l, Deleted), w - {k}, p) == MapOf(f, w, p)[k := Get(f, p[k]).val]
  {
    DeleteWriteStep(f, l, w, p);
  }

  /** A record was deleted: what becomes of the indexes and the map. */
  ghost predicate Gone(f: Flash, w: map<Key, Loc>, p: map<Key, Loc>, m: map<Key, Val>, l: Loc, hidden: bool,
                       w': map<Key, Loc>, p': map<Key, Loc>, m': map<Key, Val>)
  {
    && In(f, l)
    && var k := Get(f, l).key;
       if hidden then w' == w && p' == p && m' == m
       else if Get(f, l).status == Write then
         w' == w - {k} && p' == p && m' == if k in p && In(f, p[k]) then m[k := Get(f, p[k]).val] else m - {k}
       else w' == w && p' == p - {k} && m' == m
  }

  lemma QuietApart(care: Care, f: Flash, op: Op, w: map<Key, Loc>, p: map<Key, Loc>)
    requires Can(f, op) && Quiet(f, op) && Indexed(f, w, p) && Apart(care, f, w, p) && SameCommitted(f, Apply(f, op))
    requires op.OpDirty? ==> GcOk(care.gc, Apply(f, op), w, p)
    ensures Apart(care, Apply(f, op), w, p)
  {
    hide Solid, Can, Apply;
    if !op.OpDirty? { QuietGcOk(care.gc, f, op, w, p); }
  }

  lemma QuietGcOk(gc: Level, f: Flash, op: Op, w: map<Key, Loc>, p: map<Key, Loc>)
    requires Can(f, op) && Quiet(f, op) && !op.OpDirty? && Indexed(f, w, p) && GcOk(gc, f, w, p)
    ensures GcOk(gc, Apply(f, op), w, p)
  {
    var f' := Apply(f, op);
    if NoGcMark(f) {
      assert NoGcMark(f');
    } else if gc == Resumable {
      forall k | k in w && k in p ensures w[k].sec < |f'| && f'[w[k].sec].dirty == Clean {
        assert Is(f, w[k], Write);
      }
    }
  }

  /** A status change moves no sector's dirty mark. */
  lemma StatusApart(f: Flash, l: Loc, st: Status)
    requires In(f, l)
    ensures NoGcMark(f) ==> NoGcMark(SetStatus(f, l, st))
    ensures forall s :: 0 <= s < |f| ==> SetStatus(f, l, st)[s].dirty == f[s].dirty
  {
  }

  /** Only a record that is solid may become live, if that is what is asked. */
  lemma StatusSolid(f: Flash, l: Loc, st: Status)
    requires In(f, l) && SolidLive(f)
    requires (st == Write || st == PreDelete) ==> Solid(Get(f, l).key, Get(f, l).val)
    ensures SolidLive(SetStatus(f, l, st))
  {
    hide Solid;
    forall x, xs {:trigger Is(SetStatus(f, l, st), x, xs)} | (xs == Write || xs == PreDelete) && Is(SetStatus(f, l, st), x, xs)
      ensures Solid(Get(SetStatus(f, l, st), x).key, Get(SetStatus(f, l, st), x).val)
    {
      SetStatusIs(f, l, st, x, xs);
      if x != l { assert Is(f, x, xs); }
    }
  }

  lemma CommitApart(care: Care, f: Flash, l: Loc, w: map<Key, Loc>, p: map<Key, Loc>)
    requires In(f, l) && Apart(care, f, w, p) && (care.solid ==> Solid(Get(f, l).key, Get(f, l).val))
    requires care.gc != Any ==> NoGcMark(f) || f[l.sec].dirty == Clean
    ensures Apart(care, SetStatus(f, l, Write), w[Get(f, l).key := l], p)
  {
    hide Solid, SolidLive;
    StatusApart(f, l, Write);
    if care.solid { StatusSolid(f, l, Write); }
  }

  lemma PreDeleteApart(care: Care, f: Flash, l: Loc, w: map<Key, Loc>, p: map<Key, Loc>)
    requires Is(f, l, Write) && Indexed(f, w, p) && Apart(care, f, w, p) && (care.lone ==> p == map[])
    ensures Apart(care, SetStatus(f, l, PreDelete), w - {Get(f, l).key}, p[Get(f, l).key := l])
  {
    hide Solid;
    StatusApart(f, l, PreDelete);
    if care.solid { StatusSolid(f, l, PreDelete); }
  }

  /** A WRITE record is marked PRE_DELETE: a disregarded one, or one whose key has no PRE_DELETE record. */
  lemma MarkSeen(care: Care, f: Flash, l: Loc, w: map<Key, Loc>, p: map<Key, Loc>, w': map<Key, Loc>, p': map<Key, Loc>)
    requires VeilOk(care, f) && Is(f, l, Write) && Indexed(Seen(f, Veiled(care)), w, p) && Apart(care, Seen(f, Veiled(care)), w, p)
    requires Veiled(care) == Some(l) ==> w' == w && p' == p
    requires Veiled(care) != Some(l) ==>
      care.veil == None && Get(f, l).key !in p && (care.lone ==> p == map[]) && w' == w - {Get(f, l).key} && p' == p[Get(f, l).key := l]
    ensures var f' := SetStatus(f, l, PreDelete); var g := Seen(f', Veiled(care));
      && VeilOk(care, f') && Indexed(g, w', p') && Apart(care, g, w', p') && MapOf(g, w', p') == MapOf(Seen(f, Veiled(care)), w, p)
  {
    hide Apart, Index, MapOf;
    SeenStatus(f, Veiled(care), l, PreDelete);
    if Veiled(care) != Some(l) {
      PreDeleteStep(f, l, w, p);
      PreDeleteApart(care, f, l, w, p);
    }
  }

  lemma ApartLess(care: Care, f: Flash, l: Loc, w: map<Key, Loc>, p: map<Key, Loc>, w': map<Key, Loc>, p': map<Key, Loc>)
    requires In(f, l) && Apart(care, f, w, p)
    requires p'.Keys <= p.Keys && w'.Keys <= w.Keys && forall k :: k in w' ==> w'[k] == w[k]
    ensures Apart(care, SetStatus(f, l, Deleted), w', p')
  {
    hide Solid, SolidLive;
    SubsetSize(p'.Keys, p.Keys);
    assert |p'| == |p'.Keys| && |p| == |p.Keys|;
    if care.solid { StatusSolid(f, l, Deleted); }
  }

  /** A record is deleted: a disregarded one, a WRITE record, or a PRE_DELETE record whose replacement is in place. */
  lemma DeleteSeen(care: Care, f: Flash, l: Loc, w: map<Key, Loc>, p: map<Key, Loc>) returns (w': map<Key, Loc>, p': map<Key, Loc>)
    requires VeilOk(care, f) && In(f, l) && Indexed(Seen(f, Veiled(care)), w, p) && Apart(care, Seen(f, Veiled(care)), w, p)
    requires Veiled(care) != Some(l) ==> care.veil == None && (Is(f, l, Write) || (Is(f, l, PreDelete) && Get(f, l).key in w))
    ensures var f' := SetStatus(f, l, Deleted); var g := Seen(f', Veiled(care));
      && VeilOk(care, f') && Indexed(g, w', p') && Apart(care, g, w', p')
      && Gone(f, w, p, MapOf(Seen(f, Veiled(care)), w, p), l, Veiled(care) == Some(l), w', p', MapOf(g, w', p'))
  {
    hide Apart, Index, MapOf;
    SeenStatus(f, Veiled(care), l, Deleted);
    w', p' := w, p;
    if Veiled(care) != Some(l) {
      if Is(f, l, Write) {
        DeleteWriteStep(f, l, w, p);
        w' := w - {Get(f, l).key};
      } else {
        DeleteOldStep(f, l, w, p);
        p' := p - {Get(f, l).key};
      }
      ApartLess(care, f, l, w, p, w', p');
    }
  }

  /** What was left behind under more care is left behind under less. */
  predicate Weaker(care: Care, less: Care) {
    && (less.gc == Any || less.gc == care.gc || (less.gc == Resumable && care.gc == Calm))
    && (less.solid ==> care.solid) && (less.lone ==> care.lone) && less.veil == care.veil
  }

  /** A database that had not been collecting may have begun to. */
  predicate Eased(care: Care, eased: Care) {
    eased == if care.gc == Calm && eased.gc == Resumable then care.(gc := Resumable) else care
  }

  lemma ApartWeaker(care: Care, less: Care, f: Flash, w: map<Key, Loc>, p: map<Key, Loc>)
    requires Apart(care, f, w, p) && Weaker(care, less)
    ensures Apart(less, f, w, p)
  {
  }

  lemma CrashWeaker(f: Flash, m: map<Key, Val>, care: Care, less: Care)
    requires CrashState(f, m, care) && Weaker(care, less)
    ensures CrashState(f, m, less)
  {
    hide Shape, Indexed, Apart, Seen;
    var g := Seen(f, Veiled(care));
    var w, p :| Indexed(g, w, p) && Apart(care, g, w, p);
    ApartWeaker(care, less, g, w, p);
    assert Indexed(g, w, p) && Apart(less, g, w, p);
  }

  lemma CrashRangeWeaker(log: seq<Flash>, from: int, to: int, m: map<Key, Val>, care: Care, less: Care)
    requires CrashRange(log, from, to, m, care) && Weaker(care, less)
    ensures CrashRange(log, from, to, m, less)
  {
    hide CrashState;
    forall i | from <= i < to ensures CrashState(log[i], m, less) { CrashWeaker(log[i], m, care, less); }
  }

  // ---------------------------------------------------------------- two old records of one key

  /** No pair of indexes describes the flash: some key has two WRITE or two PRE_DELETE records. */
  ghost predicate Unindexed(f: Flash) { forall w, p :: !Indexed(f, w, p) }

  ghost predicate SomeUnindexed(log: seq<Flash>, from: int) { exists i :: 0 <= from <= i < |log| && Unindexed(log[i]) }

  lemma SomeKept(log: seq<Flash>, log': seq<Flash>, from: int)
    requires log <= log'
    ensures SomeUnindexed(log, from) ==> SomeUnindexed(log', from)
  {
    hide Unindexed;
  }

  /** A flash that holds the map `m`, or one that does so without one of two PRE_DELETE records of a key, and
      otherwise has that key's value in `olds`. */
  ghost predicate OldOrNew(f: Flash, m: map<Key, Val>, olds: map<Key, Val>, care: Care) {
    CrashState(f, m, care) || exists x {:trigger Doubled(f, m, olds, care, x)} :: Doubled(f, m, olds, care, x)
  }

  ghost predicate Doubled(f: Flash, m: map<Key, Val>, olds: map<Key, Val>, care: Care, x: Aside) {
    && x.key in m && m[x.key] == x.val && x.key in olds
    && var c := care.(veil := Some(x)); CrashState(f, m, c) || CrashState(f, m[x.key := olds[x.key]], c)
  }

  ghost predicate MixedRange(log: seq<Flash>, from: int, to: int, m: map<Key, Val>, olds: map<Key, Val>, care: Care) {
    0 <= from <= to <= |log| && forall i :: from <= i < to ==> OldOrNew(log[i], m, olds, care)
  }

  lemma MixedNone(log: seq<Flash>, from: int, to: int, m: map<Key, Val>, care: Care)
    ensures MixedRange(log, from, to, m, map[], care) <==> CrashRange(log, from, to, m, care)
  {
    hide CrashState;
    forall i | 0 <= i < |log| ensures OldOrNew(log[i], m, map[], care) <==> CrashState(log[i], m, care) {}
  }

  lemma NoneLeft(log: seq<Flash>, m: map<Key, Val>, olds: map<Key, Val>, care: Care)
    ensures MixedRange(log, |log|, |log|, m, olds, care)
  {
  }

  lemma MixedJoin(log1: seq<Flash>, log: seq<Flash>, from: int, m: map<Key, Val>, olds: map<Key, Val>, care: Care)
    requires log1 <= log && MixedRange(log1, from, |log1|, m, olds, care) && MixedRange(log, |log1|, |log|, m, olds, care)
    ensures MixedRange(log, from, |log|, m, olds, care)
  {
    hide OldOrNew;
  }

  /** A state that holds the map only without one of two such records is left while a sector is collected. */
  lemma CalmOld(f: Flash, m: map<Key, Val>, olds: map<Key, Val>, care: Care)
    requires OldOrNew(f, m, olds, care) && NoGcMark(f)
    ensures CrashState(f, m, care)
  {
    hide CrashState;
    if x :| Doubled(f, m, olds, care, x) {
      VeilMarked(f, m, care.(veil := Some(x)));
      VeilMarked(f, m[x.key := olds[x.key]], care.(veil := Some(x)));
    }
  }

  lemma VeilMarked(f: Flash, m: map<Key, Val>, care: Care)
    requires care.veil.Some? && NoGcMark(f)
    ensures !CrashState(f, m, care)
  {
  }

  lemma MixedWeaker(log: seq<Flash>, from: int, to: int, m: map<Key, Val>, olds: map<Key, Val>, care: Care, less: Care)
    requires MixedRange(log, from, to, m, olds, care) && Weaker(care, less)
    ensures MixedRange(log, from, to, m, olds, less)
  {
    hide CrashState;
    forall i | from <= i < to ensures OldOrNew(log[i], m, olds, less) {
      if CrashState(log[i], m, care) {
        CrashWeaker(log[i], m, care, less);
      } else {
        var x :| Doubled(log[i], m, olds, care, x);
        DoubledWeaker(log[i], m, olds, care, less, x);
      }
    }
  }

  lemma DoubledWeaker(f: Flash, m: map<Key, Val>, olds: map<Key, Val>, care: Care, less: Care, x: Aside)
    requires Doubled(f, m, olds, care, x) && Weaker(care, less)
    ensures Doubled(f, m, olds, less, x)
  {
    hide CrashState;
    var c, d, m' := care.(veil := Some(x)), less.(veil := Some(x)), m[x.key := olds[x.key]];
    if CrashState(f, m, c) { CrashWeaker(f, m, c, d); } else { CrashWeaker(f, m', c, d); }
  }

  /** More keys may have had other values. */
  lemma MixedWider(log: seq<Flash>, from: int, to: int, m: map<Key, Val>, olds: map<Key, Val>, more: map<Key, Val>, care: Care)
    requires MixedRange(log, from, to, m, olds, care) && forall k :: k in olds ==> k in more && more[k] == olds[k]
    ensures MixedRange(log, from, to, m, more, care)
  {
    hide CrashState;
    forall i | from <= i < to ensures OldOrNew(log[i], m, more, care) {
      if x :| Doubled(log[i], m, olds, care, x) { assert Doubled(log[i], m, more, care, x); }
    }
  }

  /** What a recovery begun when `log` had `from` entries has left: `mixed` if some state of it is described by no
      pair of indexes. Then, and only then, the states do not all hold the map. */
  ghost predicate Leaves(log: seq<Flash>, from: int, m: map<Key, Val>, olds: map<Key, Val>, care: Care, mixed: bool) {
    && MixedRange(log, from, |log|, m, olds, care)
    && (mixed <==> SomeUnindexed(log, from)) && (mixed <==> !CrashRange(log, from, |log|, m, care))
  }

  lemma CrashIndexed(log: seq<Flash>, from: int, m: map<Key, Val>, care: Care)
    requires CrashRange(log, from, |log|, m, care) && care.veil == None
    ensures !SomeUnindexed(log, from)
  {
    forall i | from <= i < |log| ensures !Unindexed(log[i]) { assert CrashState(log[i], m, care); }
  }

  lemma LeavesAll(log: seq<Flash>, from: int, m: map<Key, Val>, olds: map<Key, Val>, care: Care)
    requires CrashRange(log, from, |log|, m, care) && care.veil == None
    ensures Leaves(log, from, m, olds, care, false)
  {
    hide CrashState;
    CrashIndexed(log, from, m, care);
    MixedOf(log, from, |log|, m, olds, care);
  }

  lemma NotAll(log: seq<Flash>, from: int, m: map<Key, Val>, care: Care)
    requires SomeUnindexed(log, from) && care.veil == None
    ensures !CrashRange(log, from, |log|, m, care)
  {
    if CrashRange(log, from, |log|, m, care) { CrashIndexed(log, from, m, care); }
  }

  lemma LeavesWider(log: seq<Flash>, from: int, m: map<Key, Val>, olds: map<Key, Val>, more: map<Key, Val>, care: Care, mixed: bool)
    requires Leaves(log, from, m, olds, care, mixed) && forall k :: k in olds ==> k in more && more[k] == olds[k]
    ensures Leaves(log, from, m, more, care, mixed)
  {
    MixedWider(log, from, |log|, m, olds, more, care);
  }

  lemma LeavesNext(log: seq<Flash>, log': seq<Flash>, from: int, m: map<Key, Val>, olds: map<Key, Val>, care: Care, care': Care, mixed: bool, mixed': bool)
    requires Leaves(log, from, m, olds, care, mixed) && log <= log' && Weaker(care, care') && care'.veil == None
    requires Leaves(log', |log|, m, olds, care', mixed')
    ensures Leaves(log', from, m, olds, care', mixed || mixed')
  {
    hide CrashState, Unindexed, OldOrNew;
    MixedWeaker(log, from, |log|, m, olds, care, care');
    if !mixed { CrashRangeWeaker(log, from, |log|, m, care, care'); }
    if i :| 0 <= from <= i < |log'| && Unindexed(log'[i]) {
      if i < |log| { assert Unindexed(log[i]); }
    }
    if SomeUnindexed(log', from) && CrashRange(log', from, |log'|, m, care') { CrashIndexed(log', from, m, care'); }
    if i :| 0 <= from <= i < |log| && Unindexed(log[i]) { assert Unindexed(log'[i]); }
  }

  lemma MixedOf(log: seq<Flash>, from: int, to: int, m: map<Key, Val>, olds: map<Key, Val>, care: Care)
    requires CrashRange(log, from, to, m, care)
    ensures MixedRange(log, from, to, m, olds, care)
  {
  }

  /** The replacement at `l` was copied from the flash `f` on: first it was marked, then for a while there were
      two PRE_DELETE records of its key. */
  ghost predicate TwinMoved(log: seq<Flash>, from: int, f: Flash, l: Loc, p: map<Key, Loc>, m: map<Key, Val>, care: Care) {
    && Is(f, l, Write) && 0 <= from < |log| && log[from] == SetStatus(f, l, PreDelete)
    && var r := Get(f, l);
       && r.key in p && In(f, p[r.key]) && r.key in m && m[r.key] == r.val
       && var x, was := Aside(l, r.key, r.val), Get(f, p[r.key]).val;
          forall i :: from <= i < |log| ==>
            CrashState(log[i], m, care.(veil := Some(x))) || CrashState(log[i], m[r.key := was], care.(veil := Some(x)))
  }

  lemma TwinDone(log1: seq<Flash>, log: seq<Flash>, n0: int, commit: int, f: Flash, l: Loc, p: map<Key, Loc>, m: map<Key, Val>, m1: map<Key, Val>,
                 care: Care, veiled: Care)
    requires Is(f, l, Write) && 0 <= n0 < |log1| && log1 <= log && log1[n0] == SetStatus(f, l, PreDelete)
    requires var r := Get(f, l); r.key in p && In(f, p[r.key]) && r.key in m && m[r.key] == r.val && m1 == m[r.key := Get(f, p[r.key]).val]
    requires var r := Get(f, l); veiled == care.(veil := Some(Aside(l, r.key, r.val)))
    requires CrashRange(log1, n0, |log1|, m1, veiled) && CrashRange(log, |log1|, commit, m1, veiled) && CrashRange(log, commit, |log|, m, veiled)
    ensures TwinMoved(log, n0, f, l, p, m, care)
  {
    hide CrashState;
  }

  lemma RangeJoin(log1: seq<Flash>, log: seq<Flash>, n0: int, commit: int, m: map<Key, Val>, care: Care)
    requires log1 <= log
    requires CrashRange(log1, n0, |log1|, m, care) && CrashRange(log, |log1|, commit, m, care) && CrashRange(log, commit, |log|, m, care)
    ensures CrashRange(log, n0, |log|, m, care)
  {
    hide CrashState;
  }

  /** A replacement's value is its key's. */
  lemma TwinValue(f: Flash, w: map<Key, Loc>, p: map<Key, Loc>, l: Loc)
    requires Indexed(f, w, p) && Is(f, l, Write) && Get(f, l).key in p
    ensures var r := Get(f, l); r.key in MapOf(f, w, p) && MapOf(f, w, p)[r.key] == r.val && In(f, p[r.key])
    ensures var r := Get(f, l); MapOf(f, w, p)[r.key := Get(f, p[r.key]).val][r.key := r.val] == MapOf(f, w, p)
  {
    assert w[Get(f, l).key] == l && Is(f, p[Get(f, l).key], PreDelete);
  }
}
