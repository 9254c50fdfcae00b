/** Whole runs of the key-value database: what any sequence of sets, deletes and gets answers and leaves, and what a
    power loss anywhere inside the run leaves. */
module KvRun {
  import opened KvRecord
  import opened KvFlash
  import opened KvDisk
  import opened KvTape
  import opened KvScan
  import opened KvProgram
  import opened KvCrash
  import opened KvMoves
  import opened KvCollect
  import opened KvLookup
  import opened KvWalk
  import opened Kvdb
  import opened KvBoot
  import opened SectorCache
  import KvCache
  import Crc32

  datatype Command = Set(key: Key, val: Val) | Del(key: Key) | Get(key: Key, bufLen: nat)

  /** What a get answers: the value as far as the buffer goes, and its full length. */
  datatype Got = Got(data: Val, len: nat)

  function Answer(m: map<Key, Val>, key: Key, bufLen: nat): (got: Got)
    ensures key in m ==> got.len == |m[key]| && got.data <= m[key] && |got.data| <= bufLen && (|got.data| < |m[key]| ==> |got.data| == bufLen)
  {
    if key !in m then Got([], 0) else Got(m[key][..if bufLen > |m[key]| then |m[key]| else bufLen], |m[key]|)
  }

  /** The map after one command that returned `err`: a refused one changes nothing. */
  function Effect(m: map<Key, Val>, c: Command, err: Err): map<Key, Val> {
    if err != NoErr then m else match c case Set(k, v) => m[k := v] case Del(k) => m - {k} case Get(_, _) => m
  }

  /** The map after the first `n` commands. */
  function MapAfter(m: map<Key, Val>, cmds: seq<Command>, errs: seq<Err>, n: nat): map<Key, Val>
    requires n <= |cmds| && n <= |errs|
  {
    if n == 0 then m else Effect(MapAfter(m, cmds, errs, n - 1), cmds[n - 1], errs[n - 1])
  }

  /** The command, which returned `err`, gave its key another value or none. */
  predicate Changes(c: Command, err: Err, key: Key) { !c.Get? && err == NoErr && c.key == key }

  /** A key has the value last set, or none if it was deleted last. */
  lemma {:induction false} LastStays(m: map<Key, Val>, cmds: seq<Command>, errs: seq<Err>, i: nat, n: nat)
    requires i < n <= |cmds| && n <= |errs| && errs[i] == NoErr && !cmds[i].Get?
    requires forall j :: i < j < n ==> !Changes(cmds[j], errs[j], cmds[i].key)
    ensures var m', c := MapAfter(m, cmds, errs, n), cmds[i];
      if c.Set? then c.key in m' && m'[c.key] == c.val else c.key !in m'
  {
    if i < n - 1 { LastStays(m, cmds, errs, i, n - 1); }
  }

  /** No two keys of `keys` share a name hash. */
  ghost predicate NoCollision(keys: set<Key>) {
    forall a, b :: a in keys && b in keys && Crc32.NameHash(a) == Crc32.NameHash(b) ==> a == b
  }

  lemma CollisionFree(keys: set<Key>, m: map<Key, Val>, key: Key)
    requires NoCollision(keys) && m.Keys <= keys && key in keys
    ensures NoClash(m, key)
  {
    hide Crc32.NameHash, NameArea;
    forall k | k in m && MayHit(k, m[k], key) ensures k == key {}
  }

  /** `marks[n]` is where the `n`-th command took effect: what power losses leave from there to the
      next mark holds the map after `n` commands. */
  ghost predicate Atomic(log: seq<Flash>, marks: seq<int>, m: map<Key, Val>, cmds: seq<Command>, errs: seq<Err>, care: Care) {
    && |marks| == |errs| + 1 && |errs| <= |cmds|
    && (forall n :: 0 <= n <= |errs| ==> 0 <= marks[n] <= |log|)
    && forall n {:trigger MapAfter(m, cmds, errs, n)} :: 0 <= n <= |errs| ==>
         CrashRange(log, marks[n], if n < |errs| then marks[n + 1] else |log|, MapAfter(m, cmds, errs, n), care)
  }

  lemma {:induction false} MapAfterPrefix(m: map<Key, Val>, cmds: seq<Command>, errs: seq<Err>, err: Err, n: nat)
    requires n <= |errs| && n <= |cmds|
    ensures MapAfter(m, cmds, errs + [err], n) == MapAfter(m, cmds, errs, n)
  {
    if n > 0 { MapAfterPrefix(m, cmds, errs, err, n - 1); }
  }

  /** One more command: what was left before its commit point holds the map before it. */
  lemma AtomicNext(log: seq<Flash>, log': seq<Flash>, marks: seq<int>, commit: int, m: map<Key, Val>, cmds: seq<Command>,
                   errs: seq<Err>, err: Err, care: Care)
    requires Atomic(log, marks, m, cmds, errs, care) && |errs| < |cmds| && log <= log'
    requires CrashRange(log', |log|, commit, MapAfter(m, cmds, errs, |errs|), care)
    requires CrashRange(log', commit, |log'|, Effect(MapAfter(m, cmds, errs, |errs|), cmds[|errs|], err), care)
    ensures Atomic(log', marks + [commit], m, cmds, errs + [err], care)
    ensures MapAfter(m, cmds, errs + [err], |errs| + 1) == Effect(MapAfter(m, cmds, errs, |errs|), cmds[|errs|], err)
  {
    hide CrashState;
    MapAfterPrefix(m, cmds, errs, err, |errs|);
    var errs', marks' := errs + [err], marks + [commit];
    forall n {:trigger MapAfter(m, cmds, errs', n)} | 0 <= n <= |errs'|
      ensures CrashRange(log', marks'[n], if n < |errs'| then marks'[n + 1] else |log'|, MapAfter(m, cmds, errs', n), care)
    {
      MapAfterPrefix(m, cmds, errs, err, if n <= |errs| then n else |errs|);
      if n <= |errs| {
        var hi := if n < |errs| then marks[n + 1] else |log|;
        assert CrashRange(log, marks[n], hi, MapAfter(m, cmds, errs, n), care);
      }
    }
  }

  lemma AtomicStart(log: seq<Flash>, m: map<Key, Val>, cmds: seq<Command>, care: Care)
    ensures Atomic(log, [|log|], m, cmds, [], care) && MapAfter(m, cmds, [], 0) == m
  {
  }

  /** With less asked of what is left behind, the marks stay. */
  lemma AtomicWeaker(log: seq<Flash>, marks: seq<int>, m: map<Key, Val>, cmds: seq<Command>, errs: seq<Err>, care: Care, less: Care)
    requires Atomic(log, marks, m, cmds, errs, care) && Weaker(care, less)
    ensures Atomic(log, marks, m, cmds, errs, less)
  {
    hide CrashRange;
    forall n {:trigger MapAfter(m, cmds, errs, n)} | 0 <= n <= |errs|
      ensures CrashRange(log, marks[n], if n < |errs| then marks[n + 1] else |log|, MapAfter(m, cmds, errs, n), less)
    {
      CrashRangeWeaker(log, marks[n], if n < |errs| then marks[n + 1] else |log|, MapAfter(m, cmds, errs, n), care, less);
    }
  }

  /** Every set has a record that ends in a word that does not look erased, if that is what is asked. */
  predicate Solidly(c: Command, solid: bool) { solid && c.Set? ==> Solid(c.key, c.val) }

  /** A command over the map `m` returned what that says: a get the value, a delete whether there was one; and a set
      failed only for want of space or for its key. */
  predicate Returned(m: map<Key, Val>, c: Command, err: Err, got: Got) {
    match c
    case Set(k, _) => err == NoErr || err == SavedFull || |k| > KV_NAME_MAX
    case Del(k) => err == if k in m then NoErr else NameErr
    case Get(k, bufLen) => err == NoErr && got == Answer(m, k, bufLen)
  }

  /** Every command returned what the commands before it say. */
  ghost predicate Answered(m: map<Key, Val>, cmds: seq<Command>, errs: seq<Err>, gots: seq<Got>) {
    && |errs| == |gots| <= |cmds|
    && forall n {:trigger MapAfter(m, cmds, errs, n)} :: 0 <= n < |errs| ==> Returned(MapAfter(m, cmds, errs, n), cmds[n], errs[n], gots[n])
  }

  lemma AnsweredNext(m: map<Key, Val>, cmds: seq<Command>, errs: seq<Err>, gots: seq<Got>, err: Err, got: Got)
    requires Answered(m, cmds, errs, gots) && |errs| < |cmds| && Returned(MapAfter(m, cmds, errs, |errs|), cmds[|errs|], err, got)
    ensures Answered(m, cmds, errs + [err], gots + [got])
  {
    hide Returned;
    forall n: nat {:trigger MapAfter(m, cmds, errs + [err], n)} | n <= |errs|
      ensures MapAfter(m, cmds, errs + [err], n) == MapAfter(m, cmds, errs, n)
    {
      MapAfterPrefix(m, cmds, errs, err, n);
    }
  }

  /** The flash and its oldest sector before or after a command. */
  datatype State = At(flash: Flash, oldest: nat)

  /** What the command, which returned `err`, did to the flash: a set stored its record, or was refused for want of space
      or for its key; a delete deleted the record, if there was one; a get did nothing. */
  ghost predicate Stepped(a: State, c: Command, err: Err, b: State) {
    && |a.flash| == |b.flash| == SECTOR_NUM && a.oldest < SECTOR_NUM && b.oldest < SECTOR_NUM
    && match c
       case Set(k, v) =>
         (match err
          case NoErr => Stored(a.flash, a.oldest, k, v, b.flash, b.oldest)
          case SavedFull => Refused(a.flash, b.flash, KvSize(k, v))
          case NameErr => |k| > KV_NAME_MAX && Spaced(a.flash, a.oldest, KvSize(k, v), b.flash, b.oldest))
       case Del(k) => DeletedIn(a.flash, k, err == NoErr, b.flash) && b.oldest == a.oldest
       case Get(_, _) => b == a
  }

  /** Every command did, one after the other. */
  ghost predicate Steps(states: seq<State>, cmds: seq<Command>, errs: seq<Err>) {
    && |states| == |errs| + 1 && |errs| <= |cmds|
    && forall n {:trigger states[n + 1]} :: 0 <= n < |errs| ==> Stepped(states[n], cmds[n], errs[n], states[n + 1])
  }

  lemma StepsNext(states: seq<State>, cmds: seq<Command>, errs: seq<Err>, err: Err, b: State)
    requires Steps(states, cmds, errs) && |errs| < |cmds| && Stepped(states[|errs|], cmds[|errs|], err, b)
    ensures Steps(states + [b], cmds, errs + [err])
  {
    hide Stepped;
    var states', errs' := states + [b], errs + [err];
    forall n | 0 <= n < |errs'| ensures Stepped(states'[n], cmds[n], errs'[n], states'[n + 1]) {
      if n < |errs| { assert states[n + 1] == states'[n + 1]; }
    }
  }

  /** Carry out one command. */
  method Do(db: Kvdb, c: Command, ghost keys: set<Key>) returns (err: Err, got: Got, ghost commit: int)
    requires db.Ready() && NoCollision(keys) && db.Model().Keys <= keys && c.key in keys && |c.key| != KV_NAME_MAX
    requires Solidly(c, db.care.solid)
    modifies db, db.sc.table, db.kc.table
    ensures Eased(old(db.care), db.care)
    ensures db.Ready() && db.Model() == Effect(old(db.Model()), c, err) && db.Model().Keys <= keys
    ensures old(db.log) <= db.log && CrashRange(db.log, |old(db.log)|, commit, old(db.Model()), db.care)
    ensures CrashRange(db.log, commit, |db.log|, db.Model(), db.care)
    ensures Returned(old(db.Model()), c, err, got)
    ensures Stepped(At(old(db.flash), old(db.oldest)), c, err, At(db.flash, db.oldest))
  {
    hide Shape, Indexed, Agrees, KvOk, KvCache.Wf, CrashState, MapOf, HasEmpty, WritesOf;
    hide NoGcMark, Lagless, Apart, NoCollision, NoClash, Taped, Solid, Without, Stored, Refused, Spaced, DeletedIn, KvSize;
    db.DiskShape();
    ghost var m := db.Model();
    CollisionFree(keys, m, c.key);
    WritesAll(db.flash, db.wr, db.pd);
    commit, got := |db.log|, Got([], 0);
    match c {
      case Set(k, v) => err, commit := db.SetKv(k, v);
      case Del(k) =>
        WithoutIs(db.flash, db.wr, db.pd, m, k);
        err := db.KvDel(k);
        assert k !in m ==> m - {k} == m;
      case Get(k, bufLen) =>
        var data, len := db.GetKv(k, bufLen);
        err, got := NoErr, Got(data, len);
    }
    db.DiskShape();
  }

  lemma NoneStepped(at: State, cmds: seq<Command>)
    requires |at.flash| == SECTOR_NUM && at.oldest < SECTOR_NUM
    ensures Steps([at], cmds, [])
  {
  }

  lemma NoneAnswered(m: map<Key, Val>, cmds: seq<Command>)
    ensures Answered(m, cmds, [], [])
  {
  }

  /** Carry out `cmds` one after the other. The ghost marks say where each one took effect: the
      database holds the map after all of them, every get answers from the map after those before it, and a power
      loss at any moment leaves the map after as many of them as had taken effect. */
  method Run(db: Kvdb, cmds: seq<Command>, ghost keys: set<Key>) returns (errs: seq<Err>, gots: seq<Got>, ghost marks: seq<int>, ghost states: seq<State>)
    requires db.Ready() && NoCollision(keys) && db.Model().Keys <= keys
    requires forall n :: 0 <= n < |cmds| ==> cmds[n].key in keys && |cmds[n].key| != KV_NAME_MAX && Solidly(cmds[n], db.care.solid)
    modifies db, db.sc.table, db.kc.table
    ensures Eased(old(db.care), db.care)
    ensures db.Ready() && |errs| == |gots| == |cmds| && db.Model() == MapAfter(old(db.Model()), cmds, errs, |cmds|)
    ensures old(db.log) <= db.log && |marks| == |cmds| + 1 && marks[0] == |old(db.log)|
    ensures Atomic(db.log, marks, old(db.Model()), cmds, errs, db.care) && Taped(db.trail, db.log, db.flash)
    ensures Answered(old(db.Model()), cmds, errs, gots)
    ensures Steps(states, cmds, errs) && states[0] == At(old(db.flash), old(db.oldest)) && states[|cmds|] == At(db.flash, db.oldest)
  {
    hide Shape, Indexed, Agrees, KvOk, KvCache.Wf, CrashState, CrashRange, MapOf, HasEmpty, NoGcMark, Lagless, Apart, Taped, Solidly;
    hide NoCollision, Effect, Atomic, MapAfter, Answered, Returned, Stepped;
    ghost var m := db.Model();
    db.DiskShape();
    states := [At(db.flash, db.oldest)];
    NoneAnswered(m, cmds);
    NoneStepped(At(db.flash, db.oldest), cmds);
    AtomicStart(db.log, m, cmds, db.care);
    errs, gots, marks := [], [], [|db.log|];
    var n := 0;
    while n < |cmds|
      invariant 0 <= n <= |cmds| && |errs| == |gots| == n && db.Ready() && old(db.log) <= db.log && Eased(old(db.care), db.care)
      invariant db.Model() == MapAfter(m, cmds, errs, n) && db.Model().Keys <= keys
      invariant Atomic(db.log, marks, m, cmds, errs, db.care)
      invariant |marks| == n + 1 && marks[0] == |old(db.log)|
      invariant Answered(m, cmds, errs, gots)
      invariant Steps(states, cmds, errs) && states[0] == At(old(db.flash), old(db.oldest)) && states[n] == At(db.flash, db.oldest)
    {
      ghost var log, care := db.log, db.care;
      var err, got, commit := Do(db, cmds[n], keys);
      AtomicWeaker(log, marks, m, cmds, errs, care, db.care);
      AtomicNext(log, db.log, marks, commit, m, cmds, errs, err, db.care);
      AnsweredNext(m, cmds, errs, gots, err, got);
      StepsNext(states, cmds, errs, err, At(db.flash, db.oldest));
      errs, gots, marks, states := errs + [err], gots + [got], marks + [commit], states + [At(db.flash, db.oldest)];
      n := n + 1;
    }
  }

  // ---------------------------------------------------------------- power lost in a run, then a boot

  /** The command during which the `i`-th state of the log was left behind. */
  lemma {:induction false} MarkBefore(marks: seq<int>, i: int, n: nat) returns (at: nat)
    requires n < |marks| && marks[0] <= i
    ensures at <= n && marks[at] <= i && (at < n ==> i < marks[at + 1])
    decreases n
  {
    if marks[n] <= i {
      at := n;
    } else {
      at := MarkBefore(marks, i, n - 1);
    }
  }

  lemma LeftBootable(f: Flash, m: map<Key, Val>, care: Care)
    requires CrashState(f, m, care) && care.gc != Any && (care.gc == Calm || NoGcMark(f) || HasSpare(f))
    requires care.solid || Lagless(f)
    ensures Bootable(f, m, care.solid)
  {
    hide Shape, Index, NoGcMark, TwinsClean, SolidLive, Lagless;
    var w, p :| Indexed(f, w, p) && Apart(care, f, w, p);
    assert Indexed(f, w, p) && Apart(Care(Resumable, care.solid, false, None), f, w, p);
  }

  /** Power is lost anywhere in a run, and the database boots: it holds the map after the commands that had
      taken effect. Without a collection in the run, lookups find all of it exactly when the record
      being replaced is rescued, or its sector is collected. */
  method Restart(f: Flash, zeroed: bool, ghost log: seq<Flash>, ghost trail: seq<Image>, ghost now: Flash, ghost marks: seq<int>,
                 ghost m: map<Key, Val>, ghost cmds: seq<Command>, ghost errs: seq<Err>, ghost care: Care, ghost i: nat)
    returns (db: Kvdb, outcome: Outcome, ghost collected: bool, ghost mixed: bool, ghost o: nat, ghost n: nat)
    requires Atomic(log, marks, m, cmds, errs, care) && Taped(trail, log, now) && marks[0] <= i < |log| && f == log[i]
    requires care.gc != Any && (care.gc == Calm || NoGcMark(f) || HasSpare(f)) && (care.solid || Lagless(f))
    ensures n <= |errs| && marks[n] <= i && (n < |errs| ==> i < marks[n + 1])
    ensures db.Served() && db.Model() == MapAfter(m, cmds, errs, n)
    ensures outcome == Loaded ==> db.Lookup() == db.Model() && (HasSpare(f) ==> db.Ready())
    ensures OldestIs(f, zeroed, o)
    ensures care.lone && !collected ==> (db.Lookup() == db.Model() <==> Rescued(f, o))
    ensures care.lone && care.gc == Calm ==> (collected <==> Starved(f, o))
    ensures care.lone && care.gc == Calm && collected && OldDirty(f) ==> db.Lookup() == db.Model()
    ensures care.lone && care.gc == Calm ==> (mixed <==> Starved(f, o) && Misordered(f, o))
    ensures care.lone && care.gc == Calm && NoneDirty(f) ==> (outcome == Spins <==> Starved(f, o))
  {
    hide CrashState, Pictured, Rescued, Starved, Lone, OldDirty, OldestIs, Bootable;
    hide NoGcMark, Lagless, HasSpare, Indexed, MapOf, MapAfter, WritesHold, WritesOf;
    n := MarkBefore(marks, i, |errs|);
    StateAt(log, marks, m, cmds, errs, care, i, n);
    LeftBootable(f, MapAfter(m, cmds, errs, n), care);
    LeftLone(f, MapAfter(m, cmds, errs, n), care);
    assert TapeStep(trail, log, i);
    ghost var was;
    db, outcome, collected, mixed, o, was := Boot(f, zeroed, MapAfter(m, cmds, errs, n), trail[i + 1], care.solid);
  }

  lemma StateAt(log: seq<Flash>, marks: seq<int>, m: map<Key, Val>, cmds: seq<Command>, errs: seq<Err>, care: Care, i: nat, n: nat)
    requires Atomic(log, marks, m, cmds, errs, care) && n <= |errs| && marks[n] <= i < |log| && (n < |errs| ==> i < marks[n + 1])
    ensures CrashState(log[i], MapAfter(m, cmds, errs, n), care)
  {
    hide CrashState;
    assert CrashRange(log, marks[n], if n < |errs| then marks[n + 1] else |log|, MapAfter(m, cmds, errs, n), care);
  }

  lemma LeftLone(f: Flash, m: map<Key, Val>, care: Care)
    requires CrashState(f, m, care)
    ensures (care.lone ==> Lone(f)) && (care.gc == Calm ==> NoGcMark(f))
  {
    hide Shape, Index, NoGcMark, SolidLive, Lone, Seen;
    SeenNone(f);
    if care.veil == None {
      var w, p :| Indexed(f, w, p) && Apart(care, f, w, p);
      LoneIs(f, w, p);
    }
  }

  // ---------------------------------------------------------------- boot, run, power loss, boot

  /** The `i`-th state of the log was left when `n` commands had taken effect. */
  predicate TookEffect(marks: seq<int>, i: int, n: nat) {
    n < |marks| && marks[n] <= i && (n + 1 < |marks| ==> i < marks[n + 1])
  }

  /** The flash can be booted again, with the map after as many commands as had taken effect. */
  ghost predicate Again(log: seq<Flash>, marks: seq<int>, m: map<Key, Val>, cmds: seq<Command>, errs: seq<Err>, i: nat) {
    && i < |log| && |errs| <= |cmds|
    && exists n: nat {:trigger TookEffect(marks, i, n)} :: n <= |errs| && TookEffect(marks, i, n) && Bootable(log[i], MapAfter(m, cmds, errs, n), true)
  }

  /** Boot, and if every record was recovered carry out `cmds`. Whenever power is lost from the start of the boot
      to the end of the run, the next boot can begin with what is left, unless that is a collection without a spare
      sector; so this goes on over any number of power losses. */
  method Session(f: Flash, zeroed: bool, ghost m: map<Key, Val>, ghost mems: Image, cmds: seq<Command>, ghost keys: set<Key>)
    returns (db: Kvdb, outcome: Outcome, errs: seq<Err>, gots: seq<Got>, ghost marks: seq<int>, ghost states: seq<State>, ghost start: nat)
    requires Bootable(f, m, true) && (NoGcMark(f) || |EmptySet(Repaired(f))| <= 1) && HasSpare(f) && Pictured(mems, f)
    requires NoCollision(keys) && m.Keys <= keys
    requires forall n :: 0 <= n < |cmds| ==> cmds[n].key in keys && |cmds[n].key| != KV_NAME_MAX && Solidly(cmds[n], true)
    ensures if outcome == Loaded then |errs| == |gots| == |cmds| && db.Ready() else errs == []
    ensures db.Served() && |errs| <= |cmds| && db.Model() == MapAfter(m, cmds, errs, |errs|) && Answered(m, cmds, errs, gots)
    ensures outcome == Loaded ==> Steps(states, cmds, errs) && WritesHold(states[0].flash, m) && states[|cmds|] == At(db.flash, db.oldest)
    ensures |marks| == |errs| + 1 && marks[0] == 0 && Taped(db.trail, db.log, db.flash) && db.first == mems
    ensures forall i: nat :: i < |db.log| && (NoGcMark(db.log[i]) || (start <= i && HasSpare(db.log[i]))) ==>
      Again(db.log, marks, m, cmds, errs, i)
  {
    hide Shape, Indexed, Agrees, KvOk, KvCache.Wf, CrashState, CrashRange, MapOf, HasEmpty, NoGcMark, Lagless, Apart, Taped, Solidly, Leaves;
    hide NoCollision, Effect, Atomic, MapAfter, Answered, Bootable, HasSpare, Pictured, Rescued, Starved, Misordered, NoneDirty, OldDirty, OldClean;
    hide WritesHold, OldsOf, WritesOf, Lone, NoTorn, TornLess, Stuck, OldestIs, Again, Repaired, EmptySet, Stepped;
    ghost var collected, mixed, o, was;
    db, outcome, collected, mixed, o, was := Boot(f, zeroed, m, mems, true);
    errs, gots, marks, states := [], [], [0], [];
    ghost var log0 := db.log;
    start := |log0|;
    NoneAnswered(m, cmds);
    BootAgain(log0, m, cmds);
    if outcome == Loaded {
      db.Renew();
      errs, gots, marks, states := Run(db, cmds, keys);
      RunAgain(log0, db.log, marks, m, cmds, errs, db.care);
      marks := [0] + marks[1..];
    }
  }

  lemma BootAgain(log: seq<Flash>, m: map<Key, Val>, cmds: seq<Command>)
    requires forall i {:trigger log[i]} :: 0 <= i < |log| && NoGcMark(log[i]) ==> Bootable(log[i], m, true)
    ensures MapAfter(m, cmds, [], 0) == m
    ensures forall i: nat :: i < |log| && NoGcMark(log[i]) ==> Again(log, [0], m, cmds, [], i)
  {
    hide NoGcMark, Bootable;
    forall i: nat | i < |log| && NoGcMark(log[i]) ensures Again(log, [0], m, cmds, [], i) { assert TookEffect([0], i, 0); }
  }

  lemma RunAgain(log0: seq<Flash>, log: seq<Flash>, marks: seq<int>, m: map<Key, Val>, cmds: seq<Command>, errs: seq<Err>, care: Care)
    requires log0 <= log && Atomic(log, marks, m, cmds, errs, care) && |errs| <= |cmds| && marks[0] == |log0|
    requires care.gc != Any && care.solid
    requires forall i {:trigger log0[i]} :: 0 <= i < |log0| && NoGcMark(log0[i]) ==> Bootable(log0[i], m, true)
    ensures var marks' := [0] + marks[1..];
      forall i: nat :: i < |log| && (NoGcMark(log[i]) || (|log0| <= i && HasSpare(log[i]))) ==> Again(log, marks', m, cmds, errs, i)
  {
    hide NoGcMark, Bootable, HasSpare, CrashState, MapAfter, Lagless;
    var marks' := [0] + marks[1..];
    forall i: nat | i < |log| && (NoGcMark(log[i]) || (marks[0] <= i && HasSpare(log[i]))) ensures Again(log, marks', m, cmds, errs, i) {
      if i < |log0| {
        FirstMark(log, marks, m, cmds, errs, care);
        assert log[i] == log0[i] && TookEffect(marks', i, 0);
        NoneYet(m, cmds, errs);
      } else {
        var n := MarkBefore(marks, i, |errs|);
        StateAt(log, marks, m, cmds, errs, care, i, n);
        LeftBootable(log[i], MapAfter(m, cmds, errs, n), care);
        assert TookEffect(marks', i, n);
      }
    }
  }

  lemma NoneYet(m: map<Key, Val>, cmds: seq<Command>, errs: seq<Err>)
    ensures MapAfter(m, cmds, errs, 0) == m
  {
  }

  /** The first command takes effect after the start of the run. */
  lemma FirstMark(log: seq<Flash>, marks: seq<int>, m: map<Key, Val>, cmds: seq<Command>, errs: seq<Err>, care: Care)
    requires Atomic(log, marks, m, cmds, errs, care)
    ensures |errs| > 0 ==> marks[0] <= marks[1]
  {
    hide CrashState;
    if |errs| > 0 { assert CrashRange(log, marks[0], marks[1], MapAfter(m, cmds, errs, 0), care); }
  }
}
