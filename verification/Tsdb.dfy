/** The time series database: appending, walking the logs forwards and backwards, querying by
    time, and rebuilding at boot what was lost from memory. */
module Tsdb {
  import opened TsRing
  import opened TsWalk

  datatype Outcome = Done | Stopped | Past

  datatype Err = NoErr | WriteErr | SavedFull

  /** What the database keeps in memory about one sector; addresses are those of the partition. */
  datatype SecInfo = SecInfo(addr: nat, store: Store, startTime: int, endTime: int, endIdx: nat, stat0: nat, stat1: nat,
                             remain: int, emptyIdx: nat, emptyData: int)

  /** Read a sector header. Without a valid end mark the end fields keep what they were. */
  function ReadHeader(f: Flash, s: nat, prev: SecInfo): SecInfo
    requires s < |f|
  {
    var sec := f[s];
    var e := if sec.end0.status == TSL_WRITE then sec.end0
             else if sec.end1.status == TSL_WRITE then sec.end1 else EndInfo(0, prev.endTime, prev.endIdx);
    SecInfo(s, sec.store, sec.startTime, e.time, e.index, sec.end0.status, sec.end1.status, SEC_SIZE - HDR_SIZE,
            Slot(s, 0), s * SEC_SIZE + SEC_SIZE)
  }

  /** The memory agrees with the sector in use. */
  predicate CurOk(cur: SecInfo, sec: Sector, c: nat) {
    && UsingOk(sec) && cur.addr == c && cur.store == Using && cur.startTime == sec.startTime
    && cur.stat0 == TSL_UNUSED && cur.stat1 == TSL_UNUSED
    && var n := |sec.tsls|;
    && cur.endTime == sec.tsls[n - 1].time && cur.endIdx == Slot(c, n - 1) && cur.emptyIdx == Slot(c, n)
    && cur.emptyData == c * SEC_SIZE + DataTop(sec.tsls, n) && cur.remain == cur.emptyData - cur.emptyIdx
  }

  /** Nothing was appended yet. */
  predicate Fresh(f: Flash, oldest: nat, cur: SecInfo) {
    && |f| == SECTOR_NUM && (forall s {:trigger f[s]} :: 0 <= s < SECTOR_NUM ==> EmptyOk(f[s]))
    && oldest == 0 && cur.addr == 0 && cur.store == Empty && cur.stat0 == TSL_UNUSED && cur.stat1 == TSL_UNUSED
    && cur.emptyIdx == Slot(0, 0) && cur.emptyData == SEC_SIZE && cur.remain == SEC_SIZE - HDR_SIZE
  }

  predicate Ready(f: Flash, oldest: nat, cur: SecInfo) {
    InUse(f, oldest, cur.addr) && CurOk(cur, f[cur.addr], cur.addr)
  }

  /** A sector when the next one is taken into use: its end mark is written, then FULL. */
  function Closed(sec: Sector, time: int, index: nat): Sector {
    sec.(store := Full, end0 := EndInfo(TSL_WRITE, time, index))
  }

  const FORMATTED := Sector(true, Empty, 0, EndInfo(0, 0, 0), EndInfo(0, 0, 0), [])

  /** The memory right after sector `c` was taken into use. */
  predicate JustBegun(cur: SecInfo, c: nat, time: int) {
    && cur.addr == c && cur.store == Using && cur.startTime == time && cur.stat0 == TSL_UNUSED && cur.stat1 == TSL_UNUSED
    && cur.emptyIdx == Slot(c, 0) && cur.emptyData == c * SEC_SIZE + SEC_SIZE && cur.remain == SEC_SIZE - HDR_SIZE
  }

  predicate NeedsNext(cur: SecInfo, len: nat) { cur.store == Using && cur.remain < IDX_SIZE + Align(len) }

  class Tsdb {
    const maxLen: nat
    var flash: Flash
    var oldest: nat
    var cur: SecInfo
    var lastTime: int
    /** Every log appended, and how many of the first ones are gone. */
    ghost var history: seq<Tsl>
    ghost var dropped: nat

    ghost predicate Valid()
      reads this
    {
      && HDR_SIZE + IDX_SIZE + Align(maxLen) <= SEC_SIZE
      && (Fresh(flash, oldest, cur) || Ready(flash, oldest, cur))
      && Rising(Logs()) && (Logs() == [] || lastTime == Logs()[|Logs()| - 1].time)
      && dropped <= |history| && Logs() == history[dropped..]
    }

    /** The logs that are retained, oldest first. */
    ghost function Logs(): seq<Tsl>
      reads this
    {
      if |flash| == SECTOR_NUM && oldest < SECTOR_NUM then Retained(flash, oldest) else []
    }

    /** A partition just formatted. */
    constructor (maxLen: nat)
      requires HDR_SIZE + IDX_SIZE + Align(maxLen) <= SEC_SIZE
      ensures Valid() && Logs() == [] && history == [] && lastTime == 0 && this.maxLen == maxLen
    {
      this.maxLen, oldest, lastTime, history, dropped := maxLen, 0, 0, [], 0;
      flash := seq(SECTOR_NUM, _ => FORMATTED);
      cur := SecInfo(0, Empty, 0, 0, 0, 0, 0, SEC_SIZE - HDR_SIZE, Slot(0, 0), SEC_SIZE);
      new;
      FlatNone(flash, 0, SECTOR_NUM);
    }

    /** Boot: find the sector in use from the headers, then its free space by reading its index
        slots. `was` and the other ghost parameters are what the memory held before. */
    constructor Boot(f: Flash, maxLen: nat, beyond: bv8, ghost was: SecInfo, ghost wasOldest: nat)
      requires HDR_SIZE + IDX_SIZE + Align(maxLen) <= SEC_SIZE
      requires (Fresh(f, wasOldest, was) || Ready(f, wasOldest, was)) && Rising(Retained(f, wasOldest))
      ensures flash == f && this.maxLen == maxLen && oldest == wasOldest && cur.addr == was.addr
      ensures Fresh(f, wasOldest, was) ==> Valid() && Fresh(f, oldest, cur) && lastTime == 0
      ensures Ready(f, wasOldest, was) && Rebuildable(f[was.addr].tsls, beyond) ==> Valid() && cur == was && lastTime == was.endTime
      ensures Ready(f, wasOldest, was) && !Rebuildable(f[was.addr].tsls, beyond) ==> cur.emptyIdx != was.emptyIdx
      ensures history == Retained(f, wasOldest) && dropped == 0
    {
      this.maxLen, flash, history, dropped := maxLen, f, Retained(f, wasOldest), 0;
      var none := SecInfo(DB_SIZE, Unused, 0, 0, 0, 0, 0, 0, 0, 0);
      var found, latest := FindCurrent(f, none, was, wasOldest);
      oldest := if latest * SEC_SIZE + SEC_SIZE >= DB_SIZE then 0 else latest + 1;
      var info := found;
      if found.store == Using {
        info := ReadTraversal(f, found.addr, found, maxLen, beyond);
      } else {
        info := ReadHeader(f, found.addr, found);
      }
      cur := info;
      // An empty current sector behind others would take the last time from the sector before it.
      lastTime := if info.store == Using then info.endTime else 0;
      new;
      BootState(f, was, wasOldest, beyond, cur);
    }

    /** Make room for a log: when it does not fit, close the sector and take the next one into use,
        erasing it first unless it is empty. */
    method UpdateSecStatus(len: nat, time: int) returns (err: Err)
      requires Fresh(flash, oldest, cur) || Ready(flash, oldest, cur)
      modifies `flash, `oldest, `cur
      ensures err == NoErr
      ensures MadeRoom(old(flash), old(oldest), old(cur), lastTime, len, time, flash, oldest, cur)
    {
      hide TslsOk, DataTop, Rising;
      if cur.store == Using && cur.remain < IDX_SIZE + Align(len) {
        var endIndex := cur.emptyIdx - IDX_SIZE;
        var c := cur.addr;
        // The first end mark is free: a sector is closed once between two erasures.
        if cur.stat0 == TSL_UNUSED {
          flash := flash[c := flash[c].(end0 := EndInfo(TSL_WRITE, lastTime, endIndex))];
        }
        flash := flash[c := flash[c].(store := Full)];
        cur := cur.(store := Full);
        var next := if cur.addr * SEC_SIZE + SEC_SIZE < DB_SIZE then cur.addr + 1 else 0;
        cur := ReadHeader(flash, next, cur);
        if cur.store != Empty {
          oldest := if next * SEC_SIZE + SEC_SIZE < DB_SIZE then next + 1 else 0;
          flash := flash[next := FORMATTED];
          cur := ReadHeader(flash, next, cur);
        }
      } else if cur.store == Full {
        assert false;
      }
      if cur.store == Empty {
        cur := cur.(store := Using, startTime := time);
        flash := flash[cur.addr := flash[cur.addr].(store := Using, startTime := time)];
      }
      err := NoErr;
    }

    /** Write one log where the memory says: index slot, data, then the WRITE mark. */
    method WriteTsl(time: int, len: nat, bytes: seq<bv8>) returns (ghost t: Tsl)
      requires cur.addr < |flash| && cur.emptyData - Align(len) >= cur.addr * SEC_SIZE
      modifies `flash
      ensures t == Tsl(TSL_WRITE, time, len, cur.emptyData - Align(len) - cur.addr * SEC_SIZE, bytes)
      ensures flash == old(flash)[cur.addr := old(flash[cur.addr]).(tsls := old(flash[cur.addr].tsls) + [t])]
    {
      var c := cur.addr;
      var tsl := Tsl(TSL_WRITE, time, len, cur.emptyData - Align(len) - c * SEC_SIZE, bytes);
      flash := flash[c := flash[c].(tsls := flash[c].tsls + [tsl])];
      t := tsl;
    }

    /** Append a log. It is refused when too long or not newer than the last one; else it becomes the
        newest, and if the ring is full the whole oldest sector makes room for it. */
    method Append(time: int, len: nat, bytes: seq<bv8>) returns (err: Err, ghost t: Tsl)
      requires Valid() && |bytes| == Align(len)
      modifies this
      ensures Valid()
      ensures err == (if len > maxLen || time <= old(lastTime) then WriteErr else NoErr)
      ensures err == WriteErr ==> flash == old(flash) && oldest == old(oldest) && cur == old(cur) && lastTime == old(lastTime)
      ensures err == WriteErr ==> history == old(history) && dropped == old(dropped)
      ensures err == NoErr ==> t.status == TSL_WRITE == 2 && t.time == time && t.len == len && t.bytes == bytes
      ensures err == NoErr ==> history == old(history) + [t] && lastTime == time
      ensures err == NoErr ==> dropped == old(dropped) + old(|Lost(flash, oldest, cur, len)|)
      ensures err == NoErr ==> Placed(old(flash), old(oldest), old(cur.addr), len, t, flash, oldest, dropped - old(dropped))
    {
      hide Rising, Retained, UsingOk, Filling, Rolling, MadeRoom, Lost, TslsOk, DataTop, FullOk, EmptyOk, Placed, CurOk, Evicts, NeedsNext, Fresh, Ready;
      t := Tsl(0, 0, 0, 0, []);
      if len > maxLen {
        return WriteErr, t;
      }
      if time <= lastTime {
        return WriteErr, t;
      }
      ghost var f, o, was, last := flash, oldest, cur, lastTime;
      AlignMono(len, maxLen);
      if was.store == Using { NewestIs(f, o, was); }
      err := UpdateSecStatus(len, time);
      ghost var g, now := flash, cur;
      HasRoom(f, o, was, last, len, time, flash, oldest, cur);
      t := WriteTsl(time, len, bytes);
      cur := Moved(cur, time, len);
      lastTime := time;
      history := history + [t];
      Appended(f, o, was, last, len, g, oldest, now, t);
      PlacedIs(f, o, was, last, len, g, oldest, now, t);
      Concluded(Lost(f, o, was, len), Retained(flash, oldest), Retained(f, o), t, old(history), dropped);
      dropped := dropped + |Lost(f, o, was, len)|;
    }

    /** Move a retained log to a later status; an earlier one leaves it as it is. */
    method SetStatus(s: nat, k: nat, status: nat)
      requires Valid() && s < SECTOR_NUM && k < |flash[s].tsls| && status < TSL_STATUS_NUM
      modifies `flash, `history
      ensures Valid()
      ensures oldest == old(oldest) && flash == old(flash)[s := old(flash[s]).(tsls := flash[s].tsls)]
      ensures var t := old(flash[s].tsls[k]);
              flash[s].tsls == old(flash[s].tsls)[k := t.(status := if status > t.status then status else t.status)]
      ensures var i := |RingTsls(old(flash), oldest, Pos(oldest, s))| + k;
              i < |old(Logs())| && Logs() == old(Logs())[i := Marked(old(flash[s].tsls[k]), status)]
    {
      hide Retained, RingTsls, Rising, Fresh, Ready;
      ghost var f := flash;
      SectorsOk(f, oldest, cur);
      MarkKeeps(f, oldest, cur, s, k, status);
      ghost var i := |RingTsls(f, oldest, Pos(oldest, s))| + k;
      flash := flash[s := flash[s].(tsls := flash[s].tsls[k := Marked(flash[s].tsls[k], status)])];
      history := history[dropped + i := history[dropped + i].(status := flash[s].tsls[k].status)];
    }

    // -------------------------------------------------------------- walks

    /** The log whose index slot is at `addr`. */
    method ReadTsl(s: nat, addr: nat, ghost k: nat) returns (t: Tsl)
      requires s < |flash| && k < |flash[s].tsls| && addr == Slot(s, k)
      ensures t == flash[s].tsls[k]
    {
      t := flash[s].tsls[(addr - Slot(s, 0)) / IDX_SIZE];
    }

    /** Hand the logs of one sector to the callback, from slot `first` up. */
    method VisitUp(s: nat, first: nat, endIdx: nat, stop: Tsl -> bool) returns (seen: seq<Tsl>, stopped: bool)
      requires s < |flash| && flash[s].tsls != [] && first == Slot(s, 0) && endIdx == Slot(s, |flash[s].tsls| - 1)
      ensures Walked(flash[s].tsls, seen, stop, stopped)
    {
      var addr := first;
      seen := [];
      ghost var k := 0;
      while true
        invariant k < |flash[s].tsls| && addr == Slot(s, k) && seen == flash[s].tsls[..k]
        invariant forall i :: 0 <= i < k ==> !stop(flash[s].tsls[i])
        decreases |flash[s].tsls| - k
      {
        var t := ReadTsl(s, addr, k);
        seen := seen + [t];
        if stop(t) {
          return seen, true;
        }
        if addr + IDX_SIZE <= endIdx {
          addr := addr + IDX_SIZE;
          k := k + 1;
        } else {
          return seen, false;
        }
      }
    }

    /** Hand the logs of one sector to the callback, from the last one down. */
    method VisitDown(s: nat, endIdx: nat, stop: Tsl -> bool) returns (seen: seq<Tsl>, stopped: bool)
      requires s < |flash| && flash[s].tsls != [] && endIdx == Slot(s, |flash[s].tsls| - 1)
      ensures Walked(Reversed(flash[s].tsls), seen, stop, stopped)
    {
      var addr := endIdx;
      seen := [];
      ghost var n, k := |flash[s].tsls|, |flash[s].tsls| - 1;
      ghost var r := Reversed(flash[s].tsls);
      while true
        invariant 0 <= k < n && addr == Slot(s, k) && seen == r[..n - 1 - k]
        invariant forall i :: 0 <= i < n - 1 - k ==> !stop(r[i])
        decreases k
      {
        var t := ReadTsl(s, addr, k);
        seen := seen + [t];
        if stop(t) {
          return seen, true;
        }
        if addr >= Slot(s, 1) {
          addr := addr - IDX_SIZE;
          k := k - 1;
        } else {
          return seen, false;
        }
      }
    }

    /** Walk all logs, oldest first. */
    method Iter(stop: Tsl -> bool) returns (visited: seq<Tsl>, stopped: bool)
      requires Valid()
      ensures Walked(Logs(), visited, stop, stopped)
    {
      hide Walked, Rising, UsingOk, TslsOk, Filling, Rolling, RingTsls, Retained, EmptyOk, CurOk, DataTop;
      ghost var f, o := flash, oldest;
      SectorsOk(f, o, cur);
      RingEnds(f, o);
      WalkNothing(stop);
      var sector: SecInfo := *;
      var s, traversed := oldest, 0;
      visited := [];
      ghost var i := 0;
      while true
        invariant i < SECTOR_NUM && s == RingSec(o, i) && traversed == i * SEC_SIZE
        invariant Walked(RingTsls(f, o, i), visited, stop, false)
        decreases SECTOR_NUM - i
      {
        traversed := traversed + SEC_SIZE;
        assert SectorOk(f, cur, s);
        sector := ReadHeader(flash, s, sector);
        RingStep(f, o, i);
        RingPrefix(f, o, i + 1, SECTOR_NUM);
        if sector.store == Using || sector.store == Full {
          if sector.store == Using {
            sector := cur;
          }
          var seen, ended := VisitUp(s, Slot(s, 0), sector.endIdx, stop);
          WalkOn(RingTsls(f, o, i), visited, f[s].tsls, seen, stop, ended);
          visited := visited + seen;
          if ended {
            WalkPrefix(RingTsls(f, o, i + 1), Retained(f, o), visited, stop);
            return visited, true;
          }
        } else {
          WalkOn(RingTsls(f, o, i), visited, f[s].tsls, [], stop, false);
          assert visited + [] == visited;
        }
        if traversed + SEC_SIZE <= DB_SIZE {
          s := if s * SEC_SIZE + SEC_SIZE < DB_SIZE then s + 1 else 0;
          i := i + 1;
        } else {
          return visited, false;
        }
      }
    }

    /** Walk all logs, newest first. */
    method IterReverse(stop: Tsl -> bool) returns (visited: seq<Tsl>, stopped: bool)
      requires Valid()
      ensures Walked(Reversed(Logs()), visited, stop, stopped)
    {
      hide Walked, Rising, UsingOk, TslsOk, Filling, Rolling, RingTsls, Retained, EmptyOk, CurOk, DataTop, Reversed, SectorOk, RingSec,
           Fresh, Ready, FullOk;
      ghost var f, o := flash, oldest;
      SectorsOk(f, o, cur);
      WalkNothing(stop);
      ghost var suffix: seq<Tsl> := [];
      BackwardStart(f, o, cur);
      ghost var p: int := Pos(o, cur.addr);
      var sector: SecInfo := *;
      var s: nat, traversed := cur.addr, 0;
      visited := [];
      while true
        invariant -1 <= p < SECTOR_NUM && s < SECTOR_NUM && 0 <= traversed < DB_SIZE && traversed % SEC_SIZE == 0
        invariant BackwardAt(f, o, cur, p, s, traversed) && Retained(f, o) == RingTsls(f, o, p + 1) + suffix
        invariant Walked(Reversed(suffix), visited, stop, false)
        decreases DB_SIZE - traversed
      {
        traversed := traversed + SEC_SIZE;
        sector := ReadHeader(flash, s, sector);
        BackwardSector(f, o, cur, p, s, traversed - SEC_SIZE);
        if sector.store == Using || sector.store == Full {
          if sector.store == Using {
            sector := cur;
          }
          var seen, ended := VisitDown(s, sector.endIdx, stop);
          RingStep(f, o, p);
          ReversedAppend(f[s].tsls, suffix);
          WalkOn(Reversed(suffix), visited, Reversed(f[s].tsls), seen, stop, ended);
          visited := visited + seen;
          suffix := f[s].tsls + suffix;
          assert Retained(f, o) == RingTsls(f, o, p) + suffix;
          if ended {
            ReversedAppend(RingTsls(f, o, p), suffix);
            WalkEnds(Reversed(suffix), visited, Reversed(RingTsls(f, o, p)), stop);
            return visited, true;
          }
        } else {
          RingEnds(f, o);
          assert Retained(f, o) == suffix;
          return visited, false;
        }
        BackwardNext(f, o, cur, p, s, traversed - SEC_SIZE);
        if traversed + SEC_SIZE <= DB_SIZE {
          s := if s * SEC_SIZE >= SEC_SIZE then s - 1 else SECTOR_NUM - 1;
          p := p - 1;
        } else {
          RingEnds(f, o);
          assert Retained(f, o) == suffix;
          return visited, false;
        }
      }
    }

    // -------------------------------------------------------------- a span of time

    /** Binary search for the first log of a sector that is not older than `from`. */
    method SearchStart(s: nat, first: nat, last: nat, from: int) returns (addr: nat)
      requires s < |flash| && flash[s].tsls != [] && Rising(flash[s].tsls)
      requires first == Slot(s, 0) && last == Slot(s, |flash[s].tsls| - 1)
      ensures addr == Slot(s, Older(flash[s].tsls, from))
    {
      hide Older;
      ghost var tsls := flash[s].tsls;
      var start: int, end: int := first, last;
      ghost var a: int, b: int := 0, |tsls| - 1;
      while true
        invariant 0 <= a <= b < |tsls| && start == first + a * IDX_SIZE && end == first + b * IDX_SIZE
        invariant forall k :: 0 <= k < a ==> tsls[k].time < from
        invariant forall k :: b < k < |tsls| ==> tsls[k].time > from
        decreases b - a
      {
        ghost var m := a + (b - a + 1) / 2;
        Middle(start, end, b - a);
        var mid := start + AlignTo((end - start) / 2, IDX_SIZE);
        var t := ReadTsl(s, mid, m);
        if t.time < from {
          start := mid + IDX_SIZE;
          a := m + 1;
        } else if t.time > from {
          end := mid - IDX_SIZE;
          b := m - 1;
        } else {
          OlderIs(tsls, from, m);
          return mid;
        }
        if start > end {
          break;
        }
      }
      OlderIs(tsls, from, a);
      addr := start;
    }

    /** Hand the logs up to time `to` to the callback, from slot `k` of one sector on. */
    method VisitSpan(s: nat, first: nat, endIdx: nat, from: int, to: int, stop: Tsl -> bool, ghost k0: nat)
      returns (seen: seq<Tsl>, outcome: Outcome)
      requires s < |flash| && k0 < |flash[s].tsls| && first == Slot(s, k0) && endIdx == Slot(s, |flash[s].tsls| - 1)
      requires Rising(flash[s].tsls) && forall k :: k0 <= k < |flash[s].tsls| ==> flash[s].tsls[k].time >= from
      ensures Walked(Filter(flash[s].tsls[k0..], from, to), seen, stop, outcome == Stopped)
      ensures outcome == Past ==> flash[s].tsls[|flash[s].tsls| - 1].time > to
    {
      hide Filter, Walked;
      ghost var tsls := flash[s].tsls;
      var addr := first;
      seen := [];
      ghost var k := k0;
      SpanStart(stop);
      assert tsls[k0..k0] == [];
      while true
        invariant k0 <= k < |tsls| && addr == Slot(s, k) && seen == tsls[k0..k]
        invariant Walked(seen, seen, stop, false) && forall i :: k0 <= i < k ==> tsls[i].time <= to
        decreases |tsls| - k
      {
        var t := ReadTsl(s, addr, k);
        assert tsls[k0..k + 1] == tsls[k0..k] + [t];
        if from <= t.time <= to {
          OneSeen(seen, t, stop);
          seen := seen + [t];
          if stop(t) {
            SpanStopped(tsls, k0, k + 1, from, to, stop);
            return seen, Stopped;
          }
        } else {
          SpanPast(tsls, k0, k, from, to);
          return seen, Past;
        }
        if addr + IDX_SIZE <= endIdx {
          addr := addr + IDX_SIZE;
          k := k + 1;
        } else {
          SpanAll(tsls, k0, from, to);
          assert tsls[k0..k + 1] == tsls[k0..];
          return seen, Done;
        }
      }
    }

    /** Walk the logs of a span of time, oldest first. */
    method IterByTime(from: int, to: int, stop: Tsl -> bool) returns (visited: seq<Tsl>, stopped: bool)
      requires Valid() && from <= to
      ensures Walked(Filter(Logs(), from, to), visited, stop, stopped)
    {
      hide Walked, Rising, UsingOk, TslsOk, Filling, Rolling, RingTsls, Retained, EmptyOk, CurOk, DataTop, Filter, FullOk, Older,
           SpanFound, Fresh, Ready;
      ghost var f, o := flash, oldest;
      SectorsOk(f, o, cur);
      RingEnds(f, o);
      SpanNothing(from, to, stop);
      var startSec := oldest;
      var sector: SecInfo := *;
      var s, traversed, found := startSec, 0, false;
      visited := [];
      ghost var i := 0;
      while true
        invariant i < SECTOR_NUM && s == RingSec(o, i) && traversed == i * SEC_SIZE
        invariant Walked(Filter(RingTsls(f, o, i), from, to), visited, stop, false)
        invariant SpanFound(RingTsls(f, o, i), from, found)
        decreases SECTOR_NUM - i
      {
        traversed := traversed + SEC_SIZE;
        assert SectorOk(f, cur, s);
        sector := ReadHeader(flash, s, sector);
        ghost var d, x := RingTsls(f, o, i), f[s].tsls;
        ghost var rest := RingParts(f, o, i, d, x);
        if sector.store == Using || sector.store == Full {
          if sector.store == Using {
            sector := cur;
          }
          EndsOf(f, cur, s);
          RisingPart(Retained(f, o), d, x, rest);
          ghost var before := found;
          if found || ((s == startSec && from <= sector.startTime) || from <= sector.endTime) {
            SpanSearch(d, x, from, found);
            found := true;
            var addr := SearchStart(s, Slot(s, 0), sector.endIdx, from);
            ghost var k := Older(x, from);
            var seen, outcome := VisitSpan(s, addr, sector.endIdx, from, to, stop, k);
            SpanOn(d, x, rest, k, visited, seen, from, to, stop, outcome);
            visited := visited + seen;
            if outcome == Stopped {
              return visited, true;
            }
            if outcome == Past {
              return visited, false;
            }
          } else {
            SpanSkip(d, x, visited, from, to, stop);
          }
          SpanFoundNext(d, x, from, before, found);
        } else if sector.store == Empty {
          NothingLeft(f, o, cur, i);
          return visited, false;
        }
        if traversed + SEC_SIZE <= DB_SIZE {
          s := if s * SEC_SIZE + SEC_SIZE < DB_SIZE then s + 1 else 0;
          i := i + 1;
        } else {
          return visited, false;
        }
      }
    }

    /** Count the logs of a span of time that have a status. */
    method QueryCount(from: int, to: int, status: nat) returns (count: nat)
      requires Valid() && from <= to
      ensures count == CountOf(Filter(Logs(), from, to), status)
    {
      hide Filter, Walked, Retained, Rising, Fresh, Ready;
      var visited, stopped := IterByTime(from, to, t => false);
      NeverStops(Filter(Logs(), from, to), visited, t => false, stopped);
      count := 0;
      for k := 0 to |visited|
        invariant count == CountOf(visited[..k], status)
      {
        assert visited[..k + 1][..k] == visited[..k];
        if visited[k].status == status {
          count := count + 1;
        }
      }
      assert visited[..|visited|] == visited;
    }
  }

  /** A log after one of its status words was written. */
  function Marked(t: Tsl, status: nat): Tsl { t.(status := if status > t.status then status else t.status) }

  lemma MarkSector(sec: Sector, k: nat, status: nat)
    requires k < |sec.tsls| && status < TSL_STATUS_NUM
    ensures var sec' := sec.(tsls := sec.tsls[k := Marked(sec.tsls[k], status)]);
            && (TslsOk(sec.tsls) ==> TslsOk(sec'.tsls)) && DataTop(sec'.tsls, |sec.tsls|) == DataTop(sec.tsls, |sec.tsls|)
            && forall i :: 0 <= i < |sec.tsls| ==> sec'.tsls[i].time == sec.tsls[i].time
  {
    var a, b := sec.tsls, sec.tsls[k := Marked(sec.tsls[k], status)];
    DataTopSame(b, a, |a|);
    if TslsOk(a) {
      forall j {:trigger TslOk(b, j)} | 0 <= j < |b| ensures TslOk(b, j) {
        assert TslOk(a, j);
        DataTopSame(b, a, j + 1);
      }
    }
  }

  lemma MarkRing(f: Flash, g: Flash, oldest: nat, s: nat, k: nat, t: Tsl)
    requires |f| == SECTOR_NUM && oldest < SECTOR_NUM && s < SECTOR_NUM && k < |f[s].tsls|
    requires g == f[s := f[s].(tsls := f[s].tsls[k := t])]
    ensures var i := |RingTsls(f, oldest, Pos(oldest, s))| + k;
            && i < |Retained(f, oldest)| && Retained(f, oldest)[i] == f[s].tsls[k] && Retained(g, oldest) == Retained(f, oldest)[i := t]
  {
    hide Flat;
    if s >= oldest {
      FlatMark(f, g, oldest, SECTOR_NUM, s, k, t);
      FlatSame(f, g, 0, oldest);
    } else {
      FlatMark(f, g, 0, oldest, s, k, t);
      FlatSame(f, g, oldest, SECTOR_NUM);
      FlatNone(f, 0, 0);
      Replaced(Flat(f, oldest, SECTOR_NUM), Flat(f, 0, oldest), [], |Flat(f, 0, s)| + k, t);
      Unpadded(Flat(f, oldest, SECTOR_NUM), Flat(f, 0, oldest));
      Unpadded(Flat(f, oldest, SECTOR_NUM), Flat(g, 0, oldest));
    }
  }

  lemma Unpadded(a: seq<Tsl>, b: seq<Tsl>)
    ensures a + (b + []) == a + b
  {
    assert b + [] == b;
  }

  lemma FlatMark(f: Flash, g: Flash, lo: nat, hi: nat, s: nat, k: nat, t: Tsl)
    requires lo <= s < hi <= |f| && k < |f[s].tsls| && g == f[s := f[s].(tsls := f[s].tsls[k := t])]
    ensures var i := |Flat(f, lo, s)| + k;
            i < |Flat(f, lo, hi)| && Flat(f, lo, hi)[i] == f[s].tsls[k] && Flat(g, lo, hi) == Flat(f, lo, hi)[i := t]
  {
    hide Flat;
    FlatSplit(f, lo, s, hi);
    FlatSplit(g, lo, s, hi);
    FlatFirst(f, s, hi);
    FlatFirst(g, s, hi);
    FlatSame(f, g, lo, s);
    FlatSame(f, g, s + 1, hi);
    Replaced(Flat(f, lo, s), f[s].tsls, Flat(f, s + 1, hi), k, t);
  }

  lemma Replaced(a: seq<Tsl>, x: seq<Tsl>, b: seq<Tsl>, k: nat, t: Tsl)
    requires k < |x|
    ensures (a + (x + b))[|a| + k] == x[k] && (a + (x + b))[|a| + k := t] == a + (x[k := t] + b)
  {
  }

  lemma MarkKeeps(f: Flash, oldest: nat, cur: SecInfo, s: nat, k: nat, status: nat)
    requires (Fresh(f, oldest, cur) || Ready(f, oldest, cur)) && Rising(Retained(f, oldest))
    requires s < SECTOR_NUM && k < |f[s].tsls| && status < TSL_STATUS_NUM
    ensures var t := Marked(f[s].tsls[k], status);
            var g := f[s := f[s].(tsls := f[s].tsls[k := t])];
            var i := |RingTsls(f, oldest, Pos(oldest, s))| + k;
            && Ready(g, oldest, cur) && i < |Retained(f, oldest)| && Retained(f, oldest)[i] == f[s].tsls[k]
            && Retained(g, oldest) == Retained(f, oldest)[i := t] && Rising(Retained(g, oldest))
  {
    hide Retained, RingTsls, TslsOk, DataTop;
    var t := Marked(f[s].tsls[k], status);
    var g := f[s := f[s].(tsls := f[s].tsls[k := t])];
    MarkSector(f[s], k, status);
    MarkRing(f, g, oldest, s, k, t);
  }

  /** What a walk needs to know about each sector. */
  predicate SectorOk(f: Flash, cur: SecInfo, s: nat)
    requires s < |f|
  {
    && f[s].ok
    && (f[s].store == Using ==> s == cur.addr && f[s].tsls != [] && cur.endIdx == Slot(s, |f[s].tsls| - 1)
                                && cur.startTime == f[s].tsls[0].time && cur.endTime == f[s].tsls[|f[s].tsls| - 1].time)
    && (f[s].store == Full ==> FullOk(s, f[s]))
    && f[s].store != Unused && (f[s].store == Empty ==> f[s].tsls == [])
  }

  lemma SectorsOk(f: Flash, oldest: nat, cur: SecInfo)
    requires Fresh(f, oldest, cur) || Ready(f, oldest, cur)
    ensures |f| == SECTOR_NUM && oldest < SECTOR_NUM && forall s: nat :: s < SECTOR_NUM ==> SectorOk(f, cur, s)
  {
    hide TslsOk;
    forall s: nat | s < SECTOR_NUM ensures SectorOk(f, cur, s) {
      var sec := f[s];
      assert EmptyOk(sec) || FullOk(s, sec) || (s == cur.addr && CurOk(cur, sec, s));
    }
  }

  /** The ring position of sector `c`. */
  function Pos(oldest: nat, c: nat): (p: nat)
    requires oldest < SECTOR_NUM && c < SECTOR_NUM
    ensures p < SECTOR_NUM && RingSec(oldest, p) == c
  {
    if c >= oldest then c - oldest else c + SECTOR_NUM - oldest
  }

  /** A backward walk about to read the sector at ring position `p`, or past the oldest sector. */
  predicate BackwardAt(f: Flash, oldest: nat, cur: SecInfo, p: int, s: nat, traversed: nat) {
    && |f| == SECTOR_NUM && oldest < SECTOR_NUM && cur.addr < SECTOR_NUM && -1 <= p <= Pos(oldest, cur.addr) && s < SECTOR_NUM
    && traversed == (Pos(oldest, cur.addr) - p) * SEC_SIZE
    && (if p >= 0 then s == RingSec(oldest, p) else s == SECTOR_NUM - 1 && f[s].store == Empty && oldest == 0)
  }

  lemma BackwardStart(f: Flash, oldest: nat, cur: SecInfo)
    requires Fresh(f, oldest, cur) || Ready(f, oldest, cur)
    ensures |f| == SECTOR_NUM && oldest < SECTOR_NUM && cur.addr < SECTOR_NUM
    ensures BackwardAt(f, oldest, cur, Pos(oldest, cur.addr), cur.addr, 0)
    ensures Retained(f, oldest) == RingTsls(f, oldest, Pos(oldest, cur.addr) + 1) + []
  {
    hide TslsOk, DataTop, Retained, RingTsls;
    var p := Pos(oldest, cur.addr);
    forall j: nat | p < j < SECTOR_NUM ensures f[RingSec(oldest, j)].tsls == [] {
    }
    RingTail(f, oldest, p + 1);
  }

  lemma BackwardSector(f: Flash, oldest: nat, cur: SecInfo, p: int, s: nat, traversed: nat)
    requires (Fresh(f, oldest, cur) || Ready(f, oldest, cur)) && BackwardAt(f, oldest, cur, p, s, traversed)
    ensures f[s].store == Using ==> f[s].tsls != [] && cur.endIdx == Slot(s, |f[s].tsls| - 1) && p >= 0 && s == RingSec(oldest, p)
    ensures f[s].store == Full ==> f[s].tsls != [] && p >= 0 && s == RingSec(oldest, p)
    ensures f[s].store == Full ==> f[s].end0.status == TSL_WRITE && f[s].end0.index == Slot(s, |f[s].tsls| - 1)
    ensures f[s].store == Empty || f[s].store == Unused ==> RingTsls(f, oldest, p + 1) == []
  {
    hide TslsOk, DataTop, Retained;
    SectorsOk(f, oldest, cur);
    assert SectorOk(f, cur, s);
    if f[s].store == Empty || f[s].store == Unused {
      if p >= 0 { assert Fresh(f, oldest, cur); }
      FlatNone(f, 0, p + 1);
    }
  }

  lemma BackwardNext(f: Flash, oldest: nat, cur: SecInfo, p: int, s: nat, traversed: nat)
    requires (Fresh(f, oldest, cur) || Ready(f, oldest, cur)) && BackwardAt(f, oldest, cur, p, s, traversed)
    requires f[s].store == Using || f[s].store == Full
    ensures traversed + 2 * SEC_SIZE <= DB_SIZE ==> BackwardAt(f, oldest, cur, p - 1, Prev(s), traversed + SEC_SIZE)
    ensures traversed + 2 * SEC_SIZE > DB_SIZE ==> p == 0
  {
    hide TslsOk, DataTop, Retained;
  }

  /** How many logs are older than `from`. */
  function Older(s: seq<Tsl>, from: int): (n: nat)
    ensures n <= |s|
  {
    if s == [] || s[0].time >= from then 0 else 1 + Older(s[1..], from)
  }

  lemma {:induction false} OlderIs(s: seq<Tsl>, from: int, n: nat)
    requires Rising(s) && n <= |s|
    requires (forall k :: 0 <= k < n ==> s[k].time < from) && (n < |s| ==> s[n].time >= from)
    ensures Older(s, from) == n
  {
    if n > 0 {
      assert s[0].time < from;
      forall k | 0 <= k < n - 1 ensures s[1..][k].time < from { assert s[1..][k] == s[k + 1]; }
      RisingPart(s, [s[0]], s[1..], []);
      OlderIs(s[1..], from, n - 1);
    }
  }

  /** Round up to a multiple. */
  function AlignTo(size: int, align: int): int
    requires align > 0 && size >= 0
  {
    size + align - 1 - (size + align - 1) % align
  }

  lemma Middle(start: int, end: int, d: nat)
    requires end - start == d * IDX_SIZE
    ensures AlignTo((end - start) / 2, IDX_SIZE) == (d + 1) / 2 * IDX_SIZE
  {
  }

  lemma NeverStops(s: seq<Tsl>, seen: seq<Tsl>, stop: Tsl -> bool, stopped: bool)
    requires Walked(s, seen, stop, stopped) && forall t :: !stop(t)
    ensures seen == s
  {
  }

  lemma SpanStart(stop: Tsl -> bool)
    ensures Walked([], [], stop, false)
  {
  }

  lemma OneSeen(seen: seq<Tsl>, t: Tsl, stop: Tsl -> bool)
    requires Walked(seen, seen, stop, false)
    ensures Walked(seen + [t], seen + [t], stop, stop(t))
  {
  }

  lemma SpanAll(s: seq<Tsl>, k: nat, from: int, to: int)
    requires k <= |s| && forall i :: k <= i < |s| ==> from <= s[i].time <= to
    ensures Filter(s[k..], from, to) == s[k..]
  {
    FilterAll(s[k..], from, to);
  }

  lemma SpanPast(s: seq<Tsl>, k: nat, m: nat, from: int, to: int)
    requires Rising(s) && k <= m < |s| && s[m].time > to && forall i :: k <= i < m ==> from <= s[i].time <= to
    ensures Filter(s[k..], from, to) == s[k..m] && s[|s| - 1].time > to
  {
    assert s[k..] == s[k..m] + s[m..];
    FilterAppend(s[k..m], s[m..], from, to);
    FilterAll(s[k..m], from, to);
    forall i | 0 <= i < |s[m..]| ensures s[m..][i].time > to { assert s[m..][i] == s[m + i]; }
    FilterNone(s[m..], from, to);
  }

  lemma SpanStopped(s: seq<Tsl>, k: nat, m: nat, from: int, to: int, stop: Tsl -> bool)
    requires k <= m <= |s| && (forall i :: k <= i < m ==> from <= s[i].time <= to) && Walked(s[k..m], s[k..m], stop, true)
    ensures Walked(Filter(s[k..], from, to), s[k..m], stop, true)
  {
    assert s[k..] == s[k..m] + s[m..];
    FilterAppend(s[k..m], s[m..], from, to);
    FilterAll(s[k..m], from, to);
    WalkEnds(s[k..m], s[k..m], Filter(s[m..], from, to), stop);
  }

  lemma SpanNothing(from: int, to: int, stop: Tsl -> bool)
    ensures Filter([], from, to) == [] && Walked([], [], stop, false) && SpanFound([], from, false)
  {
  }

  /** Before the first log of the span all logs are older; afterwards some log is not. */
  predicate SpanFound(d: seq<Tsl>, from: int, found: bool) {
    if found then d != [] && d[|d| - 1].time >= from else forall k :: 0 <= k < |d| ==> d[k].time < from
  }

  /** The ring is what was walked, this sector, and the rest, in rising order. */
  lemma RingParts(f: Flash, oldest: nat, i: nat, d: seq<Tsl>, x: seq<Tsl>) returns (rest: seq<Tsl>)
    requires |f| == SECTOR_NUM && oldest < SECTOR_NUM && i < SECTOR_NUM && Rising(Retained(f, oldest))
    requires d == RingTsls(f, oldest, i) && x == f[RingSec(oldest, i)].tsls
    ensures RingTsls(f, oldest, i + 1) == d + x && Retained(f, oldest) == d + x + rest && Rising(x)
    ensures forall i, j :: 0 <= i < |d| && 0 <= j < |x| ==> d[i].time < x[j].time
    ensures forall i, j :: 0 <= i < |x| && 0 <= j < |rest| ==> x[i].time < rest[j].time
  {
    hide Rising, RingTsls, Retained;
    RingStep(f, oldest, i);
    RingPrefix(f, oldest, i + 1, SECTOR_NUM);
    RingEnds(f, oldest);
    rest := Retained(f, oldest)[|d + x|..];
    RisingPart(Retained(f, oldest), d, x, rest);
  }

  lemma EndsOf(f: Flash, cur: SecInfo, s: nat)
    requires s < |f| && SectorOk(f, cur, s) && (f[s].store == Using || f[s].store == Full)
    ensures f[s].tsls != []
    ensures f[s].store == Full ==> f[s].end0 == EndInfo(TSL_WRITE, f[s].tsls[|f[s].tsls| - 1].time, Slot(s, |f[s].tsls| - 1))
    ensures f[s].store == Full ==> f[s].startTime == f[s].tsls[0].time
  {
  }

  lemma {:induction false} OlderSplits(s: seq<Tsl>, from: int)
    requires Rising(s)
    ensures forall k :: 0 <= k < Older(s, from) ==> s[k].time < from
    ensures forall k :: Older(s, from) <= k < |s| ==> s[k].time >= from
  {
    if s != [] && s[0].time < from {
      RisingPart(s, [s[0]], s[1..], []);
      OlderSplits(s[1..], from);
      forall k | 0 <= k < Older(s, from) ensures s[k].time < from { if k > 0 { assert s[1..][k - 1] == s[k]; } }
      forall k | Older(s, from) <= k < |s| ensures s[k].time >= from { assert s[1..][k - 1] == s[k]; }
    }
  }

  /** Where the search lands in the first sector that reaches the span, and in every later one. */
  lemma SpanSearch(d: seq<Tsl>, x: seq<Tsl>, from: int, found: bool)
    requires x != [] && Rising(x) && SpanFound(d, from, found)
    requires forall i, j :: 0 <= i < |d| && 0 <= j < |x| ==> d[i].time < x[j].time
    requires found || from <= x[0].time || from <= x[|x| - 1].time
    ensures Older(x, from) < |x| && forall k :: Older(x, from) <= k < |x| ==> x[k].time >= from
  {
    hide Older;
    OlderSplits(x, from);
    if found { assert d[|d| - 1].time < x[|x| - 1].time; }
    assert x[|x| - 1].time >= from;
  }

  lemma SpanOn(d: seq<Tsl>, x: seq<Tsl>, rest: seq<Tsl>, k: nat, visited: seq<Tsl>, seen: seq<Tsl>, from: int, to: int,
               stop: Tsl -> bool, outcome: Outcome)
    requires Rising(x) && x != [] && k == Older(x, from)
    requires forall i, j :: 0 <= i < |x| && 0 <= j < |rest| ==> x[i].time < rest[j].time
    requires Walked(Filter(d, from, to), visited, stop, false)
    requires Walked(Filter(x[k..], from, to), seen, stop, outcome == Stopped)
    requires outcome == Past ==> x[|x| - 1].time > to
    ensures outcome == Done ==> Walked(Filter(d + x, from, to), visited + seen, stop, false)
    ensures outcome == Stopped ==> Walked(Filter(d + x + rest, from, to), visited + seen, stop, true)
    ensures outcome == Past ==> Walked(Filter(d + x + rest, from, to), visited + seen, stop, false)
  {
    hide Walked, Filter, Older, Rising;
    FilterFrom(x, k, from, to);
    FilterAppend(d, x, from, to);
    WalkOn(Filter(d, from, to), visited, Filter(x, from, to), seen, stop, outcome == Stopped);
    if outcome == Stopped {
      FilterAppend(d + x, rest, from, to);
      WalkEnds(Filter(d + x, from, to), visited + seen, Filter(rest, from, to), stop);
    } else if outcome == Past {
      SpanOver(d + x, x[|x| - 1], rest, from, to);
    }
  }

  lemma FilterFrom(x: seq<Tsl>, k: nat, from: int, to: int)
    requires Rising(x) && k == Older(x, from)
    ensures Filter(x, from, to) == Filter(x[k..], from, to)
  {
    hide Filter, Older;
    OlderSplits(x, from);
    FilterNone(x[..k], from, to);
    FilterAppend(x[..k], x[k..], from, to);
    assert x == x[..k] + x[k..];
  }

  lemma SpanOver(d: seq<Tsl>, last: Tsl, rest: seq<Tsl>, from: int, to: int)
    requires last.time > to && forall j :: 0 <= j < |rest| ==> last.time < rest[j].time
    ensures Filter(d + rest, from, to) == Filter(d, from, to)
  {
    hide Filter;
    FilterNone(rest, from, to);
    FilterAppend(d, rest, from, to);
    assert Filter(d, from, to) + [] == Filter(d, from, to);
  }

  lemma SpanSkip(d: seq<Tsl>, x: seq<Tsl>, visited: seq<Tsl>, from: int, to: int, stop: Tsl -> bool)
    requires Rising(x) && x != [] && x[|x| - 1].time < from && Walked(Filter(d, from, to), visited, stop, false)
    ensures Walked(Filter(d + x, from, to), visited, stop, false)
  {
    hide Walked, Filter;
    FilterNone(x, from, to);
    FilterAppend(d, x, from, to);
    assert Filter(d, from, to) + [] == Filter(d, from, to);
  }

  lemma SpanFoundNext(d: seq<Tsl>, x: seq<Tsl>, from: int, before: bool, found: bool)
    requires Rising(x) && x != [] && SpanFound(d, from, before)
    requires found == (before || from <= x[0].time || from <= x[|x| - 1].time)
    requires forall i, j :: 0 <= i < |d| && 0 <= j < |x| ==> d[i].time < x[j].time
    ensures SpanFound(d + x, from, found)
  {
    if before { assert d[|d| - 1].time < x[|x| - 1].time; }
  }

  lemma NothingLeft(f: Flash, oldest: nat, cur: SecInfo, i: nat)
    requires Fresh(f, oldest, cur) || Ready(f, oldest, cur)
    requires i < SECTOR_NUM && oldest < SECTOR_NUM && f[RingSec(oldest, i)].store == Empty
    ensures RingTsls(f, oldest, i) == Retained(f, oldest)
  {
    hide TslsOk, DataTop, Retained, RingTsls;
    forall j: nat | i <= j < SECTOR_NUM ensures f[RingSec(oldest, j)].tsls == [] {
    }
    RingTail(f, oldest, i);
  }

  lemma WalkNothing(stop: Tsl -> bool)
    ensures Walked([], [], stop, false)
  {
  }

  lemma WalkPrefix(a: seq<Tsl>, s: seq<Tsl>, seen: seq<Tsl>, stop: Tsl -> bool)
    requires Walked(a, seen, stop, true) && a <= s
    ensures Walked(s, seen, stop, true)
  {
  }

  // ---------------------------------------------------------------- boot

  /** Scan the headers for the sector in use, or the first empty one if nothing was ever appended;
      also the sector just before the oldest. */
  method FindCurrent(f: Flash, none: SecInfo, ghost was: SecInfo, ghost wasOldest: nat) returns (cur: SecInfo, latest: nat)
    requires (Fresh(f, wasOldest, was) || Ready(f, wasOldest, was)) && none.addr == DB_SIZE
    ensures cur.addr == was.addr && cur == ReadHeader(f, was.addr, none)
    ensures latest < SECTOR_NUM && Next(latest) == wasOldest
  {
    hide TslsOk, DataTop, CurOk;
    cur := none;
    var empties, emptyAt := 0, 0;
    for s := 0 to SECTOR_NUM
      invariant s <= was.addr ==> cur == none
      invariant s > was.addr ==> cur == ReadHeader(f, was.addr, none)
      invariant empties == 0 || (emptyAt < s && f[emptyAt].store == Empty && emptyAt == s - 1)
      invariant empties > 0 <==> s > 0 && f[s - 1].store == Empty
    {
      var sector := ReadHeader(f, s, none);
      if !f[s].ok {
        assert false;
      } else if sector.store == Using {
        if cur.addr == DB_SIZE {
          cur := sector;
        } else {
          assert false;
        }
      } else if sector.store == Empty {
        empties, emptyAt := empties + 1, s;
        if empties == 1 && cur.addr == DB_SIZE {
          cur := sector;
        }
      }
    }
    latest := if empties > 0 then emptyAt else cur.addr;
  }

  /** A byte of a sector's data, found from the last log up. */
  function DataByte(tsls: seq<Tsl>, j: nat, off: int): bv8
    requires j <= |tsls| && DataTop(tsls, j) <= off < SEC_SIZE && forall i :: 0 <= i < j ==> |tsls[i].bytes| == Align(tsls[i].len)
  {
    if off < DataTop(tsls, j - 1) then tsls[j - 1].bytes[off - DataTop(tsls, j)] else DataByte(tsls, j - 1, off)
  }

  predicate Sound(tsls: seq<Tsl>) { forall i :: 0 <= i < |tsls| ==> |tsls[i].bytes| == Align(tsls[i].len) }

  /** The byte at `off`: erased below the data, and `beyond` behind the sector. */
  function ByteAt(tsls: seq<Tsl>, off: int, beyond: bv8): bv8
    requires Sound(tsls)
  {
    if off >= SEC_SIZE then beyond else if off < DataTop(tsls, |tsls|) then 0xFF else DataByte(tsls, |tsls|, off)
  }

  /** The status that the first free index slot seems to have, from its `i`-th status word down. */
  function SlotStatus(tsls: seq<Tsl>, beyond: bv8, i: nat): nat
    requires Sound(tsls)
  {
    if i == 0 then TSL_UNUSED
    else if ByteAt(tsls, HDR_SIZE + IDX_SIZE * |tsls| + 4 * (i - 1), beyond) == 0 then i
    else SlotStatus(tsls, beyond, i - 1)
  }

  function Gap(tsls: seq<Tsl>): int { DataTop(tsls, |tsls|) - (HDR_SIZE + IDX_SIZE * |tsls|) }

  /** Reading the index slots stops behind the last log: nothing is left, or the next slot, as far
      as it overlaps data, does not look written. */
  predicate Rebuildable(tsls: seq<Tsl>, beyond: bv8) {
    Sound(tsls) && (Gap(tsls) == 0 || SlotStatus(tsls, beyond, TSL_STATUS_NUM - 1) == TSL_UNUSED)
  }

  /** The byte at `off` of the sector, as its logs have it, is not zero: behind the sector it is `beyond`. */
  ghost predicate NotZero(tsls: seq<Tsl>, off: int, beyond: bv8)
    requires Sound(tsls)
  {
    && (off >= 2048 ==> beyond != 0)
    && forall j: nat {:trigger tsls[j]} :: j < |tsls| && DataTop(tsls, j + 1) <= off < DataTop(tsls, j) ==> tsls[j].bytes[off - DataTop(tsls, j + 1)] != 0
  }

  /** That is so if and only if nothing is left, or none of the five status words of the next slot begins with a zero. */
  lemma RebuildableIff(tsls: seq<Tsl>, beyond: bv8)
    requires TslsOk(tsls)
    ensures Sound(tsls) && (Rebuildable(tsls, beyond) <==>
      DataTop(tsls, |tsls|) == 80 + 32 * |tsls| || forall i :: 0 <= i < 5 ==> NotZero(tsls, 80 + 32 * |tsls| + 4 * i, beyond))
  {
    hide NotZero, ByteAt, TslsOk;
    SoundOk(tsls);
    SlotUnused(tsls, beyond, 5);
    forall i | 0 <= i < 5 ensures ByteAt(tsls, 80 + 32 * |tsls| + 4 * i, beyond) != 0 <==> NotZero(tsls, 80 + 32 * |tsls| + 4 * i, beyond) {
      ByteIs(tsls, 80 + 32 * |tsls| + 4 * i, beyond);
    }
  }

  lemma {:induction false} SlotUnused(tsls: seq<Tsl>, beyond: bv8, n: nat)
    requires Sound(tsls)
    ensures SlotStatus(tsls, beyond, n) == TSL_UNUSED <==> forall i :: 0 <= i < n ==> ByteAt(tsls, 80 + 32 * |tsls| + 4 * i, beyond) != 0
  {
    hide ByteAt;
    if n > 0 { SlotUnused(tsls, beyond, n - 1); }
  }

  lemma ByteIs(tsls: seq<Tsl>, off: int, beyond: bv8)
    requires TslsOk(tsls) && Sound(tsls) && off >= 0
    ensures ByteAt(tsls, off, beyond) != 0 <==> NotZero(tsls, off, beyond)
  {
    hide TslsOk;
    forall j: nat | j < |tsls| && DataTop(tsls, j + 1) <= off < DataTop(tsls, j)
      ensures off < 2048 && off >= DataTop(tsls, |tsls|) && ByteAt(tsls, off, beyond) == tsls[j].bytes[off - DataTop(tsls, j + 1)]
    {
      DataTopMono(tsls, 0, j);
      DataTopMono(tsls, j + 1, |tsls|);
      DataByteIs(tsls, |tsls|, j, off);
    }
    if DataTop(tsls, |tsls|) <= off < 2048 {
      var j := LogAt(tsls, |tsls|, off);
    }
  }

  lemma {:induction false} LogAt(tsls: seq<Tsl>, n: nat, off: int) returns (j: nat)
    requires n <= |tsls| && DataTop(tsls, n) <= off < SEC_SIZE
    ensures j < n && DataTop(tsls, j + 1) <= off < DataTop(tsls, j)
  {
    if off < DataTop(tsls, n - 1) { j := n - 1; } else { j := LogAt(tsls, n - 1, off); }
  }

  lemma {:induction false} DataByteIs(tsls: seq<Tsl>, n: nat, j: nat, off: int)
    requires Sound(tsls) && j < n <= |tsls| && DataTop(tsls, n) <= off < SEC_SIZE && DataTop(tsls, j + 1) <= off < DataTop(tsls, j)
    ensures DataByte(tsls, n, off) == tsls[j].bytes[off - DataTop(tsls, j + 1)]
  {
    if j < n - 1 {
      DataTopMono(tsls, j + 1, n - 1);
      DataByteIs(tsls, n - 1, j, off);
    }
  }

  /** It is enough that the free gap is nothing at all, or a status table wide. */
  lemma WideGap(tsls: seq<Tsl>, beyond: bv8)
    requires TslsOk(tsls) && (Gap(tsls) == 0 || Gap(tsls) >= 20)
    ensures Rebuildable(tsls, beyond)
  {
    SoundOk(tsls);
    DataTopMono(tsls, 0, |tsls|);
    if Gap(tsls) > 0 { NoZero(tsls, beyond, TSL_STATUS_NUM - 1); }
  }

  lemma SoundOk(tsls: seq<Tsl>)
    requires TslsOk(tsls)
    ensures Sound(tsls)
  {
    forall i | 0 <= i < |tsls| ensures |tsls[i].bytes| == Align(tsls[i].len) { assert TslOk(tsls, i); }
  }

  lemma {:induction false} NoZero(tsls: seq<Tsl>, beyond: bv8, i: nat)
    requires Sound(tsls) && Gap(tsls) >= 4 * i && DataTop(tsls, |tsls|) <= SEC_SIZE
    ensures SlotStatus(tsls, beyond, i) == TSL_UNUSED
  {
    if i > 0 { NoZero(tsls, beyond, i - 1); }
  }

  /** A sector a boot gets wrong: one log of zeros that leaves a gap of one word. */
  lemma GhostSlot(beyond: bv8)
    ensures exists tsls :: TslsOk(tsls) && !Rebuildable(tsls, beyond)
  {
    var t := Tsl(TSL_WRITE, 1, 1932, 116, seq(1932, _ => 0));
    var tsls := [t];
    assert DataTop(tsls, 1) == DataTop(tsls, 0) - Align(t.len) == 116;
    assert TslOk(tsls, 0);
    SoundOk(tsls);
    assert ByteAt(tsls, 128, beyond) == DataByte(tsls, 1, 128) == 0;
    assert SlotStatus(tsls, beyond, 5) == 5;
    assert TslsOk(tsls) && !Rebuildable(tsls, beyond);
  }

  /** The `k`-th index slot as bytes read back: a log, the first free slot, or whatever lies there. */
  method ReadIdx(tsls: seq<Tsl>, k: nat, beyond: bv8) returns (status: nat, time: int, len: nat)
    requires Sound(tsls)
    ensures k < |tsls| ==> status == tsls[k].status && time == tsls[k].time && len == tsls[k].len
    ensures k == |tsls| ==> status == SlotStatus(tsls, beyond, TSL_STATUS_NUM - 1)
  {
    if k < |tsls| {
      return tsls[k].status, tsls[k].time, tsls[k].len;
    }
    status, time, len := *, *, *;
    if k == |tsls| {
      status := SlotStatus(tsls, beyond, TSL_STATUS_NUM - 1);
    }
  }

  /** Read a sector's index slots until one is unused, adding up what they take. */
  method ReadTraversal(f: Flash, s: nat, prev: SecInfo, maxLen: nat, beyond: bv8) returns (info: SecInfo)
    requires s < |f| && UsingOk(f[s])
    ensures info.addr == s && info.store == Using
    ensures Rebuildable(f[s].tsls, beyond) ==> CurOk(info, f[s], s)
    ensures !Rebuildable(f[s].tsls, beyond) ==> info.emptyIdx != Slot(s, |f[s].tsls|)
  {
    var tsls := f[s].tsls;
    SoundOk(tsls);
    hide SlotStatus, Sound, TslsOk;
    info := ReadHeader(f, s, prev);
    ghost var n := |tsls|;
    var k := 0;
    while true
      invariant info == info.(addr := s, store := Using, startTime := f[s].startTime, stat0 := f[s].end0.status, stat1 := f[s].end1.status)
      invariant info.emptyIdx == Slot(s, k) && info.remain > 0
      invariant k <= n ==> info.emptyData == s * SEC_SIZE + DataTop(tsls, k) && info.remain == info.emptyData - info.emptyIdx
      invariant 0 < k <= n ==> info.endIdx == Slot(s, k - 1) && info.endTime == tsls[k - 1].time
      invariant k > n ==> !Rebuildable(tsls, beyond)
      decreases info.remain
    {
      var status, time, len := ReadIdx(tsls, k, beyond);
      if k < n { SlotFits(tsls, k); }
      if status == TSL_UNUSED {
        break;
      }
      if status == TSL_PRE_WRITE {
        len := maxLen;
      } else {
        info := info.(endTime := time);
      }
      info := info.(endIdx := info.emptyIdx, emptyIdx := info.emptyIdx + IDX_SIZE, emptyData := info.emptyData - Align(len));
      k := k + 1;
      if info.remain > IDX_SIZE + Align(len) {
        info := info.(remain := info.remain - (IDX_SIZE + Align(len)));
      } else {
        info := info.(remain := 0);
        break;
      }
    }
  }

  lemma SlotFits(tsls: seq<Tsl>, k: nat)
    requires TslsOk(tsls) && k < |tsls|
    ensures tsls[k].status >= TSL_WRITE && DataTop(tsls, k + 1) == DataTop(tsls, k) - Align(tsls[k].len)
    ensures DataTop(tsls, k) - HDR_SIZE - IDX_SIZE * k >= IDX_SIZE + Align(tsls[k].len) + IDX_SIZE * (|tsls| - k - 1)
    ensures k + 1 == |tsls| ==> DataTop(tsls, k + 1) - HDR_SIZE - IDX_SIZE * (k + 1) == Gap(tsls)
  {
    assert TslOk(tsls, k);
    DataTopMono(tsls, k + 1, |tsls|);
  }

  lemma BootState(f: Flash, was: SecInfo, oldest: nat, beyond: bv8, cur: SecInfo)
    requires (Fresh(f, oldest, was) || Ready(f, oldest, was)) && Rising(Retained(f, oldest))
    requires Ready(f, oldest, was) && Rebuildable(f[was.addr].tsls, beyond) ==> CurOk(cur, f[was.addr], was.addr)
    ensures Fresh(f, oldest, was) ==> Retained(f, oldest) == []
    ensures Ready(f, oldest, was) ==> Retained(f, oldest) != [] && Retained(f, oldest)[|Retained(f, oldest)| - 1].time == was.endTime
    ensures Ready(f, oldest, was) && Rebuildable(f[was.addr].tsls, beyond) ==> cur == was
  {
    hide Rising, Rebuildable;
    if Fresh(f, oldest, was) {
      FreshRetainsNothing(f, was);
    } else {
      NewestIs(f, oldest, was);
    }
  }

  /** The memory after a log was written. */
  function Moved(cur: SecInfo, time: int, len: nat): SecInfo
    requires cur.emptyData >= Align(len)
  {
    cur.(endIdx := cur.emptyIdx, endTime := time, emptyIdx := cur.emptyIdx + IDX_SIZE,
         emptyData := cur.emptyData - Align(len), remain := cur.remain - (IDX_SIZE + Align(len)))
  }

  function Wrote(f: Flash, c: nat, t: Tsl): Flash
    requires c < |f|
  {
    f[c := f[c].(tsls := f[c].tsls + [t])]
  }

  /** The flash and memory that making room leaves. */
  predicate MadeRoom(f: Flash, oldest: nat, cur: SecInfo, lastTime: int, len: nat, time: int, g: Flash, oldest': nat, cur': SecInfo)
    requires Fresh(f, oldest, cur) || Ready(f, oldest, cur)
  {
    if cur.store == Empty then
      g == f[0 := f[0].(store := Using, startTime := time)] && oldest' == 0 && JustBegun(cur', 0, time)
    else if !NeedsNext(cur, len) then g == f && oldest' == oldest && cur' == cur
    else
      var c, n := cur.addr, Next(cur.addr);
      && |g| == SECTOR_NUM && g == f[c := Closed(f[c], lastTime, cur.endIdx)][n := g[n]]
      && g[n].tsls == [] && g[n].ok && g[n].store == Using && g[n].startTime == time && Clear(g[n].end0) && Clear(g[n].end1)
      && oldest' == (if f[n].store == Empty then oldest else Next(n))
      && JustBegun(cur', n, time)
  }

  lemma HasRoom(f: Flash, oldest: nat, cur: SecInfo, lastTime: int, len: nat, time: int, g: Flash, oldest': nat, cur': SecInfo)
    requires Fresh(f, oldest, cur) || Ready(f, oldest, cur)
    requires MadeRoom(f, oldest, cur, lastTime, len, time, g, oldest', cur') && HDR_SIZE + IDX_SIZE + Align(len) <= SEC_SIZE
    ensures cur'.addr < |g| && cur'.emptyData - Align(len) >= cur'.addr * SEC_SIZE
  {
  }

  /** The newest log is the last one in the sector in use. */
  lemma NewestIs(f: Flash, oldest: nat, cur: SecInfo)
    requires (Fresh(f, oldest, cur) || Ready(f, oldest, cur)) && cur.store == Using
    ensures |f| == SECTOR_NUM && oldest < SECTOR_NUM && Retained(f, oldest) != []
    ensures Retained(f, oldest)[|Retained(f, oldest)| - 1].time == cur.endTime
  {
    EndsAtCurrent(f, oldest, cur.addr);
  }

  lemma Appended(f: Flash, oldest: nat, cur: SecInfo, lastTime: int, len: nat, g: Flash, oldest': nat, cur': SecInfo, t: Tsl)
    requires Fresh(f, oldest, cur) || Ready(f, oldest, cur)
    requires cur.store == Using ==> lastTime == cur.endTime
    requires MadeRoom(f, oldest, cur, lastTime, len, t.time, g, oldest', cur')
    requires HDR_SIZE + IDX_SIZE + Align(len) <= SEC_SIZE && t.len == len && t.status == TSL_WRITE && |t.bytes| == Align(len)
    requires cur'.emptyData >= Align(len) && cur'.addr < |g| && t.log == cur'.emptyData - Align(len) - cur'.addr * SEC_SIZE
    ensures Ready(Wrote(g, cur'.addr, t), oldest', Moved(cur', t.time, len))
    ensures oldest < SECTOR_NUM && oldest' < SECTOR_NUM && |f| == |g| == SECTOR_NUM
    ensures Retained(Wrote(g, cur'.addr, t), oldest') != []
    ensures Lost(f, oldest, cur, len) + Retained(Wrote(g, cur'.addr, t), oldest') == Retained(f, oldest) + [t]
  {
    if cur.store == Empty {
      AppendedFirst(f, oldest, cur, len, g, oldest', cur', t);
    } else if !NeedsNext(cur, len) {
      AppendedHere(f, oldest, cur, len, t);
    } else if f[Next(cur.addr)].store == Empty {
      AppendedNext(f, oldest, cur, lastTime, len, g, cur', t);
    } else {
      AppendedOver(f, oldest, cur, lastTime, len, g, cur', t);
    }
  }

  lemma AppendedHere(f: Flash, oldest: nat, cur: SecInfo, len: nat, t: Tsl)
    requires Ready(f, oldest, cur) && !NeedsNext(cur, len)
    requires t.len == len && t.status == TSL_WRITE && |t.bytes| == Align(len)
    requires cur.emptyData >= Align(len) && t.log == cur.emptyData - Align(len) - cur.addr * SEC_SIZE
    ensures Ready(Wrote(f, cur.addr, t), oldest, Moved(cur, t.time, len))
    ensures oldest < SECTOR_NUM && Retained(Wrote(f, cur.addr, t), oldest) == Retained(f, oldest) + [t]
  {
    hide Filling, Rolling, TslsOk, Retained;
    var c := cur.addr;
    var sec := f[c].(tsls := f[c].tsls + [t]);
    OneMore(f[c], t);
    AppendHere(f, oldest, c, sec, t);
  }

  lemma AppendedFirst(f: Flash, oldest: nat, cur: SecInfo, len: nat, g: Flash, oldest': nat, cur': SecInfo, t: Tsl)
    requires Fresh(f, oldest, cur)
    requires g == f[0 := f[0].(store := Using, startTime := t.time)] && oldest' == 0 && JustBegun(cur', 0, t.time)
    requires HDR_SIZE + IDX_SIZE + Align(len) <= SEC_SIZE && t.len == len && t.status == TSL_WRITE && |t.bytes| == Align(len)
    requires cur'.emptyData >= Align(len) && t.log == cur'.emptyData - Align(len)
    ensures Ready(Wrote(g, 0, t), 0, Moved(cur', t.time, len))
    ensures Retained(Wrote(g, 0, t), 0) == Retained(f, 0) + [t]
  {
    hide TslsOk, Retained;
    OneMore(g[0], t);
    var h := Wrote(g, 0, t);
    assert Filling(h, 0, 0);
    EndsAtCurrent(h, 0, 0);
    assert h[0].tsls == [t];
    FreshRetainsNothing(f, cur);
  }

  lemma FreshRetainsNothing(f: Flash, cur: SecInfo)
    requires Fresh(f, 0, cur)
    ensures Retained(f, 0) == []
  {
    FlatNone(f, 0, SECTOR_NUM);
  }

  lemma ClosedIsFull(f: Flash, oldest: nat, cur: SecInfo, lastTime: int)
    requires Ready(f, oldest, cur) && lastTime == cur.endTime
    ensures FullOk(cur.addr, Closed(f[cur.addr], lastTime, cur.endIdx))
  {
  }

  /** The first log of a sector just taken into use. */
  lemma FirstLog(sec: Sector, cur: SecInfo, c: nat, len: nat, t: Tsl)
    requires sec.tsls == [] && sec.ok && sec.store == Using && sec.startTime == t.time && Clear(sec.end0) && Clear(sec.end1)
    requires JustBegun(cur, c, t.time)
    requires HDR_SIZE + IDX_SIZE + Align(len) <= SEC_SIZE && t.len == len && t.status == TSL_WRITE && |t.bytes| == Align(len)
    requires cur.emptyData >= Align(len) && t.log == cur.emptyData - Align(len) - c * SEC_SIZE
    ensures var s := sec.(tsls := sec.tsls + [t]); UsingOk(s) && s.tsls == [t] && CurOk(Moved(cur, t.time, len), s, c)
  {
    OneMore(sec, t);
    assert sec.tsls + [t] == [t];
  }

  lemma AppendedNext(f: Flash, oldest: nat, cur: SecInfo, lastTime: int, len: nat, g: Flash, cur': SecInfo, t: Tsl)
    requires Ready(f, oldest, cur) && NeedsNext(cur, len) && f[Next(cur.addr)].store == Empty && lastTime == cur.endTime
    requires MadeRoom(f, oldest, cur, lastTime, len, t.time, g, oldest, cur')
    requires HDR_SIZE + IDX_SIZE + Align(len) <= SEC_SIZE && t.len == len && t.status == TSL_WRITE && |t.bytes| == Align(len)
    requires cur'.emptyData >= Align(len) && cur'.addr < |g| && t.log == cur'.emptyData - Align(len) - cur'.addr * SEC_SIZE
    ensures Ready(Wrote(g, cur'.addr, t), oldest, Moved(cur', t.time, len))
    ensures oldest < SECTOR_NUM && Retained(Wrote(g, cur'.addr, t), oldest) == Retained(f, oldest) + [t]
  {
    var c, n := cur.addr, Next(cur.addr);
    assert Filling(f, oldest, c) && n == c + 1;
    hide Rolling, TslsOk, Retained, Filling, Fresh;
    ClosedIsFull(f, oldest, cur, lastTime);
    FirstLog(g[n], cur', n, len, t);
    var full, sec := Closed(f[c], lastTime, cur.endIdx), g[n].(tsls := g[n].tsls + [t]);
    AppendNext(f, oldest, c, full, sec, t);
    assert Wrote(g, n, t) == f[c := full][n := sec];
  }

  lemma AppendedOver(f: Flash, oldest: nat, cur: SecInfo, lastTime: int, len: nat, g: Flash, cur': SecInfo, t: Tsl)
    requires Ready(f, oldest, cur) && NeedsNext(cur, len) && f[Next(cur.addr)].store != Empty && lastTime == cur.endTime
    requires MadeRoom(f, oldest, cur, lastTime, len, t.time, g, Next(Next(cur.addr)), cur')
    requires HDR_SIZE + IDX_SIZE + Align(len) <= SEC_SIZE && t.len == len && t.status == TSL_WRITE && |t.bytes| == Align(len)
    requires cur'.emptyData >= Align(len) && cur'.addr < |g| && t.log == cur'.emptyData - Align(len) - cur'.addr * SEC_SIZE
    ensures oldest < SECTOR_NUM && oldest == Next(cur.addr)
    ensures Ready(Wrote(g, cur'.addr, t), Next(oldest), Moved(cur', t.time, len))
    ensures f[oldest].tsls + Retained(Wrote(g, cur'.addr, t), Next(oldest)) == Retained(f, oldest) + [t]
  {
    var c, n := cur.addr, Next(cur.addr);
    FullRing(f, oldest, c);
    hide Rolling, TslsOk, Retained, Filling, Fresh;
    ClosedIsFull(f, oldest, cur, lastTime);
    FirstLog(g[n], cur', n, len, t);
    var full, sec := Closed(f[c], lastTime, cur.endIdx), g[n].(tsls := g[n].tsls + [t]);
    AppendOver(f, oldest, c, full, sec, t);
    assert Wrote(g, n, t) == f[c := full][n := sec];
  }

  lemma FullRing(f: Flash, oldest: nat, c: nat)
    requires InUse(f, oldest, c) && f[Next(c)].store != Empty
    ensures Rolling(f, oldest, c)
  {
  }

  /** Where the log `t` of `len` bytes went, read off the flash: with its index slot and its data it fits between the
      slots and the data of the sector `c` in use, and then nothing else changed and nothing was lost; or it
      does not, and it is the first one of the next sector, which was empty, or else was the oldest one and lost its
      `lost` logs. */
  predicate Placed(f: Flash, oldest: nat, c: nat, len: nat, t: Tsl, g: Flash, oldest': nat, lost: nat) {
    && |f| == |g| == 63 && c < 63
    && (f[c].store == Using || (c == 0 && forall s :: 0 <= s < |f| ==> f[s].store == Empty))
    && var n, next := |f[c].tsls|, if c + 1 < 63 then c + 1 else 0;
       if 80 + 32 * (n + 1) + Align(len) <= DataTop(f[c].tsls, n) then
         && lost == 0 && oldest' == oldest && g[c].tsls == f[c].tsls + [t]
         && forall s :: 0 <= s < 63 && s != c ==> g[s] == f[s]
       else
         && g[c].tsls == f[c].tsls && g[next].tsls == [t] && next != c
         && (forall s :: 0 <= s < 63 && s != c && s != next ==> g[s] == f[s])
         && if f[next].store == Empty then lost == 0 && oldest' == oldest
            else next == oldest && lost == |f[oldest].tsls| && oldest' == if oldest + 1 < 63 then oldest + 1 else 0
  }

  lemma PlacedIs(f: Flash, oldest: nat, cur: SecInfo, lastTime: int, len: nat, g: Flash, oldest': nat, cur': SecInfo, t: Tsl)
    requires Fresh(f, oldest, cur) || Ready(f, oldest, cur)
    requires MadeRoom(f, oldest, cur, lastTime, len, t.time, g, oldest', cur') && cur'.addr < |g|
    requires HDR_SIZE + IDX_SIZE + Align(len) <= SEC_SIZE
    ensures Placed(f, oldest, cur.addr, len, t, Wrote(g, cur'.addr, t), oldest', |Lost(f, oldest, cur, len)|)
  {
    hide TslsOk;
    if Ready(f, oldest, cur) && f[Next(cur.addr)].store != Empty { FullRing(f, oldest, cur.addr); }
  }

  /** What append leaves is still ordered, and still the end of everything appended. */
  lemma Concluded(lost: seq<Tsl>, after: seq<Tsl>, before: seq<Tsl>, t: Tsl, history: seq<Tsl>, dropped: nat)
    requires lost + after == before + [t] && after != []
    requires Rising(before) && (before == [] || before[|before| - 1].time < t.time)
    requires dropped <= |history| && before == history[dropped..]
    ensures Rising(after) && after[|after| - 1] == t
    ensures dropped + |lost| <= |history + [t]| && after == (history + [t])[dropped + |lost|..]
  {
    hide Rising;
    var k := |lost|;
    assert after == (lost + after)[k..] == (before + [t])[k..];
    RisingSuffix(before, t, k, after);
    assert before + [t] == (history + [t])[dropped..];
    assert (history + [t])[dropped..][k..] == (history + [t])[dropped + k..];
  }

  lemma RisingSuffix(before: seq<Tsl>, t: Tsl, k: nat, after: seq<Tsl>)
    requires Rising(before) && (before == [] || before[|before| - 1].time < t.time)
    requires k <= |before + [t]| && after == (before + [t])[k..]
    ensures Rising(after)
  {
    forall i, j | 0 <= i < j < |after| ensures after[i].time < after[j].time {
      assert after[i] == (before + [t])[k + i] && after[j] == (before + [t])[k + j];
    }
  }

  /** Whether appending `len` bytes erases a sector that holds logs. */
  predicate Evicts(f: Flash, cur: SecInfo, len: nat) {
    NeedsNext(cur, len) && Next(cur.addr) < |f| && f[Next(cur.addr)].store != Empty
  }

  /** The logs an append of `len` bytes erases. */
  function Lost(f: Flash, oldest: nat, cur: SecInfo, len: nat): seq<Tsl> {
    if Evicts(f, cur, len) && oldest < |f| then f[oldest].tsls else []
  }

  lemma AlignMono(a: nat, b: nat)
    requires a <= b
    ensures Align(a) <= Align(b)
  {
  }

  /** One more log in a sector that has room for it. */
  lemma OneMore(sec: Sector, t: Tsl)
    requires sec.ok && sec.store == Using && Clear(sec.end0) && Clear(sec.end1)
    requires sec.tsls == [] || TslsOk(sec.tsls)
    requires sec.startTime == if sec.tsls == [] then t.time else sec.tsls[0].time
    requires TSL_WRITE <= t.status < TSL_STATUS_NUM && |t.bytes| == Align(t.len)
    requires t.log == DataTop(sec.tsls, |sec.tsls|) - Align(t.len) && HDR_SIZE + IDX_SIZE * (|sec.tsls| + 1) <= t.log
    ensures UsingOk(sec.(tsls := sec.tsls + [t]))
    ensures DataTop(sec.tsls + [t], |sec.tsls| + 1) == t.log
  {
    var a, b := sec.tsls, sec.tsls + [t];
    DataTopSame(b, a, |a|);
    forall j {:trigger TslOk(b, j)} | 0 <= j < |b| ensures TslOk(b, j) {
      if j < |a| {
        assert TslOk(a, j);
        DataTopSame(b, a, j + 1);
      }
    }
  }
}
