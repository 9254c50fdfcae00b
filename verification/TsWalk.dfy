/** What walks over the logs are to yield: all of them, those of a time span, or backwards. */
module TsWalk {
  import opened TsRing

  // ---------------------------------------------------------------- a walk that a callback can stop

  /** `seen` is what a walk over `s` hands to a callback that ends it by returning true. */
  predicate Walked(s: seq<Tsl>, seen: seq<Tsl>, stop: Tsl -> bool, stopped: bool) {
    && seen <= s
    && (forall k :: 0 <= k < |seen| - (if stopped then 1 else 0) ==> !stop(seen[k]))
    && (if stopped then seen != [] && stop(seen[|seen| - 1]) else seen == s)
  }

  /** A walk over one part and then the next is a walk over both. */
  lemma WalkOn(a: seq<Tsl>, seenA: seq<Tsl>, b: seq<Tsl>, seenB: seq<Tsl>, stop: Tsl -> bool, stopped: bool)
    requires Walked(a, seenA, stop, false) && Walked(b, seenB, stop, stopped)
    ensures Walked(a + b, seenA + seenB, stop, stopped)
  {
  }

  /** Once stopped, what would have followed does not matter. */
  lemma WalkEnds(a: seq<Tsl>, seen: seq<Tsl>, b: seq<Tsl>, stop: Tsl -> bool)
    requires Walked(a, seen, stop, true)
    ensures Walked(a + b, seen, stop, true)
  {
  }

  function Reversed(s: seq<Tsl>): (r: seq<Tsl>)
    ensures |r| == |s| && forall k :: 0 <= k < |s| ==> r[k] == s[|s| - 1 - k]
  {
    if s == [] then [] else Reversed(s[1..]) + [s[0]]
  }

  lemma ReversedAppend(a: seq<Tsl>, b: seq<Tsl>)
    ensures Reversed(a + b) == Reversed(b) + Reversed(a)
  {
  }

  // ---------------------------------------------------------------- spans of time

  /** The logs with a time from `from` to `to`. */
  function Filter(s: seq<Tsl>, from: int, to: int): seq<Tsl> {
    if s == [] then []
    else Filter(s[..|s| - 1], from, to) + if from <= s[|s| - 1].time <= to then [s[|s| - 1]] else []
  }

  lemma {:induction false} FilterAppend(a: seq<Tsl>, b: seq<Tsl>, from: int, to: int)
    ensures Filter(a + b, from, to) == Filter(a, from, to) + Filter(b, from, to)
  {
    if b == [] {
      assert a + b == a;
    } else {
      assert (a + b)[..|a + b| - 1] == a + b[..|b| - 1];
      FilterAppend(a, b[..|b| - 1], from, to);
    }
  }

  lemma {:induction false} FilterNone(s: seq<Tsl>, from: int, to: int)
    requires (forall k :: 0 <= k < |s| ==> s[k].time < from) || (forall k :: 0 <= k < |s| ==> s[k].time > to)
    ensures Filter(s, from, to) == []
  {
    if s != [] { FilterNone(s[..|s| - 1], from, to); }
  }

  lemma {:induction false} FilterAll(s: seq<Tsl>, from: int, to: int)
    requires forall k :: 0 <= k < |s| ==> from <= s[k].time <= to
    ensures Filter(s, from, to) == s
  {
    if s != [] { FilterAll(s[..|s| - 1], from, to); }
  }

  /** The filter keeps exactly the logs in the span. */
  lemma {:induction false} FilterIs(s: seq<Tsl>, from: int, to: int, t: Tsl)
    ensures t in Filter(s, from, to) <==> t in s && from <= t.time <= to
  {
    if s != [] {
      FilterIs(s[..|s| - 1], from, to, t);
      assert s == s[..|s| - 1] + [s[|s| - 1]];
    }
  }

  function CountOf(s: seq<Tsl>, status: nat): nat {
    if s == [] then 0 else CountOf(s[..|s| - 1], status) + if s[|s| - 1].status == status then 1 else 0
  }

  /** The positions before `n` of the logs with that status. */
  ghost function WithStatus(s: seq<Tsl>, n: nat, status: nat): set<nat>
    requires n <= |s|
  {
    set k: nat | k < n && s[k].status == status
  }

  lemma {:induction false} CountTo(s: seq<Tsl>, n: nat, status: nat)
    requires n <= |s|
    ensures CountOf(s[..n], status) == |WithStatus(s, n, status)|
  {
    if n > 0 {
      CountTo(s, n - 1, status);
      assert s[..n][..n - 1] == s[..n - 1];
      assert WithStatus(s, n, status) ==
        if s[n - 1].status == status then WithStatus(s, n - 1, status) + {n - 1} else WithStatus(s, n - 1, status);
    } else {
      assert WithStatus(s, 0, status) == {};
    }
  }

  /** It is the number of those logs. */
  lemma CountIs(s: seq<Tsl>, status: nat)
    ensures CountOf(s, status) == |set k: nat | k < |s| && s[k].status == status|
  {
    CountTo(s, |s|, status);
    assert s[..|s|] == s;
    assert WithStatus(s, |s|, status) == set k: nat | k < |s| && s[k].status == status;
  }

  // ---------------------------------------------------------------- the ring, walked from the oldest sector

  function RingSec(oldest: nat, i: nat): (s: nat)
    requires oldest < SECTOR_NUM && i < SECTOR_NUM
    ensures s < SECTOR_NUM
  {
    if oldest + i < SECTOR_NUM then oldest + i else oldest + i - SECTOR_NUM
  }

  /** The logs of the first `i` sectors of the ring. */
  function RingTsls(f: Flash, oldest: nat, i: nat): seq<Tsl>
    requires |f| == SECTOR_NUM && oldest < SECTOR_NUM && i <= SECTOR_NUM
  {
    if oldest + i <= SECTOR_NUM then Flat(f, oldest, oldest + i)
    else Flat(f, oldest, SECTOR_NUM) + Flat(f, 0, oldest + i - SECTOR_NUM)
  }

  lemma RingStep(f: Flash, oldest: nat, i: nat)
    requires |f| == SECTOR_NUM && oldest < SECTOR_NUM && i < SECTOR_NUM
    ensures RingTsls(f, oldest, i + 1) == RingTsls(f, oldest, i) + f[RingSec(oldest, i)].tsls
  {
    if oldest + i == SECTOR_NUM { assert Flat(f, 0, 1) == Flat(f, 0, 0) + f[0].tsls; }
  }

  lemma RingEnds(f: Flash, oldest: nat)
    requires |f| == SECTOR_NUM && oldest < SECTOR_NUM
    ensures RingTsls(f, oldest, 0) == [] && RingTsls(f, oldest, SECTOR_NUM) == Retained(f, oldest)
  {
  }

  /** The first sectors' logs are the first logs. */
  lemma {:induction false} RingPrefix(f: Flash, oldest: nat, i: nat, j: nat)
    requires |f| == SECTOR_NUM && oldest < SECTOR_NUM && i <= j <= SECTOR_NUM
    ensures RingTsls(f, oldest, i) <= RingTsls(f, oldest, j)
    decreases j
  {
    if i < j {
      RingPrefix(f, oldest, i, j - 1);
      RingStep(f, oldest, j - 1);
    }
  }

  /** Empty sectors at the end of the ring add nothing. */
  lemma {:induction false} RingTail(f: Flash, oldest: nat, i: nat)
    requires |f| == SECTOR_NUM && oldest < SECTOR_NUM && i <= SECTOR_NUM
    requires forall j :: i <= j < SECTOR_NUM ==> f[RingSec(oldest, j)].tsls == []
    ensures RingTsls(f, oldest, i) == Retained(f, oldest)
    decreases SECTOR_NUM - i
  {
    RingEnds(f, oldest);
    if i < SECTOR_NUM {
      RingStep(f, oldest, i);
      RingTail(f, oldest, i + 1);
    }
  }

  /** Part of a rising sequence is rising. */
  lemma RisingPart(s: seq<Tsl>, a: seq<Tsl>, b: seq<Tsl>, c: seq<Tsl>)
    requires Rising(s) && s == a + b + c
    ensures Rising(b)
    ensures forall i, j :: 0 <= i < |a| && 0 <= j < |b| ==> a[i].time < b[j].time
    ensures forall i, j :: 0 <= i < |b| && 0 <= j < |c| ==> b[i].time < c[j].time
  {
    forall i, j | 0 <= i < j < |b| ensures b[i].time < b[j].time {
      assert s[|a| + i] == b[i] && s[|a| + j] == b[j];
    }
    forall i, j | 0 <= i < |a| && 0 <= j < |b| ensures a[i].time < b[j].time {
      assert s[i] == a[i] && s[|a| + j] == b[j];
    }
    forall i, j | 0 <= i < |b| && 0 <= j < |c| ensures b[i].time < c[j].time {
      assert s[|a| + i] == b[i] && s[|a| + |b| + j] == c[j];
    }
  }
}
