/** The log sectors of the time series database, their layout, and the logs they retain. */
module TsRing {
  import KvRecord

  // The partition is 126 KB in sectors of one 2 KB page; a sector header takes 80 bytes, an index slot 32.
  const SECTOR_NUM := 63
  const SEC_SIZE := 2048
  const HDR_SIZE := 80
  const IDX_SIZE := 32
  const DB_SIZE := SECTOR_NUM * SEC_SIZE

  // Log status codes.
  const TSL_UNUSED := 0
  const TSL_PRE_WRITE := 1
  const TSL_WRITE := 2
  const TSL_STATUS_NUM := 6

  datatype Store = Unused | Empty | Using | Full

  /** A log: its status code, time, length, data address in the sector, and data in whole words. */
  datatype Tsl = Tsl(status: nat, time: int, len: nat, log: nat, bytes: seq<bv8>)

  datatype EndInfo = EndInfo(status: nat, time: int, index: nat)

  datatype Sector = Sector(ok: bool, store: Store, startTime: int, end0: EndInfo, end1: EndInfo, tsls: seq<Tsl>)

  type Flash = seq<Sector>

  function Align(n: nat): (r: nat)
    ensures n <= r < n + 4 && r % 4 == 0
  {
    KvRecord.WgAlign(n)
  }

  /** Address of the `k`-th index slot of sector `s`. */
  function Slot(s: nat, k: nat): nat { s * SEC_SIZE + HDR_SIZE + k * IDX_SIZE }

  /** Where the data of the first `j` logs starts; each log's data lies below the one before. */
  function DataTop(tsls: seq<Tsl>, j: nat): int
    requires j <= |tsls|
  {
    if j == 0 then SEC_SIZE else DataTop(tsls, j - 1) - Align(tsls[j - 1].len)
  }

  predicate TslOk(tsls: seq<Tsl>, j: nat)
    requires j < |tsls|
  {
    var t := tsls[j];
    TSL_WRITE <= t.status < TSL_STATUS_NUM && t.log == DataTop(tsls, j + 1) && |t.bytes| == Align(t.len)
  }

  /** The index slots and the data of a sector's logs do not meet. */
  predicate TslsOk(tsls: seq<Tsl>) {
    && HDR_SIZE + IDX_SIZE * |tsls| <= DataTop(tsls, |tsls|)
    && forall j {:trigger TslOk(tsls, j)} :: 0 <= j < |tsls| ==> TslOk(tsls, j)
  }

  lemma {:induction false} DataTopMono(tsls: seq<Tsl>, i: nat, j: nat)
    requires i <= j <= |tsls|
    ensures DataTop(tsls, j) <= DataTop(tsls, i) <= SEC_SIZE
    decreases j
  {
    if i < j { DataTopMono(tsls, i, j - 1); } else if i > 0 { DataTopMono(tsls, i - 1, j - 1); }
  }

  lemma {:induction false} DataTopSame(a: seq<Tsl>, b: seq<Tsl>, j: nat)
    requires j <= |a| && j <= |b| && forall i :: 0 <= i < j ==> a[i].len == b[i].len
    ensures DataTop(a, j) == DataTop(b, j)
  {
    if j > 0 { DataTopSame(a, b, j - 1); }
  }

  /** Two logs of a sector never share a byte of data, and no data reaches into any index slot. */
  lemma AreasApart(tsls: seq<Tsl>, i: nat, j: nat)
    requires TslsOk(tsls) && i < j < |tsls|
    ensures tsls[j].log + Align(tsls[j].len) <= tsls[i].log
    ensures HDR_SIZE + IDX_SIZE * |tsls| <= tsls[j].log && tsls[i].log + Align(tsls[i].len) <= SEC_SIZE
  {
    assert TslOk(tsls, i) && TslOk(tsls, j);
    DataTopMono(tsls, i + 1, j);
    DataTopMono(tsls, j + 1, |tsls|);
    DataTopMono(tsls, 0, i);
  }

  // ---------------------------------------------------------------- sectors

  predicate Clear(e: EndInfo) { e.status == TSL_UNUSED }

  predicate EmptyOk(sec: Sector) {
    sec.ok && sec.store == Empty && sec.tsls == [] && Clear(sec.end0) && Clear(sec.end1)
  }

  predicate Started(sec: Sector) {
    sec.ok && sec.tsls != [] && TslsOk(sec.tsls) && sec.startTime == sec.tsls[0].time
  }

  predicate UsingOk(sec: Sector) { Started(sec) && sec.store == Using && Clear(sec.end0) && Clear(sec.end1) }

  predicate FullOk(s: nat, sec: Sector) {
    && Started(sec) && sec.store == Full
    && sec.end0 == EndInfo(TSL_WRITE, sec.tsls[|sec.tsls| - 1].time, Slot(s, |sec.tsls| - 1))
  }

  // ---------------------------------------------------------------- what is retained

  /** The logs of sectors `lo` up to `hi`. */
  function Flat(f: Flash, lo: nat, hi: nat): seq<Tsl>
    requires hi <= |f|
  {
    if hi <= lo then [] else Flat(f, lo, hi - 1) + f[hi - 1].tsls
  }

  /** All logs in the order of the ring, oldest first. */
  function Retained(f: Flash, oldest: nat): seq<Tsl>
    requires |f| == SECTOR_NUM && oldest < SECTOR_NUM
  {
    Flat(f, oldest, SECTOR_NUM) + Flat(f, 0, oldest)
  }

  /** The logs before the current sector's. */
  function Before(f: Flash, oldest: nat, c: nat): seq<Tsl>
    requires |f| == SECTOR_NUM && c < SECTOR_NUM
  {
    if oldest == 0 then Flat(f, 0, c) else Flat(f, oldest, SECTOR_NUM) + Flat(f, 0, c)
  }

  lemma {:induction false} FlatSame(f: Flash, g: Flash, lo: nat, hi: nat)
    requires hi <= |f| && hi <= |g| && forall s :: lo <= s < hi ==> g[s].tsls == f[s].tsls
    ensures Flat(g, lo, hi) == Flat(f, lo, hi)
    decreases hi
  {
    if lo < hi { FlatSame(f, g, lo, hi - 1); }
  }

  lemma {:induction false} FlatNone(f: Flash, lo: nat, hi: nat)
    requires hi <= |f| && forall s :: lo <= s < hi ==> f[s].tsls == []
    ensures Flat(f, lo, hi) == []
    decreases hi
  {
    if lo < hi { FlatNone(f, lo, hi - 1); }
  }

  lemma {:induction false} FlatSplit(f: Flash, lo: nat, mid: nat, hi: nat)
    requires lo <= mid <= hi <= |f|
    ensures Flat(f, lo, hi) == Flat(f, lo, mid) + Flat(f, mid, hi)
    decreases hi
  {
    if mid < hi { FlatSplit(f, lo, mid, hi - 1); }
  }

  lemma FlatFirst(f: Flash, lo: nat, hi: nat)
    requires lo < hi <= |f|
    ensures Flat(f, lo, hi) == f[lo].tsls + Flat(f, lo + 1, hi)
  {
    FlatSplit(f, lo, lo + 1, hi);
    assert Flat(f, lo, lo + 1) == Flat(f, lo, lo) + f[lo].tsls;
  }

  /** Times strictly increase. */
  predicate Rising(s: seq<Tsl>) {
    forall i, j {:trigger s[i].time, s[j].time} :: 0 <= i < j < |s| ==> s[i].time < s[j].time
  }

  // ---------------------------------------------------------------- where the ring stands

  /** Filling the partition for the first time: `c` is in use, later sectors are empty. */
  predicate Filling(f: Flash, oldest: nat, c: nat)
    requires |f| == SECTOR_NUM && c < SECTOR_NUM
  {
    && oldest == 0 && UsingOk(f[c])
    && (forall s {:trigger f[s]} :: 0 <= s < c ==> FullOk(s, f[s]))
    && (forall s {:trigger f[s]} :: c < s < SECTOR_NUM ==> EmptyOk(f[s]))
  }

  /** Going round: all sectors but `c` are full, and the oldest follows it. */
  predicate Rolling(f: Flash, oldest: nat, c: nat)
    requires |f| == SECTOR_NUM && c < SECTOR_NUM
  {
    && oldest == Next(c) && UsingOk(f[c])
    && (forall s {:trigger f[s]} :: 0 <= s < SECTOR_NUM && s != c ==> FullOk(s, f[s]))
  }

  function Next(s: nat): nat { if s + 1 < SECTOR_NUM then s + 1 else 0 }

  function Prev(s: nat): nat { if s >= 1 then s - 1 else SECTOR_NUM - 1 }

  predicate InUse(f: Flash, oldest: nat, c: nat) {
    |f| == SECTOR_NUM && c < SECTOR_NUM && (Filling(f, oldest, c) || Rolling(f, oldest, c))
  }

  /** What is retained ends with the current sector's logs. */
  lemma EndsAtCurrent(f: Flash, oldest: nat, c: nat)
    requires InUse(f, oldest, c)
    ensures oldest < SECTOR_NUM && Retained(f, oldest) == Before(f, oldest, c) + f[c].tsls
  {
    hide UsingOk, FullOk;
    if oldest == 0 {
      FlatSplit(f, 0, c + 1, SECTOR_NUM);
      FlatNone(f, c + 1, SECTOR_NUM);
      assert Retained(f, 0) == Flat(f, 0, SECTOR_NUM);
    } else {
      assert Flat(f, 0, c + 1) == Flat(f, 0, c) + f[c].tsls;
    }
  }

  /** One more log in the current sector is one more log at the end. */
  lemma AppendHere(f: Flash, oldest: nat, c: nat, sec: Sector, t: Tsl)
    requires InUse(f, oldest, c) && sec.tsls == f[c].tsls + [t] && UsingOk(sec)
    ensures InUse(f[c := sec], oldest, c)
    ensures oldest < SECTOR_NUM && Retained(f[c := sec], oldest) == Retained(f, oldest) + [t]
  {
    var g := f[c := sec];
    EndsAtCurrent(f, oldest, c);
    EndsAtCurrent(g, oldest, c);
    FlatSame(f, g, 0, c);
    if oldest > 0 { FlatSame(f, g, oldest, SECTOR_NUM); }
  }

  /** The first log of the next, empty sector. */
  lemma AppendNext(f: Flash, oldest: nat, c: nat, full: Sector, sec: Sector, t: Tsl)
    requires InUse(f, oldest, c) && Filling(f, oldest, c) && c + 1 < SECTOR_NUM
    requires FullOk(c, full) && full.tsls == f[c].tsls && UsingOk(sec) && sec.tsls == [t]
    ensures var g := f[c := full][c + 1 := sec]; InUse(g, oldest, c + 1) && Retained(g, oldest) == Retained(f, oldest) + [t]
  {
    var g := f[c := full][c + 1 := sec];
    EndsAtCurrent(f, oldest, c);
    assert Filling(g, oldest, c + 1);
    EndsAtCurrent(g, oldest, c + 1);
    FlatSame(f, g, 0, c + 1);
  }

  lemma RollsOn(f: Flash, oldest: nat, c: nat, full: Sector, sec: Sector)
    requires |f| == SECTOR_NUM && c < SECTOR_NUM && Rolling(f, oldest, c) && FullOk(c, full) && UsingOk(sec)
    ensures oldest == Next(c) && Rolling(f[c := full][oldest := sec], Next(oldest), oldest)
  {
  }

  /** The first log of the oldest sector, which loses all its logs. */
  lemma AppendOver(f: Flash, oldest: nat, c: nat, full: Sector, sec: Sector, t: Tsl)
    requires InUse(f, oldest, c) && Rolling(f, oldest, c)
    requires FullOk(c, full) && full.tsls == f[c].tsls && UsingOk(sec) && sec.tsls == [t]
    ensures var g := f[c := full][oldest := sec];
            InUse(g, Next(oldest), oldest) && f[oldest].tsls + Retained(g, Next(oldest)) == Retained(f, oldest) + [t]
  {
    hide Rolling, FullOk, UsingOk;
    RollsOn(f, oldest, c, full, sec);
    var g := f[c := full][oldest := sec];
    FlatFirst(f, oldest, SECTOR_NUM);
    FlatSame(f, g, oldest + 1, SECTOR_NUM);
    FlatSame(f, g, 0, oldest);
    assert Flat(g, 0, oldest + 1) == Flat(g, 0, oldest) + [t];
    if oldest + 1 < SECTOR_NUM {
      assert f[oldest].tsls + (Flat(f, oldest + 1, SECTOR_NUM) + (Flat(f, 0, oldest) + [t])) == Retained(f, oldest) + [t];
    } else {
      assert Retained(g, 0) == Flat(g, 0, SECTOR_NUM);
      assert Flat(f, oldest + 1, SECTOR_NUM) == [];
    }
  }
}
