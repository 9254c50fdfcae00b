/** Iterating over the key-value database: a resumable walk that stops at every live record. */
module KvIterate {
  import opened KvRecord
  import opened KvFlash
  import opened KvDisk
  import opened KvCrash
  import opened KvTape
  import opened SectorCache
  import Kvdb

  /** The live records among the first `j` slots of sector `s`, in order. */
  function SecWrites(f: Flash, s: nat, j: nat): seq<Loc>
    requires s < |f| && j <= |f[s].recs|
  {
    if j == 0 then []
    else SecWrites(f, s, j - 1) + if f[s].recs[j - 1].status == Write then [Loc(s, j - 1)] else []
  }

  /** The live records of the first `i` sectors from the oldest on. */
  function RingWrites(f: Flash, o: nat, i: nat): seq<Loc>
    requires |f| == SECTOR_NUM && o < SECTOR_NUM && i <= SECTOR_NUM
  {
    if i == 0 then [] else RingWrites(f, o, i - 1) + SecWrites(f, RingAt(o, i - 1), |f[RingAt(o, i - 1)].recs|)
  }

  lemma {:induction false} SecWritesAre(f: Flash, s: nat, j: nat, l: Loc)
    requires s < |f| && j <= |f[s].recs|
    ensures l in SecWrites(f, s, j) <==> l.sec == s && l.idx < j && f[s].recs[l.idx].status == Write
  {
    if j > 0 { SecWritesAre(f, s, j - 1, l); }
  }

  lemma {:induction false} RingWritesAre(f: Flash, o: nat, i: nat, l: Loc)
    requires |f| == SECTOR_NUM && o < SECTOR_NUM && i <= SECTOR_NUM
    ensures l in RingWrites(f, o, i) <==> Is(f, l, Write) && RingIndex(o, l.sec) < i
  {
    if i > 0 {
      RingWritesAre(f, o, i - 1, l);
      SecWritesAre(f, RingAt(o, i - 1), |f[RingAt(o, i - 1)].recs|, l);
      if Is(f, l, Write) { RingCovers(o, l.sec); }
    }
  }

  predicate Distinct(s: seq<Loc>) { forall i, j :: 0 <= i < j < |s| ==> s[i] != s[j] }

  lemma {:induction false} SecWritesDistinct(f: Flash, s: nat, j: nat)
    requires s < |f| && j <= |f[s].recs|
    ensures Distinct(SecWrites(f, s, j))
  {
    if j > 0 {
      SecWritesDistinct(f, s, j - 1);
      SecWritesAre(f, s, j - 1, Loc(s, j - 1));
    }
  }

  lemma {:induction false} RingWritesDistinct(f: Flash, o: nat, i: nat)
    requires |f| == SECTOR_NUM && o < SECTOR_NUM && i <= SECTOR_NUM
    ensures Distinct(RingWrites(f, o, i))
  {
    if i > 0 {
      RingWritesDistinct(f, o, i - 1);
      var s := RingAt(o, i - 1);
      var a, b := RingWrites(f, o, i - 1), SecWrites(f, s, |f[s].recs|);
      SecWritesDistinct(f, s, |f[s].recs|);
      forall x, y | 0 <= x < |a| && 0 <= y < |b| ensures a[x] != b[y] {
        RingWritesAre(f, o, i - 1, a[x]);
        SecWritesAre(f, s, |f[s].recs|, b[y]);
      }
    }
  }

  /** A whole walk meets the record of every live key, each exactly once. */
  lemma EachKeyOnce(f: Flash, o: nat, w: map<Key, Loc>)
    requires |f| == SECTOR_NUM && o < SECTOR_NUM && Index(f, Write, w)
    ensures var s := RingWrites(f, o, SECTOR_NUM);
            && Distinct(s)
            && (forall k :: k in w ==> w[k] in s)
            && (forall i :: 0 <= i < |s| ==> Is(f, s[i], Write) && Get(f, s[i]).key in w && w[Get(f, s[i]).key] == s[i])
  {
    var s := RingWrites(f, o, SECTOR_NUM);
    RingWritesDistinct(f, o, SECTOR_NUM);
    forall k | k in w ensures w[k] in s { RingWritesAre(f, o, SECTOR_NUM, w[k]); }
    forall i | 0 <= i < |s| ensures Is(f, s[i], Write) { RingWritesAre(f, o, SECTOR_NUM, s[i]); }
  }

  /** The bytes that records take, and the bytes of their values. */
  function Bytes(f: Flash, s: seq<Loc>): nat
    requires forall i :: 0 <= i < |s| ==> In(f, s[i])
  {
    if s == [] then 0 else Bytes(f, s[..|s| - 1]) + Size(Get(f, s[|s| - 1]))
  }

  function ValueBytes(f: Flash, s: seq<Loc>): nat
    requires forall i :: 0 <= i < |s| ==> In(f, s[i])
  {
    if s == [] then 0 else ValueBytes(f, s[..|s| - 1]) + |Get(f, s[|s| - 1]).val|
  }

  class Iterator {
    const db: Kvdb.Kvdb
    var sector: nat
    var current: Option<nat>
    var traversed: nat
    var count: nat
    var objBytes: nat
    var valueBytes: nat
    /** Sectors left behind, and the records handed out. */
    ghost var steps: nat
    ghost var seen: seq<Loc>

    ghost predicate Valid()
      reads this, db, db.sc.table
    {
      && db.Base() && steps < SECTOR_NUM && sector == RingAt(db.oldest, steps) && traversed == steps * SEC_SIZE
      && (current.Some? ==> current.value < |db.flash[sector].recs|)
      && seen == Handed(db.flash, db.oldest, steps, if current.Some? then current.value + 1 else 0)
      && Counted()
    }

    ghost predicate Counted()
      reads this, db
    {
      && (forall i :: 0 <= i < |seen| ==> In(db.flash, seen[i]))
      && count == |seen| && objBytes == Bytes(db.flash, seen) && valueBytes == ValueBytes(db.flash, seen)
    }

    constructor (db: Kvdb.Kvdb)
      requires db.Base()
      ensures Valid() && seen == [] && this.db == db
    {
      this.db, sector, current, traversed := db, db.oldest, None, 0;
      count, objBytes, valueBytes, steps, seen := 0, 0, 0, 0, [];
    }

    /** Go on to the next live record of this sector, if it has one. */
    method ScanSector() returns (found: bool)
      requires Valid()
      modifies this`current, this`count, this`objBytes, this`valueBytes, this`seen
      ensures found ==> Valid() && current.Some? && Is(db.flash, Loc(sector, current.value), Write)
      ensures found ==> seen == old(seen) + [Loc(sector, current.value)]
      ensures !found ==> Valid() && seen == old(seen) == Handed(db.flash, db.oldest, steps, |db.flash[sector].recs|)
    {
      hide Shape, Indexed, Agrees, Apart, Taped, Handed, Bytes, ValueBytes;
      ghost var f, o := db.flash, db.oldest;
      InUse(f, sector);
      var j := if current == None then 0 else current.value + 1;
      while j < |db.flash[sector].recs| && db.flash[sector].recs[j].status != Write
        invariant j <= |db.flash[sector].recs| && seen == Handed(f, o, steps, j)
        modifies {}
      {
        HandedNext(f, o, steps, j);
        j := j + 1;
      }
      if j < |db.flash[sector].recs| {
        var r := db.flash[sector].recs[j];
        HandedNext(f, o, steps, j);
        OneMore(f, seen, Loc(sector, j));
        count, objBytes, valueBytes := count + 1, objBytes + Size(r), valueBytes + |r.val|;
        current := Some(j);
        seen := seen + [Loc(sector, j)];
        return true;
      }
      found := false;
    }

    /** Go on to the next live record. False when there is none left: then all were handed out. */
    method Next() returns (more: bool)
      requires Valid()
      modifies this, db.sc.table
      ensures db.Base() && Counted()
      ensures more ==> Valid() && current.Some? && Is(db.flash, Loc(sector, current.value), Write)
      ensures more ==> seen == old(seen) + [Loc(sector, current.value)]
      ensures !more ==> seen == old(seen) == RingWrites(db.flash, db.oldest, SECTOR_NUM)
    {
      hide Shape, Indexed, Agrees, Apart, Taped, Handed, RingWrites, Bytes, ValueBytes, Seen, VeilOk, Absent;
      ghost var f, o := db.flash, db.oldest;
      while true
        invariant Valid() && seen == old(seen)
        decreases SECTOR_NUM - steps
      {
        InUse(f, sector);
        var info := db.ReadSectorInfo(sector, false);
        if info.ok && info.store == Using {
          var found := ScanSector();
          if found {
            return true;
          }
        }
        HandedSector(f, o, steps);
        current := None;
        traversed := traversed + SEC_SIZE;
        if traversed + SEC_SIZE <= SECTOR_NUM * SEC_SIZE {
          sector := if sector * SEC_SIZE + SEC_SIZE < SECTOR_NUM * SEC_SIZE then sector + 1 else 0;
          steps := steps + 1;
        } else {
          return false;
        }
      }
    }
  }

  lemma HandedNext(f: Flash, o: nat, i: nat, j: nat)
    requires |f| == SECTOR_NUM && o < SECTOR_NUM && i < SECTOR_NUM && j < |f[RingAt(o, i)].recs|
    ensures f[RingAt(o, i)].recs[j].status == Write ==> Handed(f, o, i, j + 1) == Handed(f, o, i, j) + [Loc(RingAt(o, i), j)]
    ensures f[RingAt(o, i)].recs[j].status != Write ==> Handed(f, o, i, j + 1) == Handed(f, o, i, j)
  {
  }

  /** The end of one sector is the start of the next. */
  lemma HandedSector(f: Flash, o: nat, i: nat)
    requires |f| == SECTOR_NUM && o < SECTOR_NUM && i < SECTOR_NUM
    ensures Handed(f, o, i, |f[RingAt(o, i)].recs|) == RingWrites(f, o, i + 1)
    ensures i + 1 < SECTOR_NUM ==> Handed(f, o, i + 1, 0) == RingWrites(f, o, i + 1)
    ensures f[RingAt(o, i)].recs == [] ==> Handed(f, o, i, 0) == RingWrites(f, o, i + 1)
  {
  }

  /** The records handed out when a walk stands before slot `j` of its `i`-th sector. */
  function Handed(f: Flash, o: nat, i: nat, j: nat): seq<Loc> {
    if |f| == SECTOR_NUM && o < SECTOR_NUM && i < SECTOR_NUM && j <= |f[RingAt(o, i)].recs|
    then RingWrites(f, o, i) + SecWrites(f, RingAt(o, i), j) else []
  }

  lemma InUse(f: Flash, s: nat)
    requires Shape(f) && s < SECTOR_NUM
    ensures |f| == SECTOR_NUM && (f[s].recs != [] ==> f[s].ok && f[s].store == Using)
  {
    assert SectorShape(f[s]);
  }

  lemma OneMore(f: Flash, s: seq<Loc>, l: Loc)
    requires In(f, l) && forall i :: 0 <= i < |s| ==> In(f, s[i])
    ensures Bytes(f, s + [l]) == Bytes(f, s) + Size(Get(f, l)) && ValueBytes(f, s + [l]) == ValueBytes(f, s) + |Get(f, l).val|
  {
    assert (s + [l])[..|s|] == s;
  }
}
