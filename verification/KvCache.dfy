/** The key cache: 64 slots from a 16-bit name hash to the record last seen under it. */
module KvCache {
  import opened KvRecord
  import opened KvFlash

  const KV_CACHE_TABLE_SIZE := 64
  const ACTIVE_MAX := 0xFFFF

  /** An unused slot keeps its last hash; its address is None. */
  datatype KvSlot = KvSlot(hash: bv16, active: nat, addr: Option<Loc>)

  /** An active slot is the first slot with its hash, so a hash has at most one active slot. */
  ghost predicate FirstWins(t: seq<KvSlot>) {
    forall i, j :: 0 <= i < j < |t| && t[j].addr.Some? ==> t[i].hash != t[j].hash
  }

  ghost predicate Wf(t: seq<KvSlot>) {
    |t| == KV_CACHE_TABLE_SIZE && FirstWins(t) && forall i :: 0 <= i < |t| ==> t[i].active <= ACTIVE_MAX
  }

  /** Slot `i` maps `h` to `l`. */
  predicate Maps(t: seq<KvSlot>, i: nat, h: bv16, l: Loc) {
    i < |t| && t[i].hash == h && t[i].addr == Some(l)
  }

  predicate SameEntry(a: KvSlot, b: KvSlot) { a.hash == b.hash && a.addr == b.addr }

  /** The cache answers for hash `h` with `l`. */
  ghost predicate Cached(t: seq<KvSlot>, h: bv16, l: Loc) {
    exists i: nat :: Maps(t, i, h, l)
  }

  lemma CachedOnce(t: seq<KvSlot>, h: bv16, a: Loc, b: Loc)
    requires FirstWins(t) && Cached(t, h, a) && Cached(t, h, b)
    ensures a == b
  {
    var i: nat :| Maps(t, i, h, a);
    var j: nat :| Maps(t, j, h, b);
    assert !(i < j) && !(j < i);
  }

  function Aged(active: nat): nat { if active > 0 then active - 1 else 0 }

  /** The table after the active slots before `n` have aged by one. */
  ghost function AgedTo(t: seq<KvSlot>, n: nat): (r: seq<KvSlot>)
    ensures |r| == |t| && forall j :: 0 <= j < |t| ==> SameEntry(r[j], t[j])
  {
    seq(|t|, j requires 0 <= j < |t| => if j < n && t[j].addr.Some? then t[j].(active := Aged(t[j].active)) else t[j])
  }

  lemma ChoiceStart(t: seq<KvSlot>)
    ensures AgedTo(t, 0) == t && FirstFree(t, 0, |t|) && LeastOf(t, 0, |t|, ACTIVE_MAX)
  {
  }

  lemma AgedNext(t: seq<KvSlot>, i: nat)
    requires i < |t|
    ensures AgedTo(t, i)[i] == t[i]
    ensures AgedTo(t, i + 1) == if t[i].addr.Some? then AgedTo(t, i)[i := t[i].(active := Aged(t[i].active))] else AgedTo(t, i)
  {
  }

  /** `empty` is the first free one of the first `i` slots, or all of them are active. */
  ghost predicate FirstFree(t: seq<KvSlot>, i: nat, empty: nat) {
    && i <= |t| && (empty == |t| || (empty < i && t[empty].addr == None))
    && forall j :: 0 <= j < i && j < empty ==> t[j].addr.Some?
  }

  lemma FreeNext(t: seq<KvSlot>, i: nat, empty: nat)
    requires i < |t| && FirstFree(t, i, empty)
    ensures FirstFree(t, i + 1, if t[i].addr == None && empty == |t| then i else empty)
  {
  }

  /** Of the first `i` slots `least` is the first of the least active ones, with the activity `activity`, if any
      is active below the maximum. */
  ghost predicate LeastOf(t: seq<KvSlot>, i: nat, least: nat, activity: nat) {
    && i <= |t|
    && (if least == |t| then activity == ACTIVE_MAX && forall j :: 0 <= j < i ==> t[j].addr == None
        else least < i && t[least].addr.Some? && activity == Aged(t[least].active))
    && (forall j :: 0 <= j < i && t[j].addr.Some? ==> activity <= Aged(t[j].active))
    && (least < |t| ==> forall j :: 0 <= j < least && t[j].addr.Some? ==> activity < Aged(t[j].active))
  }

  lemma LeastNext(t: seq<KvSlot>, i: nat, least: nat, activity: nat)
    requires i < |t| && LeastOf(t, i, least, activity) && t[i].active <= ACTIVE_MAX
    ensures t[i].addr == None ==> LeastOf(t, i + 1, least, activity)
    ensures t[i].addr.Some? && Aged(t[i].active) < activity ==> LeastOf(t, i + 1, i, Aged(t[i].active))
    ensures t[i].addr.Some? && !(Aged(t[i].active) < activity) ==> LeastOf(t, i + 1, least, activity)
  {
  }

  /** With no slot of the hash `h`, the first free one is chosen, or the first of the least active ones. */
  lemma ChoiceIs(t: seq<KvSlot>, h: bv16, empty: nat, least: nat, activity: nat)
    requires |t| > 0 && (forall j :: 0 <= j < |t| ==> t[j].hash != h) && FirstFree(t, |t|, empty) && LeastOf(t, |t|, least, activity)
    ensures Choice(t, if empty < |t| then empty else least, h)
  {
    assert empty < |t| || t[0].addr.Some?;
  }

  /** The slot to fill for hash `h`: the first one with that hash, else the first free one, else
      the first of the least active ones. */
  ghost predicate Choice(t: seq<KvSlot>, i: nat, h: bv16) {
    && i < |t|
    && if exists j :: 0 <= j < |t| && t[j].hash == h then
         t[i].hash == h && forall j :: 0 <= j < i ==> t[j].hash != h
       else if exists j :: 0 <= j < |t| && t[j].addr == None then
         t[i].addr == None && forall j :: 0 <= j < i ==> t[j].addr.Some?
       else
         && (forall j :: 0 <= j < i ==> Aged(t[i].active) < Aged(t[j].active))
         && (forall j :: i <= j < |t| ==> Aged(t[i].active) <= Aged(t[j].active))
  }

  /** The table after `h` was recorded at `l`: the active slots before the first one with hash `h`,
      or all of them, aged, and the chosen slot filled. */
  ghost predicate Recorded(t: seq<KvSlot>, t': seq<KvSlot>, h: bv16, l: Loc) {
    exists i: nat :: Choice(t, i, h) && t' == Filled(t, i, h, l)
  }

  ghost function Filled(t: seq<KvSlot>, i: nat, h: bv16, l: Loc): seq<KvSlot>
    requires i < |t|
  {
    if t[i].hash == h then AgedTo(t, i)[i := t[i].(addr := Some(l))]
    else AgedTo(t, |t|)[i := KvSlot(h, KV_CACHE_TABLE_SIZE, Some(l))]
  }

  /** A slot that answered a lookup: its activity rises, at most to the maximum. */
  ghost function Used(slot: KvSlot): (r: KvSlot)
    ensures SameEntry(r, slot) && (slot.active <= ACTIVE_MAX ==> slot.active <= r.active <= ACTIVE_MAX)
  {
    var sum := slot.active + KV_CACHE_TABLE_SIZE;
    slot.(active := if sum < ACTIVE_MAX then sum else ACTIVE_MAX)
  }

  class Cache {
    const table: array<KvSlot>

    /** A table that was never set up: every slot claims that hash 0 is at the start of the flash. */
    constructor ()
      ensures fresh(table) && Sound()
    {
      table := new KvSlot[KV_CACHE_TABLE_SIZE](i => KvSlot(0, 0, Some(Loc(0, 0))));
    }

    predicate Sound()
      reads table
    {
      table.Length == KV_CACHE_TABLE_SIZE && forall i :: 0 <= i < table.Length ==> table[i].active <= ACTIVE_MAX
    }

    /** Start of a boot: every address is dropped, hashes stay. */
    method Clear()
      requires Sound()
      modifies table
      ensures Wf(table[..])
      ensures forall i :: 0 <= i < table.Length ==> table[i] == old(table[i]).(addr := None)
    {
      var i := 0;
      while i < table.Length
        invariant 0 <= i <= table.Length
        invariant forall j :: 0 <= j < i ==> table[j] == old(table[j]).(addr := None)
        invariant forall j :: i <= j < table.Length ==> table[j] == old(table[j])
      {
        table[i] := table[i].(addr := None);
        i := i + 1;
      }
    }

    /** Age the active slots in table order until one with hash `h` turns up, and choose the slot
        to fill: that one, else the first free one, else the first least active one. */
    method Choose(h: bv16) returns (slot: nat)
      requires Wf(table[..])
      modifies table
      ensures Choice(old(table[..]), slot, h)
      ensures table[..] == AgedTo(old(table[..]), if table[slot].hash == h then slot else table.Length)
    {
      hide AgedTo, FirstFree, LeastOf, FirstWins;
      ghost var was := table[..];
      var empty: nat, minIndex: nat, minActivity: nat := table.Length, table.Length, ACTIVE_MAX;
      var i: nat := 0;
      ChoiceStart(was);
      while i < table.Length
        invariant 0 <= i <= table.Length
        invariant table[..] == AgedTo(was, i)
        invariant forall j :: 0 <= j < i ==> was[j].hash != h
        invariant FirstFree(was, i, empty) && LeastOf(was, i, minIndex, minActivity)
      {
        AgedNext(was, i);
        FreeNext(was, i, empty);
        LeastNext(was, i, minIndex, minActivity);
        assert table[i] == table[..][i];
        if table[i].hash == h {
          return i;
        } else if table[i].addr == None && empty == table.Length {
          empty := i;
        } else if table[i].addr.Some? {
          if table[i].active > 0 {
            table[i] := table[i].(active := table[i].active - 1);
          }
          if table[i].active < minActivity {
            minIndex := i;
            minActivity := table[i].active;
          }
        }
        i := i + 1;
      }
      ChoiceIs(was, h, empty, minIndex, minActivity);
      slot := if empty < table.Length then empty else minIndex;
      assert SameEntry(table[..][slot], was[slot]);
    }

    /** Record that hash `h` now lives at `l`. */
    method Insert(h: bv16, l: Loc)
      requires Wf(table[..])
      modifies table
      ensures Wf(table[..]) && Cached(table[..], h, l)
      ensures Recorded(old(table[..]), table[..], h, l)
      ensures forall i: nat :: i < table.Length && table[i].addr.Some? && table[i].hash != h
                ==> SameEntry(table[i], old(table[..])[i])
    {
      ghost var was := table[..];
      var slot := Choose(h);
      if table[slot].hash == h {
        table[slot] := table[slot].(addr := Some(l));
      } else {
        table[slot] := KvSlot(h, KV_CACHE_TABLE_SIZE, Some(l));
      }
      assert table[..] == Filled(was, slot, h, l);
      assert Maps(table[..], slot, h, l);
    }

    /** Forget hash `h`. */
    method Remove(h: bv16)
      requires Wf(table[..])
      modifies table
      ensures Wf(table[..])
      ensures forall l :: !Cached(table[..], h, l)
      ensures forall i: nat :: i < table.Length && old(table[i].hash != h) ==> table[i] == old(table[i])
      ensures forall i: nat :: i < table.Length ==> table[i].hash == old(table[i].hash)
      ensures forall i: nat :: i < table.Length && old(table[i].hash == h && forall j :: 0 <= j < i ==> table[j].hash != h) ==>
        table[..] == old(table[..])[i := KvSlot(h, 0, None)]
    {
      var i := 0;
      while i < table.Length
        invariant 0 <= i <= table.Length
        invariant forall j :: 0 <= j < i ==> table[j].hash != h
        invariant table[..] == old(table[..])
      {
        if table[i].hash == h {
          table[i] := table[i].(addr := None, active := 0);
          return;
        }
        i := i + 1;
      }
    }

    /** Slot `i` was used. */
    method Touch(i: nat)
      requires Wf(table[..]) && i < table.Length
      modifies table
      ensures Wf(table[..])
      ensures table[..] == old(table[..])[i := Used(old(table[..])[i])]
      ensures table[i].active == if old(table[i].active) + 64 < 65535 then old(table[i].active) + 64 else 65535
    {
      if table[i].active >= ACTIVE_MAX - KV_CACHE_TABLE_SIZE {
        table[i] := table[i].(active := ACTIVE_MAX);
      } else {
        table[i] := table[i].(active := table[i].active + KV_CACHE_TABLE_SIZE);
      }
    }
  }
}
