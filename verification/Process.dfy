/** The command receiver: a state machine fed one byte at a time that collects a frame, checks it,
    decodes its items in place in the memory they were received into, and carries it out. */
module Process {
  import opened Folding
  import opened Words
  import opened Registers
  import opened Frames
  import Crc16

  const MAX_FRAME_LENGTH := 128

  datatype State = ReceivingAddress | ReceivingFunction | ReceivingDataLength | ReceivingData | ReceivingCrc
                 | ReceivingComplete | ReceivingError

  // ---------------------------------------------------------------- what a frame does

  /** The registers and the upgrade flag. */
  datatype Device = Device(regs: seq<Register>, upgrading: bool)

  function Perform(d: Device, f: Frame): (r: Device)
    requires d.regs != []
    ensures |r.regs| == |d.regs|
  {
    if f.functionCode == FUN_READ then d.(regs := ReadAll(d.regs, f.items))
    else if f.functionCode == FUN_WRITE then d.(regs := WriteAll(d.regs, f.items))
    else if f.functionCode == FUN_UPGRADE then d.(upgrading := true)
    else d
  }

  function PerformAll(d: Device, fs: seq<Frame>): (r: Device)
    requires d.regs != []
    ensures |r.regs| == |d.regs|
  {
    if fs == [] then d else Perform(PerformAll(d, fs[..|fs| - 1]), fs[|fs| - 1])
  }

  lemma PerformNext(d: Device, fs: seq<Frame>, f: Frame)
    requires d.regs != []
    ensures PerformAll(d, fs + [f]) == Perform(PerformAll(d, fs), f)
  {
    assert (fs + [f])[..|fs|] == fs;
  }

  predicate SameButStatus(r: Register, s: Register) {
    r.(status := 0) == s.(status := 0) && r.kind == s.kind
  }

  lemma PerformKeeps(d: Device, f: Frame, i: nat)
    requires i < |d.regs| && d.regs[i].kind != 'W'
    ensures SameButStatus(Perform(d, f).regs[i], d.regs[i])
  {
    hide WriteAll, ReadAll, Hit;
    if f.functionCode == FUN_WRITE { WriteKeeps(d.regs, f.items); }
    if f.functionCode == FUN_READ { ReadMarks(d.regs, f.items); }
  }

  /** No stream of commands ever changes a register that may not be written, except for the status
      that a read leaves behind. */
  lemma {:induction false} ReadOnlyStays(d: Device, fs: seq<Frame>, i: nat)
    requires i < |d.regs| && d.regs[i].kind != 'W'
    ensures SameButStatus(PerformAll(d, fs).regs[i], d.regs[i])
  {
    if fs != [] {
      hide Perform;
      ReadOnlyStays(d, fs[..|fs| - 1], i);
      PerformKeeps(PerformAll(d, fs[..|fs| - 1]), fs[|fs| - 1], i);
    }
  }

  // ---------------------------------------------------------------- what a sequence of frames does, read off the frames

  /** An item of a frame with that function code. */
  datatype Order = Order(code: bv8, item: Item)

  /** All items of a sequence of frames, in the order received. */
  function Orders(fs: seq<Frame>): seq<Order> {
    if fs == [] then [] else Orders(fs[..|fs| - 1]) + Ordered(fs[|fs| - 1], |fs[|fs| - 1].items|)
  }

  /** The first `n` items of a frame. */
  function Ordered(f: Frame, n: nat): (s: seq<Order>)
    requires n <= |f.items|
    ensures |s| == n && forall k :: 0 <= k < n ==> s[k] == Order(f.functionCode, f.items[k])
  {
    seq(n, k requires 0 <= k < n => Order(f.functionCode, f.items[k]))
  }

  /** The order writes register `i`: it has the function code 0x03, leads there, and the register may be written. */
  predicate Writes(regs: seq<Register>, o: Order, i: nat) {
    o.code == 0x03 && LeadsTo(regs, o.item, i) && i < |regs| && regs[i].kind == 'W'
  }

  /** The order reads register `i`: it has the function code 0xC0 and leads there. */
  predicate Reads(regs: seq<Register>, o: Order, i: nat) { o.code == 0xC0 && LeadsTo(regs, o.item, i) }

  predicate Touches(regs: seq<Register>, o: Order, i: nat) { Writes(regs, o, i) || Reads(regs, o, i) }

  /** The `k`-th order is the last one that writes register `i`. */
  predicate LastWrite(regs: seq<Register>, os: seq<Order>, k: int, i: nat) {
    0 <= k < |os| && Writes(regs, os[k], i) && forall l :: k < l < |os| ==> !Writes(regs, os[l], i)
  }

  /** The `k`-th order is the last one that writes or reads it. */
  predicate LastTouch(regs: seq<Register>, os: seq<Order>, k: int, i: nat) {
    0 <= k < |os| && Touches(regs, os[k], i) && forall l :: k < l < |os| ==> !Touches(regs, os[l], i)
  }

  /** Register `i` was `regs[i]` and is `r` after the orders: it has the data of the last order that wrote it, and the
      status of the last one that wrote it, 10, or read it, 1. */
  ghost predicate Stands(regs: seq<Register>, os: seq<Order>, i: nat, r: Register) {
    && i < |regs| && r == regs[i].(data := r.data, status := r.status)
    && ((forall k :: 0 <= k < |os| ==> !Writes(regs, os[k], i)) ==> r.data == regs[i].data)
    && (forall k :: LastWrite(regs, os, k, i) ==> r.data == os[k].item.data)
    && ((forall k :: 0 <= k < |os| ==> !Touches(regs, os[k], i)) ==> r.status == regs[i].status)
    && (forall k :: LastTouch(regs, os, k, i) ==> r.status == if os[k].code == 0xC0 then 1 else 10)
  }

  lemma StandsNone(regs: seq<Register>, i: nat)
    requires i < |regs|
    ensures Stands(regs, [], i, regs[i])
  {
  }

  lemma StandsNext(regs: seq<Register>, os: seq<Order>, i: nat, r: Register, o: Order)
    requires Stands(regs, os, i, r)
    ensures var r' := if Writes(regs, o, i) then r.(data := o.item.data, status := 10) else if Reads(regs, o, i) then r.(status := 1) else r;
            Stands(regs, os + [o], i, r')
  {
    hide LeadsTo;
    var all := os + [o];
    assert all[|os|] == o && forall k :: 0 <= k < |os| ==> all[k] == os[k];
  }

  /** The same registers by name and kind. */
  predicate SameTable(r: seq<Register>, s: seq<Register>) {
    |r| == |s| && forall i :: 0 <= i < |r| ==> r[i].address == s[i].address && r[i].offset == s[i].offset && r[i].kind == s[i].kind
  }

  lemma SameOrders(r: seq<Register>, s: seq<Register>, o: Order, i: nat)
    requires SameTable(r, s)
    ensures Writes(r, o, i) == Writes(s, o, i) && Reads(r, o, i) == Reads(s, o, i)
  {
  }

  /** The first `n` items of a write command. */
  lemma {:induction false} WritesStand(first: seq<Register>, os: seq<Order>, regs: seq<Register>, f: Frame, n: nat, i: nat)
    requires n <= |f.items| && f.functionCode == 0x03 && i < |regs| && SameTable(first, regs) && Stands(first, os, i, regs[i])
    ensures var now := WriteAll(regs, f.items[..n]); SameTable(first, now) && Stands(first, os + Ordered(f, n), i, now[i])
  {
    hide Stands, Writes, Reads, WriteAll, Target;
    if n == 0 {
      NoItems(regs);
      assert os + Ordered(f, 0) == os;
      assert f.items[..0] == [];
    } else {
      var was, o := WriteAll(regs, f.items[..n - 1]), Order(0x03, f.items[n - 1]);
      WritesStand(first, os, regs, f, n - 1, i);
      WriteStep(regs, f.items, n - 1);
      WriteOne(was, f.items[n - 1], i);
      SameOrders(first, was, o, i);
      StandsNext(first, os + Ordered(f, n - 1), i, was[i], o);
      assert os + Ordered(f, n) == os + Ordered(f, n - 1) + [o];
      NotBoth(was, o, i);
    }
  }

  /** An order writes or reads. */
  lemma NotBoth(regs: seq<Register>, o: Order, i: nat)
    ensures o.code == 0x03 ==> !Reads(regs, o, i)
    ensures o.code == 0xC0 ==> !Writes(regs, o, i)
    ensures o.code != 0x03 && o.code != 0xC0 ==> !Writes(regs, o, i) && !Reads(regs, o, i)
  {
    hide LeadsTo;
  }

  lemma WriteOne(regs: seq<Register>, item: Item, i: nat)
    requires i < |regs|
    ensures var now := Write(regs, item);
      && SameTable(regs, now)
      && now[i] == if Writes(regs, Order(0x03, item), i) then regs[i].(data := item.data, status := 10) else regs[i]
  {
    hide LeadsTo, Target;
    LeadsIff(regs, item, i);
  }

  lemma ReadOne(regs: seq<Register>, item: Item, i: nat)
    requires i < |regs|
    ensures var now := Read(regs, item);
      && SameTable(regs, now) && now[i] == if Reads(regs, Order(0xC0, item), i) then regs[i].(status := 1) else regs[i]
  {
    hide LeadsTo, Target;
    LeadsIff(regs, item, i);
  }

  /** The first `n` items of a read command. */
  lemma {:induction false} ReadsStand(first: seq<Register>, os: seq<Order>, regs: seq<Register>, f: Frame, n: nat, i: nat)
    requires n <= |f.items| && f.functionCode == 0xC0 && i < |regs| && SameTable(first, regs) && Stands(first, os, i, regs[i])
    ensures var now := ReadAll(regs, f.items[..n]); SameTable(first, now) && Stands(first, os + Ordered(f, n), i, now[i])
  {
    hide Stands, Writes, Reads, ReadAll, Target;
    if n == 0 {
      NoItems(regs);
      assert os + Ordered(f, 0) == os;
      assert f.items[..0] == [];
    } else {
      var was, o := ReadAll(regs, f.items[..n - 1]), Order(0xC0, f.items[n - 1]);
      ReadsStand(first, os, regs, f, n - 1, i);
      ReadStep(regs, f.items, n - 1);
      ReadOne(was, f.items[n - 1], i);
      SameOrders(first, was, o, i);
      StandsNext(first, os + Ordered(f, n - 1), i, was[i], o);
      assert os + Ordered(f, n) == os + Ordered(f, n - 1) + [o];
      NotBoth(was, o, i);
    }
  }

  /** The items of any other command. */
  lemma {:induction false} OthersStand(first: seq<Register>, os: seq<Order>, r: Register, f: Frame, n: nat, i: nat)
    requires n <= |f.items| && f.functionCode != 0x03 && f.functionCode != 0xC0 && Stands(first, os, i, r)
    ensures Stands(first, os + Ordered(f, n), i, r)
  {
    hide Stands, Writes, Reads;
    if n == 0 {
      assert os + Ordered(f, 0) == os;
    } else {
      var o := Order(f.functionCode, f.items[n - 1]);
      OthersStand(first, os, r, f, n - 1, i);
      StandsNext(first, os + Ordered(f, n - 1), i, r, o);
      assert os + Ordered(f, n) == os + Ordered(f, n - 1) + [o];
      NotBoth(first, o, i);
    }
  }

  /** After any sequence of frames every register stands as their items say, and an upgrade is asked for if and
      only if some frame had the function code 0x5E. */
  lemma {:induction false} FramesStand(d: Device, fs: seq<Frame>, i: nat)
    requires i < |d.regs|
    ensures SameTable(d.regs, PerformAll(d, fs).regs) && Stands(d.regs, Orders(fs), i, PerformAll(d, fs).regs[i])
    ensures PerformAll(d, fs).upgrading <==> d.upgrading || exists k :: 0 <= k < |fs| && fs[k].functionCode == 0x5E
  {
    hide Stands, WriteAll, ReadAll;
    if fs == [] {
      StandsNone(d.regs, i);
    } else {
      var front, f := fs[..|fs| - 1], fs[|fs| - 1];
      var was := PerformAll(d, front);
      FramesStand(d, front, i);
      assert f.items[..|f.items|] == f.items;
      if f.functionCode == 0x03 {
        WritesStand(d.regs, Orders(front), was.regs, f, |f.items|, i);
      } else if f.functionCode == 0xC0 {
        ReadsStand(d.regs, Orders(front), was.regs, f, |f.items|, i);
      } else {
        OthersStand(d.regs, Orders(front), was.regs[i], f, |f.items|, i);
      }
      UpgradeNext(fs);
    }
  }

  lemma UpgradeNext(fs: seq<Frame>)
    requires fs != []
    ensures var front := fs[..|fs| - 1];
      (exists k :: 0 <= k < |fs| && fs[k].functionCode == 0x5E) <==>
        (exists k :: 0 <= k < |front| && front[k].functionCode == 0x5E) || fs[|fs| - 1].functionCode == 0x5E
  {
    var front := fs[..|fs| - 1];
    if k :| 0 <= k < |front| && front[k].functionCode == 0x5E { assert fs[k] == front[k]; }
    if k :| 0 <= k < |fs| && fs[k].functionCode == 0x5E { if k < |front| { assert front[k] == fs[k]; } }
  }

  // ---------------------------------------------------------------- items in memory

  /** Entry `i` of the item array as the processor reads it, least significant byte first. */
  function Stored(mem: seq<bv8>, i: nat): Item
    requires 8 * i + 8 <= |mem|
  {
    Item(Join16(mem[8 * i + 1], mem[8 * i]), Join16(mem[8 * i + 3], mem[8 * i + 2]),
         Join32(mem[8 * i + 7], mem[8 * i + 6], mem[8 * i + 5], mem[8 * i + 4]))
  }

  function Loaded(mem: seq<bv8>, n: nat): (r: seq<Item>)
    requires 8 * n <= |mem|
    ensures |r| == n
  {
    if n == 0 then [] else Loaded(mem, n - 1) + [Stored(mem, n - 1)]
  }

  /** Decode one entry where it lies: its fields overwrite the bytes they are read from. */
  method DecodeEntry(mem: array<bv8>, i: nat)
    requires 8 * i + 8 <= mem.Length
    modifies mem
    ensures mem[..8 * i] == old(mem[..8 * i]) && mem[8 * i + 8..] == old(mem[8 * i + 8..])
    ensures Stored(mem[..], i) == ItemOf(old(mem[8 * i..8 * i + 8]))
  {
    hide Join16, Join32, Byte, Hi, Lo;
    var k := 8 * i;
    ghost var was := mem[k..k + 8];
    var address := Join16(mem[k], mem[k + 1]);
    mem[k], mem[k + 1] := Lo(address), Hi(address);
    var offset := Join16(mem[k + 2], mem[k + 3]);
    mem[k + 2], mem[k + 3] := Lo(offset), Hi(offset);
    var data := Join32(mem[k + 4], mem[k + 5], mem[k + 6], mem[k + 7]);
    mem[k + 4], mem[k + 5], mem[k + 6], mem[k + 7] := Byte(data, 0), Byte(data, 1), Byte(data, 2), Byte(data, 3);
    SplitJoin16(address);
    SplitJoin16(offset);
    SplitJoin32(data);
    assert address == Join16(was[0], was[1]) && offset == Join16(was[2], was[3]) && data == Join32(was[4], was[5], was[6], was[7]);
    assert Stored(mem[..], i) == Item(address, offset, data);
  }

  lemma SameLoaded(m: seq<bv8>, m': seq<bv8>, n: nat)
    requires 8 * n <= |m| && 8 * n <= |m'| && m[..8 * n] == m'[..8 * n]
    ensures Loaded(m, n) == Loaded(m', n)
  {
    if n > 0 {
      assert m[..8 * (n - 1)] == m[..8 * n][..8 * (n - 1)] == m'[..8 * (n - 1)];
      SameLoaded(m, m', n - 1);
      assert forall k :: 0 <= k < 8 * n ==> m[k] == m[..8 * n][k] == m'[k];
    }
  }

  /** Decoding in place gives the items the bytes spelled. */
  method DecodeInPlace(mem: array<bv8>, n: nat)
    requires 8 * n <= mem.Length
    modifies mem
    ensures Loaded(mem[..], n) == Items(old(mem[..]), n)
  {
    hide Stored, ItemOf;
    for i := 0 to n
      invariant Loaded(mem[..], i) == Items(old(mem[..]), i)
      invariant mem[8 * i..] == old(mem[8 * i..])
    {
      ghost var was := mem[..];
      assert mem[8 * i..8 * i + 8] == mem[8 * i..][..8] == old(mem[..])[8 * i..8 * i + 8];
      DecodeEntry(mem, i);
      assert was[..8 * i] == mem[..][..8 * i];
      SameLoaded(was, mem[..], i);
      assert mem[8 * i + 8..] == was[8 * i + 8..] == was[8 * i..][8..];
    }
  }

  // ---------------------------------------------------------------- the receiver

  function High(b: bv8): bv16 { (b as bv16) << 8 }

  function WithLow(c: bv16, b: bv8): bv16 { c | (b as bv16) }

  lemma HighWithLow(hi: bv8, lo: bv8)
    ensures WithLow(High(hi), lo) == Join16(hi, lo)
  {
  }

  lemma NextLength(p: seq<bv8>, frames: seq<Frame>, b: bv8)
    requires |p| == 3
    ensures Next(Parsed(p, frames), b) == Parsed(if CountOk(CountOf(p + [b])) then p + [b] else [], frames)
  {
    hide Num, Join16, CountOf, ChecksOut, DecodeFrame;
  }

  lemma NextData(p: seq<bv8>, frames: seq<Frame>, b: bv8)
    requires |p| >= 4 && CountOk(CountOf(p)) && |p| + 1 < 6 + 8 * Num(CountOf(p))
    ensures Next(Parsed(p, frames), b) == Parsed(p + [b], frames) && CountOf(p + [b]) == CountOf(p)
  {
    hide Num, Join16, ChecksOut, DecodeFrame;
  }

  lemma SmallNum(c: bv16)
    requires CountOk(c)
    ensures 1 <= Num(c) <= 3
  {
    SmallCounts();
    SmallCount(c);
  }

  class Receiver {
    var state: State
    var addressID: bv8
    var functionCode: bv8
    var dataCount: bv16
    var dataField: array?<bv8>
    var crcCheck: bv16
    const buffer: array<bv8>
    var number: nat
    var counter: nat
    var calcCrc: bv16
    const table: Table
    var upgradeRequested: bool
    /** Every byte received, every frame dispatched, and the device before the first. */
    ghost var stream: seq<bv8>
    ghost var frames: seq<Frame>
    ghost const initial: Device

    /** The bytes kept of an unfinished frame. */
    ghost function Pending(): seq<bv8>
      requires number <= buffer.Length
      reads this`state, this`number, buffer
    {
      if state == ReceivingComplete || state == ReceivingError then [] else buffer[..number]
    }

    ghost function Data(): set<object>
      reads this`dataField
    {
      if dataField == null then {} else {dataField}
    }

    /** The receiver's memory is not the table's. */
    ghost predicate Separate()
      reads this`dataField, table`nodes
    {
      var mine: set<object> := {this, buffer};
      mine + Data() !! table.Footprint() && dataField != buffer
    }

    /** The fields collected so far agree with the bytes kept. */
    ghost predicate Collected()
      reads this`state, this`addressID, this`functionCode, this`dataCount, this`dataField, this`crcCheck, this`number,
            this`counter, this`calcCrc, buffer, Data(), table`nodes
    {
      && buffer.Length == MAX_FRAME_LENGTH && number <= buffer.Length && Separate()
      && var p := Pending();
      && (|p| >= 1 ==> addressID == p[0])
      && (|p| >= 2 ==> functionCode == p[1] && IsFunction(p[1]))
      && match state
         case ReceivingAddress => number == 0 && counter == 0
         case ReceivingFunction => number == 1 && counter == 0
         case ReceivingDataLength => number == 2 + counter && counter < 2 && (counter == 1 ==> dataCount == High(p[2]))
         case ReceivingData =>
           && Counted(p) && number == 4 + counter && counter < 8 * Num(dataCount)
           && dataField[..counter] == p[4..]
         case ReceivingCrc =>
           && Counted(p) && number == 4 + 8 * Num(dataCount) + counter && counter < 2
           && dataField[..] == p[4..4 + 8 * Num(dataCount)] && calcCrc == Crc16.Crc(p[..4 + 8 * Num(dataCount)])
           && (counter == 1 ==> crcCheck == High(p[number - 1]))
         case _ => true
    }

    ghost predicate Counted(p: seq<bv8>)
      reads this`dataCount, this`dataField
    {
      |p| >= 4 && dataCount == CountOf(p) && CountOk(dataCount) && dataField != null && dataField.Length == 8 * Num(dataCount)
    }

    /** The registers are what the dispatched frames make of them. */
    ghost predicate Current()
      reads this`upgradeRequested, this`frames, table, table.registers, table.heads, table.nodes
    {
      && table.Valid() && table.rounds > 0 && initial.regs != []
      && Device(table.registers[..], upgradeRequested) == PerformAll(initial, frames)
    }

    /** The receiver has understood the stream so far. */
    ghost predicate Valid()
      reads this, buffer, Data(), table, table.registers, table.heads, table.nodes
    {
      Collected() && Current() && Parsed(Pending(), frames) == Run(stream)
    }

    constructor (table: Table)
      requires table.Valid() && table.rounds > 0
      ensures Valid() && stream == [] && frames == [] && this.table == table
      ensures initial == Device(table.registers[..], false) && fresh(buffer) && dataField == null
    {
      state, addressID, functionCode, dataCount, crcCheck := ReceivingAddress, 0, 0, 0, 0;
      dataField, number, counter, calcCrc := null, 0, 0, 0;
      buffer := new bv8[MAX_FRAME_LENGTH](_ => 0);
      this.table, upgradeRequested := table, false;
      stream, frames, initial := [], [], Device(table.registers[..], false);
    }

    /** Forget the unfinished frame. */
    method ResetReception()
      requires buffer.Length == MAX_FRAME_LENGTH && Separate()
      modifies this`state, this`addressID, this`functionCode, this`dataCount, this`crcCheck, this`dataField,
               this`number, this`counter, this`calcCrc, buffer
      ensures Collected() && Separate() && state == ReceivingAddress && Pending() == [] && dataField == null
      ensures addressID == 0 && functionCode == 0 && dataCount == 0 && crcCheck == 0 && number == 0 && counter == 0 && calcCrc == 0
      ensures forall k :: 0 <= k < buffer.Length ==> buffer[k] == 0
    {
      for i := 0 to buffer.Length
        modifies buffer
        invariant forall k :: 0 <= k < i ==> buffer[k] == 0
      {
        buffer[i] := 0;
      }
      state, addressID, functionCode, dataCount, crcCheck := ReceivingAddress, 0, 0, 0, 0;
      dataField := null;
      number, counter, calcCrc := 0, 0, 0;
    }

    method Keep(b: bv8)
      requires number < buffer.Length
      modifies buffer, this`number
      ensures number == old(number) + 1 && buffer[..number] == old(buffer[..number]) + [b]
    {
      buffer[number] := b;
      number := number + 1;
    }

    method OnAddress(b: bv8)
      requires Collected() && Current() && state == ReceivingAddress
      modifies this`state, this`addressID, this`number, buffer
      ensures Collected() && Current() && Separate() && fresh(Data() - old(Data()))
      ensures Parsed(Pending(), frames) == Next(old(Parsed(Pending(), frames)), b)
    {
      hide Current;
      addressID := b;
      Keep(b);
      state := ReceivingFunction;
    }

    method OnFunction(b: bv8)
      requires Collected() && Current() && state == ReceivingFunction
      modifies this`state, this`functionCode, this`number, buffer
      ensures Collected() && Current() && Separate() && fresh(Data() - old(Data()))
      ensures Parsed(Pending(), frames) == Next(old(Parsed(Pending(), frames)), b)
    {
      hide Current;
      if b == FUN_READ || b == FUN_WRITE || b == FUN_UPGRADE {
        functionCode := b;
        Keep(b);
        state := ReceivingDataLength;
      } else {
        state := ReceivingError;
      }
    }

    method OnDataLength(b: bv8)
      requires Collected() && Current() && state == ReceivingDataLength
      modifies this`state, this`dataCount, this`dataField, this`counter, this`number, buffer
      ensures Collected() && Current() && Separate() && fresh(Data() - old(Data()))
      ensures Parsed(Pending(), frames) == Next(old(Parsed(Pending(), frames)), b)
    {
      hide Current;
      if counter == 0 {
        dataCount := High(b);
        Keep(b);
        counter := counter + 1;
      } else if counter == 1 {
        OnCountLow(b);
      }
    }

    method OnCountLow(b: bv8)
      requires Collected() && state == ReceivingDataLength && counter == 1
      modifies this`state, this`dataCount, this`dataField, this`counter, this`number, buffer
      ensures Collected() && Parsed(Pending(), frames) == Next(Parsed(old(Pending()), frames), b)
      ensures Separate() && fresh(Data() - old(Data()))
    {
      hide Num, Join16, Next, CountOk, High, WithLow, Crc16.Crc, IsFunction;
      ghost var p := Pending();
      HighWithLow(p[2], b);
      NextLength(p, frames, b);
      dataCount := WithLow(dataCount, b);
      Keep(b);
      counter := 0;
      assert dataCount == CountOf(p + [b]);
      if !CountOk(dataCount) {
        state := ReceivingError;
      } else {
        AwaitData();
      }
    }

    /** The count is good: make room for that many items. */
    method AwaitData()
      requires state == ReceivingDataLength && counter == 0 && number == 4 && buffer.Length == MAX_FRAME_LENGTH && Separate()
      requires dataCount == CountOf(Pending()) && CountOk(dataCount)
      requires addressID == Pending()[0] && functionCode == Pending()[1] && IsFunction(functionCode)
      modifies this`state, this`dataField
      ensures Collected() && state == ReceivingData && Pending() == old(Pending())
      ensures Separate() && fresh(Data())
    {
      hide Num, Join16, CountOf, CountOk, High, Crc16.Crc, IsFunction;
      SmallNum(dataCount);
      dataField := new bv8[8 * Num(dataCount)](_ => 0);
      state := ReceivingData;
    }

    method StoreData(b: bv8)
      requires number < buffer.Length && dataField != null && counter < dataField.Length && dataField != buffer
      modifies this`counter, this`number, buffer, dataField
      ensures counter == old(counter) + 1 && dataField[..counter] == old(dataField[..counter]) + [b]
      ensures number == old(number) + 1 && buffer[..number] == old(buffer[..number]) + [b]
    {
      dataField[counter] := b;
      counter := counter + 1;
      Keep(b);
    }

    method OnData(b: bv8)
      requires Collected() && Current() && state == ReceivingData
      modifies this`state, this`calcCrc, this`counter, this`number, buffer, Data()
      ensures Collected() && Current() && Separate() && fresh(Data() - old(Data()))
      ensures Parsed(Pending(), frames) == Next(old(Parsed(Pending(), frames)), b)
    {
      hide Num, Join16, Next, CountOf, CountOk, High, Crc16.Crc, IsFunction, Current;
      ghost var p := Pending();
      var n := 8 * Num(dataCount);
      SmallNum(dataCount);
      NextData(p, frames, b);
      StoreData(b);
      assert (p + [b])[4..] == p[4..] + [b];
      if counter >= n {
        AwaitCrc();
      }
    }

    /** All the data has come: compute its checksum. */
    method AwaitCrc()
      requires state == ReceivingData && buffer.Length == MAX_FRAME_LENGTH && number <= buffer.Length && Separate()
      requires Counted(Pending()) && number == 4 + 8 * Num(dataCount) && dataField[..] == Pending()[4..]
      requires addressID == Pending()[0] && functionCode == Pending()[1] && IsFunction(functionCode)
      modifies this`state, this`calcCrc, this`counter
      ensures Collected() && state == ReceivingCrc && Pending() == old(Pending())
    {
      hide Num, Join16, CountOf, CountOk, High, Crc16.Crc, IsFunction;
      ghost var p := Pending();
      assert p[..4 + 8 * Num(dataCount)] == p && p[4..4 + 8 * Num(dataCount)] == p[4..];
      calcCrc := Crc16.CalculateCrc16(buffer[..number]);
      state := ReceivingCrc;
      counter := 0;
    }

    /** Carry out the received frame. */
    method ProcessReply(ghost f: Frame)
      requires Current() && dataField != null && 8 * Num(dataCount) <= dataField.Length
      requires f == Frame(addressID, functionCode, Loaded(dataField[..], Num(dataCount)))
      modifies table.registers, this`upgradeRequested, this`frames
      ensures Current() && frames == old(frames) + [f]
    {
      hide PerformAll, Num, Loaded;
      PerformNext(initial, frames, f);
      frames := frames + [f];
      var items := Loaded(dataField[..], Num(dataCount));
      if functionCode == FUN_READ {
        var answers := table.ProcessRead(items);
      } else if functionCode == FUN_WRITE {
        table.ProcessWrite(items);
      } else if functionCode == FUN_UPGRADE {
        upgradeRequested := true;
      }
    }

    /** Decode the items of the frame `p` where they lie, and carry it out. */
    method CarryOut(ghost p: seq<bv8>, ghost f: Frame)
      requires Current() && Separate() && dataField != null && dataField.Length == 8 * Num(dataCount)
      requires |p| >= 4 + 8 * Num(dataCount) && dataField[..] == p[4..4 + 8 * Num(dataCount)]
      requires f == Frame(addressID, functionCode, Items(p[4..], Num(dataCount)))
      modifies dataField, table.registers, this`upgradeRequested, this`frames
      ensures Current() && frames == old(frames) + [f]
    {
      hide Num, PerformAll, Perform;
      SameItems(dataField[..], p[4..], Num(dataCount));
      DecodeInPlace(dataField, Num(dataCount));
      ProcessReply(f);
    }

    method OnCrc(b: bv8)
      requires Collected() && Current() && state == ReceivingCrc
      modifies this`state, this`addressID, this`functionCode, this`dataCount, this`crcCheck, this`dataField, this`number,
               this`counter, this`calcCrc, this`upgradeRequested, this`frames, buffer, Data(), table.registers
      ensures Collected() && Current() && Separate() && fresh(Data() - old(Data()))
      ensures Parsed(Pending(), frames) == Next(old(Parsed(Pending(), frames)), b)
    {
      if counter == 0 {
        CrcHigh(b);
      } else if counter == 1 {
        CrcLow(b);
      }
    }

    method CrcHigh(b: bv8)
      requires Collected() && state == ReceivingCrc && counter == 0
      modifies this`crcCheck, this`number, this`counter, buffer
      ensures Collected() && Parsed(Pending(), frames) == Next(old(Parsed(Pending(), frames)), b)
    {
      hide Num, Join16, Next, CountOf, CountOk, High, Crc16.Crc, IsFunction;
      ghost var p, n := Pending(), Num(dataCount);
      NextData(p, frames, b);
      crcCheck := High(b);
      Keep(b);
      counter := counter + 1;
      assert Pending()[4..4 + 8 * n] == p[4..4 + 8 * n] && Pending()[..4 + 8 * n] == p[..4 + 8 * n];
    }

    /** Compare the checksums, carry the frame `p` out if they agree, and start over. */
    method Decide(ghost p: seq<bv8>, ghost f: Frame)
      requires Current() && Separate() && buffer.Length == MAX_FRAME_LENGTH && state == ReceivingCrc
      requires dataField != null && dataField.Length == 8 * Num(dataCount)
      requires |p| >= 4 + 8 * Num(dataCount) && dataField[..] == p[4..4 + 8 * Num(dataCount)]
      requires f == Frame(addressID, functionCode, Items(p[4..], Num(dataCount)))
      modifies this`state, this`addressID, this`functionCode, this`dataCount, this`crcCheck, this`dataField, this`number,
               this`counter, this`calcCrc, this`upgradeRequested, this`frames, buffer, Data(), table.registers
      ensures Collected() && Current() && dataField == null && Pending() == []
      ensures frames == if old(calcCrc == crcCheck) then old(frames) + [f] else old(frames)
    {
      hide Num, Crc16.Crc, PerformAll, Items;
      if calcCrc == crcCheck {
        state := ReceivingComplete;
        CarryOut(p, f);
      } else {
        state := ReceivingError;
      }
      ResetReception();
    }

    /** The last byte: check the frame, decode its items where they lie, carry it out, start over. */
    method CrcLow(b: bv8)
      requires Collected() && Current() && state == ReceivingCrc && counter == 1
      modifies this`state, this`addressID, this`functionCode, this`dataCount, this`crcCheck, this`dataField, this`number,
               this`counter, this`calcCrc, this`upgradeRequested, this`frames, buffer, Data(), table.registers
      ensures Collected() && Current() && dataField == null
      ensures Parsed(Pending(), frames) == Next(old(Parsed(Pending(), frames)), b)
    {
      hide Num, Join16, Next, CountOf, CountOk, High, WithLow, Crc16.Crc, IsFunction, Current, Perform, PerformAll, Loaded, Items;
      ghost var p := Pending();
      CheckDecides(p, dataCount, b, frames);
      crcCheck := WithLow(crcCheck, b);
      KeepLast(b);
      Decide(p, DecodeFrame(p));
    }

    method KeepLast(b: bv8)
      requires number < buffer.Length
      modifies this`number, this`counter, buffer
      ensures counter == 0 && number == old(number) + 1 && buffer[..number] == old(buffer[..number]) + [b]
    {
      Keep(b);
      counter := 0;
    }

    method Advance(b: bv8)
      requires Collected() && Current() && Separate() && state != ReceivingComplete && state != ReceivingError
      modifies this`state, this`addressID, this`functionCode, this`dataCount, this`crcCheck, this`dataField, this`number,
               this`counter, this`calcCrc, this`upgradeRequested, this`frames, buffer, Data(), table.registers
      ensures Collected() && Current() && Separate() && fresh(Data() - old(Data()))
      ensures Parsed(Pending(), frames) == Next(old(Parsed(Pending(), frames)), b)
    {
      hide *;
      match state {
        case ReceivingAddress => OnAddress(b);
        case ReceivingFunction => OnFunction(b);
        case ReceivingDataLength => OnDataLength(b);
        case ReceivingData => OnData(b);
        case ReceivingCrc => OnCrc(b);
        case _ =>
      }
    }

    /** Start over after a frame that is complete or in error. */
    method Settle()
      requires Collected() && Current()
      modifies this`state, this`addressID, this`functionCode, this`dataCount, this`crcCheck, this`dataField,
               this`number, this`counter, this`calcCrc, buffer
      ensures Collected() && Current() && Separate() && Data() <= old(Data())
      ensures Pending() == old(Pending()) && state != ReceivingComplete && state != ReceivingError
    {
      assert buffer.Length == MAX_FRAME_LENGTH;
      hide Collected, Current, Separate;
      if state == ReceivingComplete || state == ReceivingError {
        ResetReception();
      }
    }

    /** The registers and the upgrade flag after all the bytes received, by the frames dispatched. */
    lemma FramesDone(i: nat)
      requires Valid() && i < |initial.regs|
      ensures i < table.registers.Length && Stands(initial.regs, Orders(frames), i, table.registers[i])
      ensures upgradeRequested <==> initial.upgrading || exists k :: 0 <= k < |frames| && frames[k].functionCode == 0x5E
    {
      hide Collected, Run, Stands, PerformAll;
      FramesStand(initial, frames, i);
      assert table.registers[..][i] == table.registers[i];
    }

    /** Take one received byte. */
    method ParseReceivedData(b: bv8)
      requires Valid()
      modifies this, buffer, Data(), table.registers
      ensures Valid() && stream == old(stream) + [b]
      ensures fresh(Data() - old(Data()))
    {
      hide Next, Run, Collected, Current, Separate, Pending;
      Settle();
      Advance(b);
      Settle();
      RunNext(stream, b);
      stream := stream + [b];
    }
  }

  lemma RunNext(s: seq<bv8>, b: bv8)
    ensures Run(s + [b]) == Next(Run(s), b)
  {
    assert (s + [b])[..|s|] == s;
  }

  lemma SameItems(s: seq<bv8>, t: seq<bv8>, n: nat)
    requires 8 * n <= |s| && 8 * n <= |t| && s[..8 * n] == t[..8 * n]
    ensures Items(s, n) == Items(t, n)
  {
    hide ItemOf;
    if n > 0 {
      assert s[..8 * (n - 1)] == s[..8 * n][..8 * (n - 1)] == t[..8 * (n - 1)];
      SameItems(s, t, n - 1);
      assert s[8 * (n - 1)..8 * n] == s[..8 * n][8 * (n - 1)..] == t[8 * (n - 1)..8 * n];
    }
  }

  /** The comparison of the two checksums decides what the last byte does. */
  lemma CheckDecides(p: seq<bv8>, count: bv16, b: bv8, frames: seq<Frame>)
    requires |p| >= 5 && count == CountOf(p) && CountOk(count) && |p| == 5 + 8 * Num(count) && IsFunction(p[1])
    ensures Next(Parsed(p, frames), b)
         == Parsed([], if Crc16.Crc(p[..|p| - 1]) == WithLow(High(p[|p| - 1]), b) then frames + [DecodeFrame(p)] else frames)
  {
    hide Num, Join16, CountOk, High, WithLow, Crc16.Crc, IsFunction, Items;
    var x := p + [b];
    LastByte(x, frames);
    assert x[..|x| - 1] == p && x[..|x| - 2] == p[..|p| - 1];
    HighWithLow(p[|p| - 1], b);
    JoinSplit16(p[|p| - 1], b);
    SplitJoin16(Crc16.Crc(p[..|p| - 1]));
    assert p[4..][..8 * Num(count)] == x[4..][..8 * Num(count)];
    SameItems(p[4..], x[4..], Num(count));
  }
}
