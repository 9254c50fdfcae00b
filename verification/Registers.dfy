/** The register table with its chained hash index, and what read and write commands do to it. */
module Registers {

  datatype Register = Register(address: bv32, offset: bv32, status: bv32, kind: char, length: bv32, data: bv32,
                               command: bv32)

  /** One entry of a command: a register's name and a value. */
  datatype Item = Item(address: bv16, offset: bv16, data: bv32)

  const READ_STATUS: bv32 := 1
  const WRITE_STATUS: bv32 := 10

  // ---------------------------------------------------------------- what a search means

  predicate Names(r: Register, address: bv32, offset: bv32) {
    r.address == address && r.offset == offset
  }

  /** The first of the first `n` registers with the given name, or `n` when there is none. */
  function FirstNamed(regs: seq<Register>, n: nat, address: bv32, offset: bv32): (i: nat)
    requires n <= |regs|
    ensures i <= n
    ensures i < n ==> Names(regs[i], address, offset)
    ensures forall k :: 0 <= k < i ==> !Names(regs[k], address, offset)
  {
    if n == 0 then 0
    else
      var i := FirstNamed(regs, n - 1, address, offset);
      if i < n - 1 || Names(regs[n - 1], address, offset) then i else n
  }

  /** Linear search; an unknown name means register 0. */
  function Lookup(regs: seq<Register>, address: bv32, offset: bv32): (i: nat)
    requires regs != []
    ensures i < |regs|
    ensures Names(regs[i], address, offset) || (i == 0 && forall k :: 0 <= k < |regs| ==> !Names(regs[k], address, offset))
    ensures forall k :: 0 <= k < i ==> !Names(regs[k], address, offset)
  {
    var i := FirstNamed(regs, |regs|, address, offset);
    if i < |regs| then i else 0
  }

  // ---------------------------------------------------------------- keys and chains

  function Key(address: bv32, offset: bv32): bv64 { ((address as bv64) << 32) | (offset as bv64) }

  function KeyOf(r: Register): bv64 { Key(r.address, r.offset) }

  lemma KeyInjective(a: bv32, b: bv32, c: bv32, d: bv32)
    requires Key(a, b) == Key(c, d)
    ensures a == c && b == d
  {
    KeyParts(a, b);
    KeyParts(c, d);
    hide Key;
  }

  lemma KeyParts(a: bv32, b: bv32)
    ensures Key(a, b) >> 32 == a as bv64 && Key(a, b) & 0xFFFF_FFFF == b as bv64
    ensures ((a as bv64) as bv32) == a && ((b as bv64) as bv32) == b
  {
  }

  function Hash(key: bv64, size: nat): (h: nat)
    requires size > 0
    ensures h < size
  {
    Mod(Number(key), size)
  }

  function Number(key: bv64): nat { key as nat }

  function Mod(n: nat, size: nat): (h: nat)
    requires size > 0
    ensures h < size
  {
    n % size
  }

  /** The registers among the first `n` that hash to chain `j`, in table order. */
  function Members(regs: seq<Register>, n: nat, j: nat): (s: seq<nat>)
    requires n <= |regs|
    ensures forall k :: 0 <= k < |s| ==> s[k] < n
  {
    if n == 0 then []
    else if Hash(KeyOf(regs[n - 1]), |regs|) == j then Members(regs, n - 1, j) + [n - 1]
    else Members(regs, n - 1, j)
  }

  /** A chain after the table was initialised `rounds` times. */
  function Chain(regs: seq<Register>, rounds: nat, j: nat): (s: seq<nat>)
    ensures forall k :: 0 <= k < |s| ==> s[k] < |regs|
  {
    if rounds == 0 then [] else Chain(regs, rounds - 1, j) + Members(regs, |regs|, j)
  }

  lemma MembersStart(regs: seq<Register>)
    ensures forall j :: Members(regs, 0, j) == []
  {
  }

  lemma MembersStep(regs: seq<Register>, i: nat)
    requires i < |regs|
    ensures forall j: nat :: Members(regs, i + 1, j)
              == Members(regs, i, j) + (if j == Hash(KeyOf(regs[i]), |regs|) then [i] else [])
  {
  }

  lemma ChainStep(regs: seq<Register>, rounds: nat)
    ensures forall j: nat :: Chain(regs, rounds + 1, j) == Chain(regs, rounds, j) + Members(regs, |regs|, j)
  {
  }

  /** The first entry of a chain with the key, or 0: what walking the chain answers. */
  function Walk(regs: seq<Register>, chain: seq<nat>, key: bv64): nat
    requires forall k :: 0 <= k < |chain| ==> chain[k] < |regs|
  {
    if chain == [] then 0
    else if KeyOf(regs[chain[0]]) == key then chain[0]
    else Walk(regs, chain[1..], key)
  }

  lemma {:induction false} WalkAppend(regs: seq<Register>, a: seq<nat>, b: seq<nat>, key: bv64)
    requires forall k :: 0 <= k < |a| ==> a[k] < |regs|
    requires forall k :: 0 <= k < |b| ==> b[k] < |regs|
    ensures Walk(regs, a + b, key)
         == if exists k :: 0 <= k < |a| && KeyOf(regs[a[k]]) == key then Walk(regs, a, key) else Walk(regs, b, key)
  {
    if a == [] {
      assert a + b == b;
    } else if KeyOf(regs[a[0]]) != key {
      assert (a + b)[1..] == a[1..] + b;
      WalkAppend(regs, a[1..], b, key);
      if k :| 0 <= k < |a| && KeyOf(regs[a[k]]) == key {
        assert a[1..][k - 1] == a[k];
      }
    }
  }

  /** Walking the chain a name hashes to finds its first register among the first `n`. */
  lemma {:induction false} WalkMembers(regs: seq<Register>, n: nat, address: bv32, offset: bv32)
    requires regs != [] && n <= |regs|
    ensures var i := FirstNamed(regs, n, address, offset);
            var s := Members(regs, n, Hash(Key(address, offset), |regs|));
            && (i < n <==> exists k :: 0 <= k < |s| && KeyOf(regs[s[k]]) == Key(address, offset))
            && Walk(regs, s, Key(address, offset)) == if i < n then i else 0
  {
    hide Key, Hash, KeyOf;
    if n > 0 {
      var key := Key(address, offset);
      var j := Hash(key, |regs|);
      WalkMembers(regs, n - 1, address, offset);
      KeyNames(regs[n - 1], address, offset);
      var s := Members(regs, n - 1, j);
      if Hash(KeyOf(regs[n - 1]), |regs|) == j { WalkOneMore(regs, s, n - 1, key); }
    }
  }

  lemma KeyNames(r: Register, address: bv32, offset: bv32)
    ensures KeyOf(r) == Key(address, offset) <==> Names(r, address, offset)
  {
    hide Key;
    if KeyOf(r) == Key(address, offset) { KeyInjective(r.address, r.offset, address, offset); }
  }

  lemma WalkOneMore(regs: seq<Register>, s: seq<nat>, m: nat, key: bv64)
    requires m < |regs| && forall k :: 0 <= k < |s| ==> s[k] < |regs|
    ensures var t := s + [m];
            var found := exists k :: 0 <= k < |s| && KeyOf(regs[s[k]]) == key;
            && ((exists k :: 0 <= k < |t| && KeyOf(regs[t[k]]) == key) <==> found || KeyOf(regs[m]) == key)
            && Walk(regs, t, key) == if found then Walk(regs, s, key) else if KeyOf(regs[m]) == key then m else 0
  {
    hide KeyOf;
    var t := s + [m];
    WalkAppend(regs, s, [m], key);
    assert Walk(regs, [m], key) == if KeyOf(regs[m]) == key then m else 0;
    if k :| 0 <= k < |s| && KeyOf(regs[s[k]]) == key { assert t[k] == s[k]; }
    assert t[|s|] == m;
  }

  lemma {:induction false} ChainStarts(regs: seq<Register>, rounds: nat, j: nat)
    requires rounds > 0
    ensures Members(regs, |regs|, j) <= Chain(regs, rounds, j)
  {
    if rounds > 1 { ChainStarts(regs, rounds - 1, j); }
  }

  /** However often the table was initialised, the hash index is the linear search. */
  lemma WalkIsLookup(regs: seq<Register>, rounds: nat, address: bv32, offset: bv32)
    requires regs != [] && rounds > 0
    ensures Walk(regs, Chain(regs, rounds, Hash(Key(address, offset), |regs|)), Key(address, offset))
         == Lookup(regs, address, offset)
  {
    var key := Key(address, offset);
    var j := Hash(key, |regs|);
    hide Key, Hash;
    ChainStarts(regs, rounds, j);
    var s, c := Members(regs, |regs|, j), Chain(regs, rounds, j);
    assert c == s + c[|s|..];
    WalkMembers(regs, |regs|, address, offset);
    WalkAppend(regs, s, c[|s|..], key);
    if FirstNamed(regs, |regs|, address, offset) == |regs| { WalkAbsent(regs, c[|s|..], address, offset); }
  }

  lemma {:induction false} WalkAbsent(regs: seq<Register>, c: seq<nat>, address: bv32, offset: bv32)
    requires forall k :: 0 <= k < |c| ==> c[k] < |regs|
    requires forall i :: 0 <= i < |regs| ==> !Names(regs[i], address, offset)
    ensures Walk(regs, c, Key(address, offset)) == 0
  {
    hide Key;
    if c != [] {
      if KeyOf(regs[c[0]]) == Key(address, offset) {
        KeyInjective(regs[c[0]].address, regs[c[0]].offset, address, offset);
      }
      WalkAbsent(regs, c[1..], address, offset);
    }
  }

  // ---------------------------------------------------------------- the table

  /** A chain node; the ghost fields say where in the index it stands. */
  class Node {
    const key: bv64
    const index: nat
    ghost const row: nat
    ghost const place: nat
    var next: Node?

    constructor (key: bv64, index: nat, ghost row: nat, ghost place: nat)
      ensures this.key == key && this.index == index && this.row == row && this.place == place && next == null
    {
      this.key, this.index, this.row, this.place, next := key, index, row, place, null;
    }
  }

  /** Two lists of registers with the same names. */
  predicate SameNames(r: seq<Register>, s: seq<Register>) {
    |r| == |s| && forall i :: 0 <= i < |r| ==> r[i].address == s[i].address && r[i].offset == s[i].offset
  }

  // ---------------------------------------------------------------- what commands mean

  function Target(regs: seq<Register>, item: Item): (i: nat)
    requires regs != []
    ensures i < |regs|
  {
    Lookup(regs, item.address as bv32, item.offset as bv32)
  }

  predicate Hit(regs: seq<Register>, items: seq<Item>, i: nat)
    requires regs != []
  {
    exists k :: 0 <= k < |items| && Target(regs, items[k]) == i
  }

  lemma HitStep(regs: seq<Register>, items: seq<Item>, i: nat)
    requires regs != [] && items != []
    ensures Hit(regs, items, i) <==> Hit(regs, items[..|items| - 1], i) || Target(regs, items[|items| - 1]) == i
  {
    hide Target;
    var front := items[..|items| - 1];
    if Hit(regs, items, i) {
      var k :| 0 <= k < |items| && Target(regs, items[k]) == i;
      if k < |front| { assert front[k] == items[k]; }
    }
    if Hit(regs, front, i) {
      var k :| 0 <= k < |front| && Target(regs, front[k]) == i;
      assert front[k] == items[k];
    }
  }

  /** A write lands on the register it names, or on register 0, and only if that is writable. */
  function Write(regs: seq<Register>, item: Item): (r: seq<Register>)
    requires regs != []
    ensures |r| == |regs|
  {
    var id := Target(regs, item);
    if regs[id].kind == 'W' then regs[id := regs[id].(data := item.data, status := WRITE_STATUS)] else regs
  }

  function WriteAll(regs: seq<Register>, items: seq<Item>): (r: seq<Register>)
    requires regs != []
    ensures |r| == |regs|
  {
    if items == [] then regs else Write(WriteAll(regs, items[..|items| - 1]), items[|items| - 1])
  }

  lemma WriteStep(regs: seq<Register>, items: seq<Item>, k: nat)
    requires regs != [] && k < |items|
    ensures WriteAll(regs, items[..k + 1]) == Write(WriteAll(regs, items[..k]), items[k])
  {
    assert items[..k + 1][..k] == items[..k];
  }

  lemma NoItems(regs: seq<Register>)
    requires regs != []
    ensures WriteAll(regs, []) == ReadAll(regs, []) == regs
  {
  }

  lemma ReadStep(regs: seq<Register>, items: seq<Item>, k: nat)
    requires regs != [] && k < |items|
    ensures ReadAll(regs, items[..k + 1]) == Read(ReadAll(regs, items[..k]), items[k])
  {
    assert items[..k + 1][..k] == items[..k];
  }

  function Read(regs: seq<Register>, item: Item): (r: seq<Register>)
    requires regs != []
    ensures |r| == |regs|
  {
    var id := Target(regs, item);
    regs[id := regs[id].(status := READ_STATUS)]
  }

  function ReadAll(regs: seq<Register>, items: seq<Item>): (r: seq<Register>)
    requires regs != []
    ensures |r| == |regs|
  {
    if items == [] then regs else Read(ReadAll(regs, items[..|items| - 1]), items[|items| - 1])
  }

  /** The answer to a read: every name with the value its register holds. */
  function Answers(regs: seq<Register>, items: seq<Item>): (r: seq<Item>)
    requires regs != []
    ensures |r| == |items|
  {
    seq(|items|, k requires 0 <= k < |items| => items[k].(data := regs[Target(regs, items[k])].data))
  }

  lemma {:induction false} SameFirst(r: seq<Register>, s: seq<Register>, n: nat, address: bv32, offset: bv32)
    requires SameNames(r, s) && n <= |r|
    ensures FirstNamed(r, n, address, offset) == FirstNamed(s, n, address, offset)
  {
    if n > 0 { SameFirst(r, s, n - 1, address, offset); }
  }

  lemma SameTarget(r: seq<Register>, s: seq<Register>, item: Item)
    requires SameNames(r, s) && r != []
    ensures Target(r, item) == Target(s, item)
  {
    hide Lookup;
    SameLookup(r, s, item.address as bv32, item.offset as bv32);
  }

  lemma SameLookup(r: seq<Register>, s: seq<Register>, address: bv32, offset: bv32)
    requires SameNames(r, s) && r != []
    ensures Lookup(r, address, offset) == Lookup(s, address, offset)
  {
    SameFirst(r, s, |r|, address, offset);
  }

  /** Writing keeps every name, leaves a register that may not be written exactly as it was, and
      leaves alone whatever no item leads to. */
  lemma {:induction false} WriteKeeps(regs: seq<Register>, items: seq<Item>)
    requires regs != []
    ensures SameNames(regs, WriteAll(regs, items))
    ensures forall i :: 0 <= i < |regs| ==> WriteAll(regs, items)[i].kind == regs[i].kind
    ensures forall i :: 0 <= i < |regs| && regs[i].kind != 'W' ==> WriteAll(regs, items)[i] == regs[i]
    ensures forall i :: 0 <= i < |regs| && WriteAll(regs, items)[i] != regs[i] ==>
              Hit(regs, items, i)
  {
    if items != [] {
      hide Target, Hit;
      var n := |items| - 1;
      WriteKeeps(regs, items[..n]);
      SameTarget(regs, WriteAll(regs, items[..n]), items[n]);
      forall i | 0 <= i < |regs| && WriteAll(regs, items)[i] != regs[i] ensures Hit(regs, items, i) {
        HitStep(regs, items, i);
      }
    }
  }

  /** A writable register ends up with the last value sent to it. */
  lemma {:induction false} LastWriteWins(regs: seq<Register>, items: seq<Item>, k: nat)
    requires regs != [] && k < |items| && regs[Target(regs, items[k])].kind == 'W'
    requires forall l :: k < l < |items| ==> Target(regs, items[l]) != Target(regs, items[k])
    ensures var r := WriteAll(regs, items)[Target(regs, items[k])];
            r == regs[Target(regs, items[k])].(data := items[k].data, status := WRITE_STATUS)
  {
    var n := |items| - 1;
    WriteKeeps(regs, items[..n]);
    SameTarget(regs, WriteAll(regs, items[..n]), items[n]);
    WriteOnly(regs, items[..n]);
    if k < n {
      assert items[..n][k] == items[k];
      LastWriteWins(regs, items[..n], k);
    }
  }

  /** A write touches no field but the value and the status. */
  lemma {:induction false} WriteOnly(regs: seq<Register>, items: seq<Item>)
    requires regs != []
    ensures forall i :: 0 <= i < |regs| ==>
              WriteAll(regs, items)[i] == regs[i].(data := WriteAll(regs, items)[i].data, status := WriteAll(regs, items)[i].status)
  {
    if items != [] { WriteOnly(regs, items[..|items| - 1]); }
  }

  /** Reading marks exactly the registers the items lead to, and changes nothing else. */
  lemma {:induction false} ReadMarks(regs: seq<Register>, items: seq<Item>)
    requires regs != []
    ensures SameNames(regs, ReadAll(regs, items))
    ensures forall i :: 0 <= i < |regs| ==>
              ReadAll(regs, items)[i] == if Hit(regs, items, i) then regs[i].(status := READ_STATUS) else regs[i]
  {
    hide Target, Hit;
    if items != [] {
      var n := |items| - 1;
      ReadMarks(regs, items[..n]);
      SameTarget(regs, ReadAll(regs, items[..n]), items[n]);
      forall i | 0 <= i < |regs| ensures Hit(regs, items, i) <==> Hit(regs, items[..n], i) || Target(regs, items[n]) == i {
        HitStep(regs, items, i);
      }
    } else {
      HitNone(regs);
    }
  }

  lemma HitNone(regs: seq<Register>)
    ensures forall i :: 0 <= i < |regs| ==> !Hit(regs, [], i)
  {
  }

  // ---------------------------------------------------------------- commands, read off the table itself

  /** Register `i` is the first one with that address and offset; or it is register 0, and none has them. */
  predicate Leads(regs: seq<Register>, address: bv32, offset: bv32, i: nat) {
    && i < |regs|
    && if regs[i].address == address && regs[i].offset == offset then
         forall k :: 0 <= k < i ==> !(regs[k].address == address && regs[k].offset == offset)
       else i == 0 && forall k :: 0 <= k < |regs| ==> !(regs[k].address == address && regs[k].offset == offset)
  }

  /** The item leads to register `i`, by the whole 16 bits of its address and offset. */
  predicate LeadsTo(regs: seq<Register>, item: Item, i: nat) {
    Leads(regs, item.address as bv32, item.offset as bv32, i)
  }

  /** The last item that leads to register `i` is the `k`-th one. */
  predicate LastTo(regs: seq<Register>, items: seq<Item>, k: int, i: nat) {
    0 <= k < |items| && LeadsTo(regs, items[k], i) && forall l :: k < l < |items| ==> !LeadsTo(regs, items[l], i)
  }

  lemma LeadsIff(regs: seq<Register>, item: Item, i: nat)
    requires regs != []
    ensures Target(regs, item) == i <==> LeadsTo(regs, item, i)
  {
    hide Lookup, Leads;
    LookupIs(regs, item.address as bv32, item.offset as bv32, i);
  }

  lemma LookupIs(regs: seq<Register>, address: bv32, offset: bv32, i: nat)
    requires regs != []
    ensures Lookup(regs, address, offset) == i <==> Leads(regs, address, offset, i)
  {
    hide FirstNamed;
    var t := Lookup(regs, address, offset);
    assert Names(regs[t], address, offset) || t == 0;
  }

  /** What a write command leaves in register `i`: the data of the last item that leads to it, if it is writable,
      with the status 10; otherwise what was there. */
  lemma WriteReaches(regs: seq<Register>, items: seq<Item>, i: nat)
    requires i < |regs|
    ensures regs[i].kind != 'W' || (forall k :: 0 <= k < |items| ==> !LeadsTo(regs, items[k], i)) ==> WriteAll(regs, items)[i] == regs[i]
    ensures forall k :: LastTo(regs, items, k, i) && regs[i].kind == 'W' ==>
              WriteAll(regs, items)[i] == regs[i].(data := items[k].data, status := 10)
  {
    hide Target, LeadsTo, WriteAll;
    forall k | 0 <= k < |items| ensures Target(regs, items[k]) == i <==> LeadsTo(regs, items[k], i) { LeadsIff(regs, items[k], i); }
    WriteKeeps(regs, items);
    forall k | LastTo(regs, items, k, i) && regs[i].kind == 'W'
      ensures WriteAll(regs, items)[i] == regs[i].(data := items[k].data, status := 10)
    {
      LastWriteWins(regs, items, k);
    }
  }

  /** So a write command changes nothing but writable registers that its items lead to. */
  lemma WriteChangesOnly(regs: seq<Register>, items: seq<Item>, i: nat)
    requires i < |regs| && WriteAll(regs, items)[i] != regs[i]
    ensures regs[i].kind == 'W' && exists k :: 0 <= k < |items| && LeadsTo(regs, items[k], i)
  {
    hide LeadsTo, WriteAll;
    WriteReaches(regs, items, i);
  }

  /** What a read command leaves in register `i`: the status 1, if an item leads to it. */
  lemma ReadReaches(regs: seq<Register>, items: seq<Item>, i: nat)
    requires i < |regs|
    ensures ReadAll(regs, items)[i] == if exists k :: 0 <= k < |items| && LeadsTo(regs, items[k], i) then regs[i].(status := 1) else regs[i]
  {
    hide Target, LeadsTo, ReadAll;
    forall k | 0 <= k < |items| ensures Target(regs, items[k]) == i <==> LeadsTo(regs, items[k], i) { LeadsIff(regs, items[k], i); }
    ReadMarks(regs, items);
  }

  /** The answer repeats each item with the data of the register it leads to. */
  lemma AnswerIs(regs: seq<Register>, items: seq<Item>, k: nat, i: nat)
    requires regs != [] && k < |items| && LeadsTo(regs, items[k], i)
    ensures Answers(regs, items)[k] == Item(items[k].address, items[k].offset, regs[i].data)
  {
    hide Target, LeadsTo;
    LeadsIff(regs, items[k], i);
  }

  lemma {:induction false} SameMembers(r: seq<Register>, s: seq<Register>, n: nat, j: nat)
    requires SameNames(r, s) && n <= |r|
    ensures Members(r, n, j) == Members(s, n, j)
  {
    if n > 0 { SameMembers(r, s, n - 1, j); }
  }

  lemma {:induction false} SameChain(r: seq<Register>, s: seq<Register>, rounds: nat, j: nat)
    requires SameNames(r, s)
    ensures Chain(r, rounds, j) == Chain(s, rounds, j)
  {
    if rounds > 0 {
      SameChain(r, s, rounds - 1, j);
      SameMembers(r, s, |r|, j);
    }
  }

  class Table {
    const registers: array<Register>
    const heads: array<Node?>
    /** The nodes of each chain in order, all of them, and how many times the table was initialised. */
    ghost var chains: seq<seq<Node>>
    ghost var nodes: set<Node>
    ghost var rounds: nat

    ghost function Footprint(): set<object>
      reads this`nodes
    {
      {this, registers, heads} + nodes
    }

    ghost predicate Linked()
      reads this`chains, this`nodes, heads, nodes
    {
      && |chains| == heads.Length
      && (forall j :: 0 <= j < |chains| ==> heads[j] == if chains[j] == [] then null else chains[j][0])
      && (forall j, k :: 0 <= j < |chains| && 0 <= k < |chains[j]| ==>
            chains[j][k] in nodes && Placed(chains[j][k], j, k))
    }

    ghost predicate Placed(node: Node, j: nat, k: nat)
      requires j < |chains| && k < |chains[j]|
      reads this`chains, node
    {
      && node.row == j && node.place == k
      && node.next == if k + 1 < |chains[j]| then chains[j][k + 1] else null
    }

    ghost predicate Keyed()
      reads this`chains, registers
    {
      forall j, k :: 0 <= j < |chains| && 0 <= k < |chains[j]| ==>
        chains[j][k].index < registers.Length && chains[j][k].key == KeyOf(registers[chains[j][k].index])
    }

    ghost predicate Structure()
      reads this`chains, this`nodes, registers, heads, nodes
    {
      heads.Length == registers.Length > 0 && Linked() && Keyed()
    }

    /** Every chain lists what the rounds put there. */
    ghost predicate Filled()
      reads this`chains, this`rounds, registers
    {
      forall j :: 0 <= j < |chains| ==> Indices(chains[j]) == Chain(registers[..], rounds, j)
    }

    ghost predicate Valid()
      reads this, registers, heads, nodes
    {
      Structure() && Filled()
    }

    constructor (regs: seq<Register>)
      requires regs != []
      ensures Valid() && registers[..] == regs && rounds == 0
      ensures fresh(registers) && fresh(heads) && fresh(nodes)
    {
      registers := new Register[|regs|](i requires 0 <= i < |regs| => regs[i]);
      heads := new Node?[|regs|](i => null);
      chains, nodes, rounds := seq(|regs|, _ => []), {}, 0;
    }

    /** The last node of a chain. */
    method Tail(j: nat) returns (temp: Node)
      requires Linked() && j < |chains| && chains[j] != []
      ensures temp == chains[j][|chains[j]| - 1]
    {
      temp := heads[j];
      ghost var k := 0;
      while temp.next != null
        invariant k < |chains[j]| && temp == chains[j][k]
        decreases |chains[j]| - k
      {
        temp := temp.next;
        k := k + 1;
      }
    }

    /** Hang a new node on its chain. */
    method Link(j: nat, newNode: Node)
      requires Linked() && newNode !in nodes && newNode.next == null
      requires newNode.row == j < |chains| && newNode.place == |chains[j]|
      modifies `chains, `nodes, heads, nodes
      ensures Linked() && nodes == old(nodes) + {newNode}
      ensures chains == old(chains)[j := old(chains)[j] + [newNode]]
    {
      if heads[j] == null {
        heads[j] := newNode;
      } else {
        var temp := Tail(j);
        temp.next := newNode;
      }
      chains := chains[j := chains[j] + [newNode]];
      nodes := nodes + {newNode};
    }

    /** Put one register at the end of its chain. */
    method Append(i: nat) returns (ghost node: Node)
      requires Structure() && i < registers.Length
      modifies `chains, `nodes, heads, nodes
      ensures Structure() && fresh(nodes - old(nodes))
      ensures node.index == i && |chains| == |old(chains)|
      ensures var j := Hash(KeyOf(registers[i]), registers.Length);
              chains == old(chains)[j := old(chains)[j] + [node]]
    {
      assert |chains| == heads.Length;
      hide Hash, KeyOf, Linked;
      var key := KeyOf(registers[i]);
      var j := Hash(key, registers.Length);
      var newNode := new Node(key, i, j, |chains[j]|);
      Link(j, newNode);
      node := newNode;
    }

    /** Append every register to its chain; nothing clears the chains first. */
    method Initialize()
      requires Valid()
      modifies this, heads, nodes
      ensures Valid() && rounds == old(rounds) + 1 && fresh(nodes - old(nodes))
    {
      hide Hash, KeyOf, Members, Chain, Linked, Keyed;
      ghost var regs := registers[..];
      MembersStart(regs);
      for i := 0 to registers.Length
        invariant Structure() && rounds == old(rounds) && fresh(nodes - old(nodes))
        invariant forall j :: 0 <= j < |chains| ==> Indices(chains[j]) == Chain(regs, rounds, j) + Members(regs, i, j)
      {
        ghost var was := chains;
        ghost var node := Append(i);
        MembersStep(regs, i);
        forall j | 0 <= j < |chains| ensures Indices(chains[j]) == Chain(regs, rounds, j) + Members(regs, i + 1, j) {
          if j == Hash(KeyOf(regs[i]), |regs|) { IndicesAppend(was[j], node); }
        }
      }
      ChainStep(regs, rounds);
      rounds := rounds + 1;
    }

    /** Drop every chain. */
    method Free()
      requires Valid()
      modifies this, heads
      ensures Valid() && rounds == 0
    {
      for i := 0 to heads.Length
        invariant forall j :: 0 <= j < i ==> heads[j] == null
      {
        heads[i] := null;
      }
      chains, rounds := seq(heads.Length, _ => []), 0;
    }

    method WalkChain(j: nat, key: bv64) returns (id: nat)
      requires Structure() && j < |chains|
      ensures id < registers.Length && id == Walk(registers[..], Indices(chains[j]), key)
    {
      hide KeyOf;
      ghost var regs := registers[..];
      ghost var c := Indices(chains[j]);
      var node := heads[j];
      ghost var k := 0;
      assert c[0..] == c;
      while node != null
        invariant k <= |c| && node == if k < |c| then chains[j][k] else null
        invariant Walk(regs, c, key) == Walk(regs, c[k..], key)
        decreases |c| - k
      {
        assert Placed(chains[j][k], j, k);
        assert c[k..][0] == c[k] == node.index && c[k..][1..] == c[k + 1..];
        if node.key == key {
          return node.index;
        }
        node := node.next;
        k := k + 1;
      }
      return 0;
    }

    /** Search the chain the name hashes to. */
    method Search(address: bv32, offset: bv32) returns (id: nat)
      requires Valid()
      ensures id < registers.Length
      ensures id == if rounds == 0 then 0 else Lookup(registers[..], address, offset)
    {
      assert |chains| == registers.Length;
      hide Hash, Key, Lookup, Linked, Keyed;
      var key := Key(address, offset);
      var j := Hash(key, registers.Length);
      if rounds > 0 { WalkIsLookup(registers[..], rounds, address, offset); }
      assert Indices(chains[j]) == Chain(registers[..], rounds, j);
      id := WalkChain(j, key);
    }

    /** Replace a register by one with the same name. */
    method Store(i: nat, r: Register)
      requires Valid() && i < registers.Length
      requires r.address == registers[i].address && r.offset == registers[i].offset
      modifies registers
      ensures Valid() && registers[..] == old(registers[..])[i := r]
    {
      hide Chain, Linked, KeyOf;
      ghost var regs := registers[..];
      SameKeys(registers[i], r);
      registers[i] := r;
      forall j | 0 <= j < |chains| ensures Chain(registers[..], rounds, j) == Chain(regs, rounds, j) {
        SameChain(registers[..], regs, rounds, j);
      }
    }

    method SetStatus(i: nat, status: bv32)
      requires Valid() && i < registers.Length
      modifies registers
      ensures Valid() && registers[..] == old(registers[..])[i := old(registers[i]).(status := status)]
    {
      Store(i, registers[i].(status := status));
    }

    method SetData(i: nat, data: bv32)
      requires Valid() && i < registers.Length
      modifies registers
      ensures Valid() && registers[..] == old(registers[..])[i := old(registers[i]).(data := data)]
    {
      Store(i, registers[i].(data := data));
    }

    method ProcessWrite(items: seq<Item>)
      requires Valid() && rounds > 0
      modifies registers
      ensures Valid() && registers[..] == WriteAll(old(registers[..]), items)
    {
      hide Linked, Keyed, Filled, Lookup, WriteAll, ReadAll, Chain;
      ghost var regs := registers[..];
      NoItems(regs);
      assert items[..0] == [];
      for k := 0 to |items|
        invariant Valid() && registers[..] == WriteAll(regs, items[..k])
      {
        WriteStep(regs, items, k);
        var id := Search(items[k].address as bv32, items[k].offset as bv32);
        if registers[id].kind == 'W' {
          SetData(id, items[k].data);
          SetStatus(id, WRITE_STATUS);
        }
      }
      assert items[..|items|] == items;
    }

    /** Mark the registers read, and answer with their values. */
    method ProcessRead(items: seq<Item>) returns (answers: seq<Item>)
      requires Valid() && rounds > 0
      modifies registers
      ensures Valid() && registers[..] == ReadAll(old(registers[..]), items)
      ensures answers == Answers(old(registers[..]), items)
    {
      hide Linked, Keyed, Filled, Lookup, WriteAll, ReadAll, Chain;
      ghost var regs := registers[..];
      NoItems(regs);
      assert items[..0] == [];
      answers := [];
      for k := 0 to |items|
        invariant Valid() && registers[..] == ReadAll(regs, items[..k])
        invariant answers == Answers(regs, items[..k])
      {
        ReadStep(regs, items, k);
        ReadMarks(regs, items[..k]);
        SameTarget(regs, registers[..], items[k]);
        var id := Search(items[k].address as bv32, items[k].offset as bv32);
        SetStatus(id, READ_STATUS);
        answers := answers + [Item(items[k].address, items[k].offset, registers[id].data)];
      }
      assert items[..|items|] == items;
    }
  }

  lemma SameKeys(r: Register, s: Register)
    requires r.address == s.address && r.offset == s.offset
    ensures KeyOf(r) == KeyOf(s)
  {
  }

  lemma IndicesAppend(chain: seq<Node>, node: Node)
    ensures Indices(chain + [node]) == Indices(chain) + [node.index]
  {
  }

  ghost function Indices(chain: seq<Node>): (s: seq<nat>)
    ensures |s| == |chain|
  {
    seq(|chain|, k requires 0 <= k < |chain| => chain[k].index)
  }
}
