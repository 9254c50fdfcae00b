/** The register protocol's frames: their bytes, and what a byte stream means to a receiver that
    keeps the bytes of one unfinished frame. */
module Frames {
  import opened Folding
  import opened Words
  import opened Registers
  import Crc16

  const FUN_READ: bv8 := 0xC0
  const FUN_WRITE: bv8 := 0x03
  const FUN_UPGRADE: bv8 := 0x5E
  const MAX_ITEMS := 3

  datatype Frame = Frame(addressID: bv8, functionCode: bv8, items: seq<Item>)

  predicate IsFunction(b: bv8) { b == FUN_READ || b == FUN_WRITE || b == FUN_UPGRADE }

  /** What the receiver takes: a known function and one to three items. */
  predicate Accepted(f: Frame) { IsFunction(f.functionCode) && 1 <= |f.items| <= MAX_ITEMS }

  // ---------------------------------------------------------------- counts

  function Count16(n: nat): bv16
    requires n < 0x1_0000
  {
    n as bv16
  }

  function Num(c: bv16): nat { c as nat }

  predicate CountOk(c: bv16) { 1 <= c <= 3 }

  lemma SmallCounts()
    ensures Count16(1) == 1 && Count16(2) == 2 && Count16(3) == 3
    ensures Num(1) == 1 && Num(2) == 2 && Num(3) == 3
  {
  }

  lemma SmallCount(c: bv16)
    requires CountOk(c)
    ensures c == 1 || c == 2 || c == 3
  {
  }

  // ---------------------------------------------------------------- serialisation

  function ItemBytes(it: Item): (s: seq<bv8>)
    ensures |s| == 8
  {
    [Hi(it.address), Lo(it.address), Hi(it.offset), Lo(it.offset),
     Byte(it.data, 3), Byte(it.data, 2), Byte(it.data, 1), Byte(it.data, 0)]
  }

  function ItemOf(s: seq<bv8>): Item
    requires |s| == 8
  {
    Item(Join16(s[0], s[1]), Join16(s[2], s[3]), Join32(s[4], s[5], s[6], s[7]))
  }

  function Body(items: seq<Item>): (s: seq<bv8>)
    ensures |s| == 8 * |items|
  {
    if items == [] then [] else Body(items[..|items| - 1]) + ItemBytes(items[|items| - 1])
  }

  /** The first `n` items in a run of bytes. */
  function Items(s: seq<bv8>, n: nat): (r: seq<Item>)
    requires |s| >= 8 * n
    ensures |r| == n
  {
    if n == 0 then [] else Items(s, n - 1) + [ItemOf(s[8 * (n - 1)..8 * n])]
  }

  function Message(f: Frame): (s: seq<bv8>)
    requires |f.items| < 0x2000
    ensures |s| == 4 + 8 * |f.items|
  {
    var count := Count16(|f.items|);
    [f.addressID, f.functionCode, Hi(count), Lo(count)] + Body(f.items)
  }

  function Serialized(f: Frame): (s: seq<bv8>)
    requires |f.items| < 0x2000
    ensures |s| == 6 + 8 * |f.items|
  {
    var crc := Crc16.Crc(Message(f));
    Message(f) + [Hi(crc), Lo(crc)]
  }

  method SerializeCommFrame(f: Frame) returns (buffer: array<bv8>)
    requires 6 + 8 * |f.items| < 0x1_0000
    ensures fresh(buffer) && buffer[..] == Serialized(f)
  {
    hide Byte, Hi, Lo, Crc16.Crc, Count16, ItemBytes;
    buffer := new bv8[6 + 8 * |f.items|];
    var count := Count16(|f.items|);
    buffer[0], buffer[1], buffer[2], buffer[3] := f.addressID, f.functionCode, Hi(count), Lo(count);
    var index := 4;
    for i := 0 to |f.items|
      invariant index == 4 + 8 * i
      invariant buffer[..index] == [f.addressID, f.functionCode, Hi(count), Lo(count)] + Body(f.items[..i])
    {
      var it := f.items[i];
      PutItem(buffer, index, it);
      BodyStep(f.items, i);
      index := index + 8;
    }
    assert f.items[..|f.items|] == f.items;
    PutCrc(buffer, index);
  }

  /** Put the checksum of the first `index` bytes behind them. */
  method PutCrc(buffer: array<bv8>, index: nat)
    requires index + 2 == buffer.Length
    modifies buffer
    ensures var m := old(buffer[..index]); buffer[..] == m + [Hi(Crc16.Crc(m)), Lo(Crc16.Crc(m))]
  {
    hide Hi, Lo, Crc16.Crc;
    var crc := Crc16.CalculateCrc16(buffer[..index]);
    buffer[index], buffer[index + 1] := Hi(crc), Lo(crc);
  }

  lemma BodyStep(items: seq<Item>, i: nat)
    requires i < |items|
    ensures Body(items[..i + 1]) == Body(items[..i]) + ItemBytes(items[i])
  {
    assert items[..i + 1][..i] == items[..i];
  }

  method PutItem(buffer: array<bv8>, index: nat, it: Item)
    requires index + 8 <= buffer.Length
    modifies buffer
    ensures buffer[..index + 8] == old(buffer[..index]) + ItemBytes(it)
  {
    hide Byte, Hi, Lo;
    buffer[index], buffer[index + 1] := Hi(it.address), Lo(it.address);
    buffer[index + 2], buffer[index + 3] := Hi(it.offset), Lo(it.offset);
    buffer[index + 4], buffer[index + 5] := Byte(it.data, 3), Byte(it.data, 2);
    buffer[index + 6], buffer[index + 7] := Byte(it.data, 1), Byte(it.data, 0);
  }

  lemma ItemRoundTrip(it: Item)
    ensures ItemOf(ItemBytes(it)) == it
  {
    hide Join16, Join32, Byte, Hi, Lo;
    SplitJoin16(it.address);
    SplitJoin16(it.offset);
    SplitJoin32(it.data);
  }

  lemma BytesRoundTrip(s: seq<bv8>)
    requires |s| == 8
    ensures ItemBytes(ItemOf(s)) == s
  {
    hide Join16, Join32, Byte, Hi, Lo;
    JoinSplit16(s[0], s[1]);
    JoinSplit16(s[2], s[3]);
    JoinSplit32(s[4], s[5], s[6], s[7]);
  }

  /** Decoding a body gives its items back, whatever follows the body. */
  lemma {:induction false} ItemsOfBody(items: seq<Item>, rest: seq<bv8>)
    ensures Items(Body(items) + rest, |items|) == items
  {
    hide ItemBytes, ItemOf;
    if items != [] {
      var n := |items| - 1;
      var last := ItemBytes(items[n]);
      ItemsOfBody(items[..n], last + rest);
      assert Body(items) + rest == Body(items[..n]) + (last + rest);
      assert (Body(items) + rest)[8 * n..8 * n + 8] == last;
      ItemRoundTrip(items[n]);
    }
  }

  lemma {:induction false} BodyOfItems(s: seq<bv8>, n: nat)
    requires |s| >= 8 * n
    ensures Body(Items(s, n)) == s[..8 * n]
  {
    hide ItemBytes, ItemOf;
    if n > 0 {
      BodyOfItems(s, n - 1);
      BytesRoundTrip(s[8 * (n - 1)..8 * n]);
      assert Items(s, n)[..n - 1] == Items(s, n - 1);
      assert s[..8 * n] == s[..8 * (n - 1)] + s[8 * (n - 1)..8 * n];
    }
  }

  /** Two bytes spell a number, the high one first. */
  predicate Spell16(s: seq<bv8>, at: nat, x: bv16) {
    at + 2 <= |s| && ((s[at] as bv16) << 8) | (s[at + 1] as bv16) == x
  }

  predicate Spell32(s: seq<bv8>, at: nat, x: bv32) {
    && at + 4 <= |s|
    && ((s[at] as bv32) << 24) | ((s[at + 1] as bv32) << 16) | ((s[at + 2] as bv32) << 8) | (s[at + 3] as bv32) == x
  }

  /** The bytes of a frame on the line: address, function, count, and the checksum of all but the last two. */
  lemma SerializedHeader(f: Frame)
    requires |f.items| < 0x2000
    ensures var s := Serialized(f);
      && s[0] == f.addressID && s[1] == f.functionCode && Spell16(s, 2, |f.items| as bv16)
      && Spell16(s, |s| - 2, Crc16.Crc(s[..|s| - 2]))
  {
    hide Hi, Lo, Byte, Crc16.Crc, Body, Spell16;
    var s, n, c := Serialized(f), Count16(|f.items|), Crc16.Crc(Message(f));
    assert s[..|s| - 2] == Message(f);
    SpellPair(s, 2, n);
    SpellPair(s, |s| - 2, c);
  }

  lemma SpellPair(s: seq<bv8>, at: nat, x: bv16)
    ensures at + 2 <= |s| && s[at] == Hi(x) && s[at + 1] == Lo(x) ==> Spell16(s, at, x)
  {
    hide Hi, Lo;
    Spelled16(x);
  }

  /** Between them address, offset and data of each item. */
  lemma SerializedItem(f: Frame, k: nat)
    requires |f.items| < 0x2000 && k < |f.items|
    ensures var s, it := Serialized(f), f.items[k];
      Spell16(s, 4 + 8 * k, it.address) && Spell16(s, 6 + 8 * k, it.offset) && Spell32(s, 8 + 8 * k, it.data)
  {
    hide Crc16.Crc, Body, ItemBytes, Spell16, Spell32, Hi, Lo, Count16;
    var s := Serialized(f);
    BodyAt(f.items, k);
    assert s[4 + 8 * k..12 + 8 * k] == Body(f.items)[8 * k..8 * k + 8];
    ItemSpelled(s, 4 + 8 * k, f.items[k]);
  }

  lemma ItemSpelled(s: seq<bv8>, at: nat, it: Item)
    requires at + 8 <= |s| && s[at..at + 8] == ItemBytes(it)
    ensures Spell16(s, at, it.address) && Spell16(s, at + 2, it.offset) && Spell32(s, at + 4, it.data)
  {
    hide Hi, Lo, Byte, Spell16, Spell32;
    var b := s[at..at + 8];
    assert s[at] == b[0] && s[at + 1] == b[1] && s[at + 2] == b[2] && s[at + 3] == b[3];
    assert s[at + 4] == b[4] && s[at + 5] == b[5] && s[at + 6] == b[6] && s[at + 7] == b[7];
    SpellPair(s, at, it.address);
    SpellPair(s, at + 2, it.offset);
    SpellQuad(s, at + 4, it.data);
  }

  lemma SpellQuad(s: seq<bv8>, at: nat, x: bv32)
    ensures at + 4 <= |s| && s[at] == Byte(x, 3) && s[at + 1] == Byte(x, 2) && s[at + 2] == Byte(x, 1) && s[at + 3] == Byte(x, 0) ==>
              Spell32(s, at, x)
  {
    hide Byte;
    Spelled32(x);
  }

  lemma {:induction false} BodyAt(items: seq<Item>, k: nat)
    requires k < |items|
    ensures Body(items)[8 * k..8 * k + 8] == ItemBytes(items[k])
  {
    hide ItemBytes;
    var n := |items| - 1;
    if k < n {
      BodyAt(items[..n], k);
      assert Body(items)[8 * k..8 * k + 8] == Body(items[..n])[8 * k..8 * k + 8];
    }
  }

  /** The frames the receiver takes. */
  lemma AcceptedIs(f: Frame)
    ensures Accepted(f) <==>
      (f.functionCode == 0xC0 || f.functionCode == 0x03 || f.functionCode == 0x5E) && 1 <= |f.items| <= 3
  {
  }

  // ---------------------------------------------------------------- what a stream means

  /** The bytes of the frame under way, and the frames dispatched so far. */
  datatype Parsed = Parsed(pending: seq<bv8>, frames: seq<Frame>)

  function CountOf(p: seq<bv8>): bv16
    requires |p| >= 4
  {
    Join16(p[2], p[3])
  }

  function DecodeFrame(p: seq<bv8>): Frame
    requires |p| >= 4 && |p| >= 4 + 8 * Num(CountOf(p))
  {
    Frame(p[0], p[1], Items(p[4..], Num(CountOf(p))))
  }

  /** A complete frame whose last two bytes are the checksum of the others. */
  predicate ChecksOut(p: seq<bv8>)
    requires |p| >= 2
  {
    var m := p[..|p| - 2];
    p[|p| - 2] == Hi(Crc16.Crc(m)) && p[|p| - 1] == Lo(Crc16.Crc(m))
  }

  /** One byte: refused bytes drop the whole unfinished frame. */
  function Next(st: Parsed, b: bv8): Parsed {
    var p := st.pending + [b];
    if |p| == 2 && !IsFunction(b) then Parsed([], st.frames)
    else if |p| < 4 then Parsed(p, st.frames)
    else if !CountOk(CountOf(p)) then Parsed([], st.frames)
    else if |p| < 6 + 8 * Num(CountOf(p)) then Parsed(p, st.frames)
    else if ChecksOut(p) then Parsed([], st.frames + [DecodeFrame(p)])
    else Parsed([], st.frames)
  }

  function Run(s: seq<bv8>): Parsed { Fold(Next, Parsed([], []), s) }

  /** The bytes of a frame, except for its checksum. */
  predicate Framed(x: seq<bv8>) {
    |x| >= 4 && IsFunction(x[1]) && CountOk(CountOf(x)) && |x| == 6 + 8 * Num(CountOf(x))
  }

  lemma HeaderOf(f: Frame)
    requires Accepted(f)
    ensures var count := Count16(|f.items|); CountOk(count) && Num(count) == |f.items|
    ensures CountOf(Serialized(f)) == Count16(|f.items|) && Framed(Serialized(f))
  {
    hide Join16, Count16, Num, Crc16.Crc, Hi, Lo;
    SmallCounts();
    SplitJoin16(Count16(|f.items|));
  }

  /** A serialised frame decodes to itself. */
  lemma DecodeSerialized(f: Frame)
    requires Accepted(f)
    ensures |Serialized(f)| == 6 + 8 * Num(CountOf(Serialized(f)))
    ensures DecodeFrame(Serialized(f)) == f && ChecksOut(Serialized(f))
  {
    HeaderOf(f);
    hide Join16, Count16, Num, CountOf, Crc16.Crc, Hi, Lo;
    var s := Serialized(f);
    assert s[..|s| - 2] == Message(f);
    assert ChecksOut(s);
    assert s[4..] == Body(f.items) + s[|s| - 2..];
    ItemsOfBody(f.items, s[|s| - 2..]);
  }

  /** Whatever checks out is the serialisation of what it decodes to. */
  lemma SerializeDecoded(p: seq<bv8>)
    requires Framed(p) && ChecksOut(p)
    ensures Accepted(DecodeFrame(p)) && Serialized(DecodeFrame(p)) == p
  {
    hide Join16, Count16, Num, Crc16.Crc, Hi, Lo, Body, Items, Message;
    var c := CountOf(p);
    var f := DecodeFrame(p);
    SmallCounts();
    SmallCount(c);
    JoinSplit16(p[2], p[3]);
    BodyOfItems(p[4..], |f.items|);
    MessageIs(f, p);
    assert Serialized(f) == p[..|p| - 2] + [p[|p| - 2], p[|p| - 1]];
  }

  lemma MessageIs(f: Frame, p: seq<bv8>)
    requires |f.items| < 0x2000 && |p| == 6 + 8 * |f.items| && f.addressID == p[0] && f.functionCode == p[1]
    requires Hi(Count16(|f.items|)) == p[2] && Lo(Count16(|f.items|)) == p[3]
    requires Body(f.items) == p[4..][..8 * |f.items|]
    ensures Message(f) == p[..|p| - 2]
  {
    hide Count16, Hi, Lo, Body;
    assert p[4..][..8 * |f.items|] == p[4..|p| - 2];
    assert p[..|p| - 2] == [p[0], p[1], p[2], p[3]] + p[4..|p| - 2];
  }

  lemma CountOfPrefix(x: seq<bv8>, k: nat)
    requires 4 <= k <= |x|
    ensures CountOf(x[..k]) == CountOf(x)
  {
  }

  /** Every byte of a frame but the last is kept. */
  lemma KeptByte(x: seq<bv8>, frames: seq<Frame>, k: nat)
    requires Framed(x) && k + 1 < |x|
    ensures Next(Parsed(x[..k], frames), x[k]) == Parsed(x[..k + 1], frames)
  {
    hide Num, ChecksOut, CountOf, DecodeFrame, IsFunction;
    assert x[..k] + [x[k]] == x[..k + 1];
    if k + 1 >= 4 { CountOfPrefix(x, k + 1); }
  }

  /** Part of a frame is kept as it is. */
  lemma {:induction false} PrefixPending(x: seq<bv8>, frames: seq<Frame>, k: nat)
    requires Framed(x) && k < |x|
    ensures Fold(Next, Parsed([], frames), x[..k]) == Parsed(x[..k], frames)
  {
    hide Framed, Next;
    if k > 0 {
      PrefixPending(x, frames, k - 1);
      FoldStep(Next, Parsed([], frames), x, k - 1);
      KeptByte(x, frames, k - 1);
    }
  }

  /** The last byte of a frame decides. */
  lemma LastByte(x: seq<bv8>, frames: seq<Frame>)
    requires Framed(x)
    ensures Next(Parsed(x[..|x| - 1], frames), x[|x| - 1])
         == Parsed([], if ChecksOut(x) then frames + [DecodeFrame(x)] else frames)
  {
    hide Num, Join16, ChecksOut, DecodeFrame, CountOf;
    assert x[..|x| - 1] + [x[|x| - 1]] == x;
  }

  /** From idle, the bytes of an acceptable frame dispatch that frame, once, and end idle. */
  lemma SerializedDispatches(f: Frame, frames: seq<Frame>)
    requires Accepted(f)
    ensures Fold(Next, Parsed([], frames), Serialized(f)) == Parsed([], frames + [f])
  {
    hide Join16, Count16, Num, ChecksOut, CountOf, DecodeFrame, Next, Serialized, Fold;
    var s := Serialized(f);
    HeaderOf(f);
    PrefixPending(s, frames, |s| - 1);
    FoldStep(Next, Parsed([], frames), s, |s| - 1);
    assert s[..|s|] == s;
    DecodeSerialized(f);
    LastByte(s, frames);
  }

  function Stream(fs: seq<Frame>): seq<bv8>
    requires forall k :: 0 <= k < |fs| ==> Accepted(fs[k])
  {
    if fs == [] then []
    else
      assert Accepted(fs[|fs| - 1]);
      Stream(fs[..|fs| - 1]) + Serialized(fs[|fs| - 1])
  }

  /** A stream of frames is dispatched frame by frame. */
  lemma {:induction false} StreamDispatches(fs: seq<Frame>)
    requires forall k :: 0 <= k < |fs| ==> Accepted(fs[k])
    ensures Run(Stream(fs)) == Parsed([], fs)
  {
    hide Next, Serialized;
    if fs != [] {
      var n := |fs| - 1;
      StreamDispatches(fs[..n]);
      FoldAppend(Next, Parsed([], []), Stream(fs[..n]), Serialized(fs[n]));
      SerializedDispatches(fs[n], fs[..n]);
      assert fs[..n] + [fs[n]] == fs;
    }
  }

  /** What is pending may always be the start of a frame. */
  predicate Plausible(p: seq<bv8>) {
    && (|p| >= 2 ==> IsFunction(p[1]))
    && (|p| >= 4 ==> CountOk(CountOf(p)) && |p| < 6 + 8 * Num(CountOf(p)))
  }

  /** The pending bytes are the last ones received, and the receiver was idle just before them. */
  lemma {:induction false} PendingIsTail(s: seq<bv8>) returns (u: seq<bv8>)
    ensures s == u + Run(s).pending && Run(u) == Parsed([], Run(s).frames) && Plausible(Run(s).pending)
  {
    hide Next, Plausible;
    if s == [] {
      u := [];
      PlausibleNothing();
    } else {
      var n := |s| - 1;
      var v := PendingIsTail(s[..n]);
      var st := Run(s[..n]);
      KeptOrDropped(st.pending, st.frames, s[n]);
      PlausibleNothing();
      assert s == v + (st.pending + [s[n]]);
      u := if Run(s).pending == [] then s else v;
    }
  }

  lemma PlausibleNothing()
    ensures Plausible([])
  {
  }

  /** A byte is kept behind what is pending, or nothing is pending any more. */
  lemma KeptOrDropped(p: seq<bv8>, frames: seq<Frame>, b: bv8)
    requires Plausible(p)
    ensures var st := Next(Parsed(p, frames), b);
            st.pending == [] || (st == Parsed(p + [b], frames) && Plausible(p + [b]))
  {
    hide Num, Join16, ChecksOut, DecodeFrame, IsFunction, CountOk, CountOf;
    if |p| >= 4 { CountOfPrefix(p + [b], |p|); assert (p + [b])[..|p|] == p; }
  }

  /** A byte dispatches a frame exactly when it completes that frame's own bytes, sent from idle. */
  lemma DispatchIff(s: seq<bv8>, b: bv8, f: Frame)
    ensures Run(s + [b]).frames == Run(s).frames + [f]
       <==> Accepted(f) && exists u :: s + [b] == u + Serialized(f) && Run(u) == Parsed([], Run(s).frames)
  {
    assert (s + [b])[..|s|] == s;
    if Run(s + [b]).frames == Run(s).frames + [f] {
      var u := PendingIsTail(s);
      var p := Run(s).pending + [b];
      assert s + [b] == u + p;
      assert (Run(s).frames + [f])[|Run(s).frames|] == f;
      assert |p| >= 4 && CountOk(CountOf(p)) && ChecksOut(p) && f == DecodeFrame(p);
      SmallCounts();
      SmallCount(CountOf(p));
      SerializeDecoded(p);
    }
    if Accepted(f) {
      if u :| s + [b] == u + Serialized(f) && Run(u) == Parsed([], Run(s).frames) {
        FoldAppend(Next, Parsed([], []), u, Serialized(f));
        SerializedDispatches(f, Run(s).frames);
      }
    }
  }

  /** A frame damaged inside 16 consecutive bits, its function known and its length intact, is dropped. */
  lemma BurstRejected(f: Frame, x: seq<bv8>, at: nat)
    requires Accepted(f) && |x| == |Serialized(f)| && x != Serialized(f)
    requires IsFunction(x[1]) && x[2..4] == Serialized(f)[2..4]
    requires Crc16.Burst(Crc16.Bits(x), Crc16.Bits(Serialized(f)), at)
    ensures Run(x) == Parsed([], [])
  {
    hide Num, Join16, Count16, ChecksOut, DecodeFrame, Serialized, Next, Fold, Crc16.Crc, Crc16.Bits, Crc16.Burst;
    var s := Serialized(f);
    Crc16.BurstDetected(x, s, at);
    SelfCheck(s);
    SelfCheck(x);
    DecodeSerialized(f);
    HeaderOf(f);
    assert x[2] == x[2..4][0] && x[3] == x[2..4][1] && s[2] == s[2..4][0] && s[3] == s[2..4][1];
    PrefixPending(x, [], |x| - 1);
    FoldStep(Next, Parsed([], []), x, |x| - 1);
    assert x[..|x|] == x;
    LastByte(x, []);
  }

  lemma SelfCheck(p: seq<bv8>)
    requires |p| >= 2
    ensures ChecksOut(p) <==> Crc16.Crc(p) == 0
  {
    hide Crc16.Crc, Hi, Lo;
    var m := p[..|p| - 2];
    assert p == m + [p[|p| - 2], p[|p| - 1]];
    Crc16.SelfCheckIff(m, p[|p| - 2], p[|p| - 1]);
  }
}
