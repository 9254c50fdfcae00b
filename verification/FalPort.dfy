/** The flash driver: word programming that can only clear bits and is read back, and page erase.
    Every word program and page erase appends the memory it leaves to the ghost `log`. */
module FalPort {

  const PAGE_SIZE := 2048
  const ERASED: bv8 := 0xFF

  /** Programming `b` onto a byte holding `a` reads back as `b`. */
  predicate Sticks(a: bv8, b: bv8) { a & b == b }

  /** Memory with `buf` in place of what stood at `offset`. */
  function Spliced(mem: seq<bv8>, offset: nat, buf: seq<bv8>): (r: seq<bv8>)
    requires offset + |buf| <= |mem|
    ensures |r| == |mem|
  {
    mem[..offset] + buf + mem[offset + |buf|..]
  }

  predicate AllStick(mem: seq<bv8>, offset: nat, buf: seq<bv8>)
    requires offset + |buf| <= |mem|
  {
    forall k {:trigger buf[k]} :: 0 <= k < |buf| ==> Sticks(mem[offset + k], buf[k])
  }

  lemma ErasedSticks(b: bv8)
    ensures Sticks(ERASED, b)
  {
  }

  /** What a word program leaves in one byte, and in a word. */
  function Cleared(a: bv8, b: bv8): bv8 { a & b }

  function Landed(m: seq<bv8>, a: nat, w: seq<bv8>): (r: seq<bv8>)
    requires |w| == 4 && a + 4 <= |m|
    ensures |r| == 4
  {
    [Cleared(m[a], w[0]), Cleared(m[a + 1], w[1]), Cleared(m[a + 2], w[2]), Cleared(m[a + 3], w[3])]
  }

  /** Programming a word clears the bits that are zero in it, and changes nothing but its four bytes. */
  lemma LandedIs(m: seq<bv8>, a: nat, w: seq<bv8>)
    requires |w| == 4 && a + 4 <= |m|
    ensures var r := Spliced(m, a, Landed(m, a, w));
      && r[a] == m[a] & w[0] && r[a + 1] == m[a + 1] & w[1] && r[a + 2] == m[a + 2] & w[2] && r[a + 3] == m[a + 3] & w[3]
      && forall k :: 0 <= k < |m| && !(a <= k < a + 4) ==> r[k] == m[k]
  {
    assert Spliced(m, a, Landed(m, a, w))[a..a + 4] == Landed(m, a, w);
  }

  lemma ClearedIff(a: bv8, b: bv8)
    ensures Cleared(a, b) == b <==> Sticks(a, b)
  {
  }

  /** Data written to erased memory is never refused. */
  lemma ErasedTakesAll(mem: seq<bv8>, offset: nat, buf: seq<bv8>)
    requires offset + |buf| <= |mem|
    requires forall k :: offset <= k < offset + |buf| ==> mem[k] == ERASED
    ensures AllStick(mem, offset, buf)
  {
    forall k | 0 <= k < |buf| ensures Sticks(mem[offset + k], buf[k]) {
      ErasedSticks(buf[k]);
    }
  }

  class Flash {
    const mem: array<bv8>
    ghost var log: seq<seq<bv8>>

    constructor (image: seq<bv8>)
      ensures mem[..] == image && log == [] && fresh(mem)
    {
      mem := new bv8[|image|](k requires 0 <= k < |image| => image[k]);
      log := [];
    }

    method ProgramWord(a: nat, w: seq<bv8>)
      requires |w| == 4 && a + 4 <= mem.Length
      modifies mem, `log
      ensures mem[..] == Spliced(old(mem[..]), a, Landed(old(mem[..]), a, w)) && log == old(log) + [mem[..]]
    {
      mem[a], mem[a + 1], mem[a + 2], mem[a + 3] :=
        Cleared(mem[a], w[0]), Cleared(mem[a + 1], w[1]), Cleared(mem[a + 2], w[2]), Cleared(mem[a + 3], w[3]);
      log := log + [mem[..]];
    }

    /** Program a word and read it back. */
    method WriteWord(a: nat, w: seq<bv8>) returns (ok: bool)
      requires |w| == 4 && a + 4 <= mem.Length
      modifies mem, `log
      ensures ok <==> AllStick(old(mem[..]), a, w)
      ensures mem[..] == Spliced(old(mem[..]), a, if ok then w else Landed(old(mem[..]), a, w))
      ensures log == old(log) + [mem[..]]
    {
      hide Cleared, Sticks, AllStick, Landed;
      LandedIff(mem[..], a, w);
      ghost var m := mem[..];
      ProgramWord(a, w);
      assert mem[a..a + 4] == Landed(m, a, w);
      ok := mem[a..a + 4] == w;
    }

    /** Program the words that hold `size` bytes, reading each back; stop at the first that did not take. The
        last word is read from memory whole, so that `buf` has up to three more bytes. */
    method Write(offset: nat, buf: seq<bv8>, size: nat) returns (r: int)
      requires |buf| % 4 == 0 && size <= |buf| < size + 4 && offset + |buf| <= mem.Length
      modifies mem, `log
      ensures r == size || r == -1
      ensures r == size <==> AllStick(old(mem[..]), offset, buf)
      ensures r == size ==> mem[..] == Spliced(old(mem[..]), offset, buf)
      ensures SameOutside(old(mem[..]), mem[..], offset, |buf|)
      ensures r == -1 ==> exists n {:trigger StoppedAt(old(mem[..]), offset, buf, n, mem[..])} :: StoppedAt(old(mem[..]), offset, buf, n, mem[..])
      ensures r == size ==> |log| == |old(log)| + |buf| / 4 && old(log) <= log
      ensures r == size ==> forall n :: |old(log)| <= n < |log| ==> log[n] == Left(old(mem[..]), offset, buf, n - |old(log)|)
    {
      hide Cleared, Sticks, AllStick, Landed, Spliced;
      ghost var m := mem[..];
      SplicedNothing(m, offset, buf);
      var i := 0;
      while i < size
        invariant 0 <= i <= |buf| && i % 4 == 0 && mem[..] == Spliced(m, offset, buf[..i])
        invariant AllStick(m, offset, buf[..i])
        invariant old(log) <= log && |log| == |old(log)| + i / 4
        invariant forall n :: |old(log)| <= n < |log| ==> log[n] == Left(m, offset, buf, n - |old(log)|)
      {
        var ok := WriteWord(offset + i, buf[i..i + 4]);
        NextWord(m, offset, buf, i);
        if !ok {
          assert StoppedAt(m, offset, buf, i / 4, mem[..]);
          return -1;
        }
        i := i + 4;
      }
      assert buf[..|buf|] == buf;
      SplicedOutside(m, offset, buf, buf);
      r := size;
    }

    /** Erase the pages that `size` bytes from `offset` touch. */
    method Erase(offset: nat, size: nat) returns (r: int)
      requires offset % PAGE_SIZE == 0 && offset + Pages(size) * PAGE_SIZE <= mem.Length
      modifies mem, `log
      ensures r == size
      ensures forall k :: 0 <= k < mem.Length ==>
                mem[k] == if offset <= k < offset + Pages(size) * PAGE_SIZE then ERASED else old(mem[k])
      ensures |log| == |old(log)| + Pages(size) && old(log) <= log
      ensures forall n :: |old(log)| <= n < |log| ==> ErasedTo(old(mem[..]), offset, n - |old(log)| + 1, log[n])
    {
      var pages := size / PAGE_SIZE;
      if size % PAGE_SIZE != 0 {
        pages := pages + 1;
      }
      for i := 0 to pages
        invariant forall k :: 0 <= k < mem.Length ==> mem[k] == if offset <= k < offset + i * PAGE_SIZE then ERASED else old(mem[k])
        invariant |log| == |old(log)| + i && old(log) <= log
        invariant forall n :: |old(log)| <= n < |log| ==> ErasedTo(old(mem[..]), offset, n - |old(log)| + 1, log[n])
      {
        forall k | offset + i * PAGE_SIZE <= k < offset + (i + 1) * PAGE_SIZE { mem[k] := ERASED; }
        log := log + [mem[..]];
      }
      r := size;
    }
  }

  /** As few pages as hold `size` bytes. */
  function Pages(size: nat): (n: nat)
    ensures n * 2048 >= size > n * 2048 - 2048 || n == size == 0
  {
    (size + PAGE_SIZE - 1) / PAGE_SIZE
  }

  /** The first `n` pages from `offset` are erased, and nothing else has changed. */
  ghost predicate ErasedTo(m: seq<bv8>, offset: nat, n: nat, m': seq<bv8>) {
    |m'| == |m| && forall k :: 0 <= k < |m| ==> m'[k] == if offset <= k < offset + n * PAGE_SIZE then ERASED else m[k]
  }

  /** Memory after the first `n + 1` words of a write. */
  function Left(m: seq<bv8>, offset: nat, buf: seq<bv8>, n: nat): seq<bv8>
    requires offset + |buf| <= |m| && 4 * n + 4 <= |buf|
  {
    Spliced(m, offset, buf[..4 * n + 4])
  }

  /** The first `n` words are written, and the next one did not take. */
  ghost predicate StoppedAt(m: seq<bv8>, offset: nat, buf: seq<bv8>, n: nat, m': seq<bv8>) {
    && offset + |buf| <= |m| && 4 * n + 4 <= |buf| && AllStick(m, offset, buf[..4 * n])
    && var b, w := Spliced(m, offset, buf[..4 * n]), buf[4 * n..4 * n + 4];
       !AllStick(b, offset + 4 * n, w) && m' == Spliced(b, offset + 4 * n, Landed(b, offset + 4 * n, w))
  }

  predicate SameOutside(m: seq<bv8>, m': seq<bv8>, offset: nat, size: nat) {
    |m'| == |m| && forall k :: 0 <= k < |m| && !(offset <= k < offset + size) ==> m'[k] == m[k]
  }

  lemma LandedIff(m: seq<bv8>, a: nat, w: seq<bv8>)
    requires |w| == 4 && a + 4 <= |m|
    ensures Landed(m, a, w) == w <==> AllStick(m, a, w)
  {
    hide Cleared, Sticks;
    ClearedIff(m[a], w[0]);
    ClearedIff(m[a + 1], w[1]);
    ClearedIff(m[a + 2], w[2]);
    ClearedIff(m[a + 3], w[3]);
    var r := Landed(m, a, w);
    if r == w {
      assert r[0] == w[0] && r[1] == w[1] && r[2] == w[2] && r[3] == w[3];
      assert forall k {:trigger w[k]} :: 0 <= k < 4 ==> k == 0 || k == 1 || k == 2 || k == 3;
    }
  }

  lemma SplicedNothing(m: seq<bv8>, offset: nat, buf: seq<bv8>)
    requires offset + |buf| <= |m|
    ensures Spliced(m, offset, buf[..0]) == m && AllStick(m, offset, buf[..0])
  {
  }

  lemma SplicedOutside(m: seq<bv8>, offset: nat, part: seq<bv8>, buf: seq<bv8>)
    requires |part| <= |buf| && offset + |buf| <= |m|
    ensures SameOutside(m, Spliced(m, offset, part), offset, |buf|)
  {
  }

  /** One word further: what it leaves, and whether everything so far took. */
  lemma NextWord(m: seq<bv8>, offset: nat, buf: seq<bv8>, i: nat)
    requires offset + |buf| <= |m| && i + 4 <= |buf| && i % 4 == 0 && AllStick(m, offset, buf[..i])
    ensures var b, w := Spliced(m, offset, buf[..i]), buf[i..i + 4];
            && Spliced(b, offset + i, w) == Spliced(m, offset, buf[..i + 4]) == Left(m, offset, buf, i / 4)
            && (AllStick(b, offset + i, w) ==> AllStick(m, offset, buf[..i + 4]))
            && (!AllStick(b, offset + i, w) ==> !AllStick(m, offset, buf))
            && SameOutside(m, Spliced(b, offset + i, Landed(b, offset + i, w)), offset, |buf|)
  {
    hide Sticks, Cleared;
    var b, w := Spliced(m, offset, buf[..i]), buf[i..i + 4];
    assert forall k :: 0 <= k < 4 ==> b[offset + i + k] == m[offset + i + k] && w[k] == buf[i + k];
    if AllStick(b, offset + i, w) {
      forall k {:trigger buf[..i + 4][k]} | 0 <= k < i + 4 ensures Sticks(m[offset + k], buf[..i + 4][k]) {
        if k < i {
          assert buf[..i][k] == buf[k];
        } else {
          assert w[k - i] == buf[k];
        }
      }
    } else {
      var k :| 0 <= k < 4 && !Sticks(b[offset + i + k], w[k]);
      assert buf[i + k] == w[k];
    }
  }
}
