/** Splitting words into bytes and joining bytes into words. */
module Words {

  function Hi(c: bv16): bv8 { (c >> 8) as bv8 }

  function Lo(c: bv16): bv8 { (c & 0xFF) as bv8 }

  function Join16(hi: bv8, lo: bv8): bv16 { ((hi as bv16) << 8) + (lo as bv16) }

  function Byte(d: bv32, n: nat): bv8
    requires n < 4
  {
    if n == 0 then (d & 0xFF) as bv8
    else if n == 1 then ((d >> 8) & 0xFF) as bv8
    else if n == 2 then ((d >> 16) & 0xFF) as bv8
    else (d >> 24) as bv8
  }

  function Join32(b3: bv8, b2: bv8, b1: bv8, b0: bv8): bv32 {
    ((b3 as bv32) << 24) + ((b2 as bv32) << 16) + ((b1 as bv32) << 8) + (b0 as bv32)
  }

  lemma SplitJoin16(x: bv16)
    ensures Join16(Hi(x), Lo(x)) == x
  {
  }

  lemma JoinSplit16(hi: bv8, lo: bv8)
    ensures Hi(Join16(hi, lo)) == hi && Lo(Join16(hi, lo)) == lo
  {
  }

  lemma SplitJoin32(x: bv32)
    ensures Join32(Byte(x, 3), Byte(x, 2), Byte(x, 1), Byte(x, 0)) == x
  {
  }

  lemma JoinSplit32(b3: bv8, b2: bv8, b1: bv8, b0: bv8)
    ensures var x := Join32(b3, b2, b1, b0); Byte(x, 3) == b3 && Byte(x, 2) == b2 && Byte(x, 1) == b1 && Byte(x, 0) == b0
  {
  }

  /** Shifted into place, the bytes spell the word, the high one first. */
  lemma Spelled16(x: bv16)
    ensures ((Hi(x) as bv16) << 8) | (Lo(x) as bv16) == x
  {
  }

  lemma Spelled32(x: bv32)
    ensures ((Byte(x, 3) as bv32) << 24) | ((Byte(x, 2) as bv32) << 16) | ((Byte(x, 1) as bv32) << 8) | (Byte(x, 0) as bv32) == x
  {
  }
}
