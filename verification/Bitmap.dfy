/** The block bitmap of xv6-public/fs.c: one bit for each block of the disk. */
module Bitmap {
  import opened FsFormat

  // Bit of block b, in the bitmap block and byte that BBLOCK and b % BPB / 8 select.
  predicate Used(bits: seq<Block>, b: nat)
    requires b / BPB < |bits|
  {
    Bit(bits[b / BPB].b[b % BPB / 8], b % 8)
  }

  function WithByte(bits: seq<Block>, b: nat, x: Byte): seq<Block>
    requires b / BPB < |bits|
  {
    bits[b / BPB := Block(bits[b / BPB].b[b % BPB / 8 := x])]
  }

  function Mark(bits: seq<Block>, b: nat): (r: seq<Block>)
    requires b / BPB < |bits|
    ensures |r| == |bits|
    ensures forall c: nat :: c / BPB < |bits| ==> (Used(r, c) <==> c == b || Used(bits, c))
  {
    var x := bits[b / BPB].b[b % BPB / 8];
    SetBitInByte(x, b % 8, 8);
    SameBit(b);
    WithByte(bits, b, SetBit(x, b % 8))
  }

  function Unmark(bits: seq<Block>, b: nat): (r: seq<Block>)
    requires b / BPB < |bits|
    ensures |r| == |bits|
    ensures forall c: nat :: c / BPB < |bits| ==> (Used(r, c) <==> c != b && Used(bits, c))
  {
    SameBit(b);
    WithByte(bits, b, ClearBit(bits[b / BPB].b[b % BPB / 8], b % 8))
  }

  // bfree's way of finding the byte and the bit.
  lemma UnmarkIs(bits: seq<Block>, b: nat, bi: nat)
    requires b / BPB < |bits| && bi == b % BPB
    ensures Unmark(bits, b) ==
              bits[b / BPB := Block(bits[b / BPB].b[bi / 8 := ClearBit(bits[b / BPB].b[bi / 8], bi % 8)])]
  {
    assert bi % 8 == b % 8;
  }

  // Blocks 0 .. n - 1 are in use.
  ghost predicate AllUsed(bits: seq<Block>, n: nat) {
    forall c :: 0 <= c < n ==> c / BPB < |bits| && Used(bits, c)
  }

  // The free blocks among the first size.
  ghost function FreeSet(bits: seq<Block>, size: nat): set<nat> {
    set b: nat | b < size && b / BPB < |bits| && !Used(bits, b)
  }

  lemma MarkTakesOne(bits: seq<Block>, size: nat, b: nat, bits': seq<Block>)
    requires b < size && b / BPB < |bits| && !Used(bits, b) && bits' == Mark(bits, b)
    ensures |FreeSet(bits', size)| == |FreeSet(bits, size)| - 1
  {
    assert FreeSet(bits', size) == FreeSet(bits, size) - {b};
  }

  lemma FromParts(x: nat, k: nat, m: nat)
    requires x == 8 * k + m && m < 8
    ensures x % 8 == m
  {
  }

  lemma Digits(c: nat)
    ensures c == 4096 * (c / BPB) + 8 * (c % BPB / 8) + c % 8
  {
    var q, r := c / BPB, c % BPB;
    var e, m := r / 8, r % 8;
    assert c == 4096 * q + r && r == 8 * e + m;
    FromParts(c, 512 * q + e, m);
  }

  // The bitmap gives different blocks different bits.
  lemma SameBit(b: nat)
    ensures forall c: nat :: c / BPB == b / BPB && c % BPB / 8 == b % BPB / 8 && c % 8 == b % 8 ==> c == b
  {
    Digits(b);
    forall c: nat | c / BPB == b / BPB && c % BPB / 8 == b % BPB / 8 && c % 8 == b % 8 ensures c == b {
      Digits(c);
    }
  }

  // The bi-th bit of the bitmap block that starts at block b.
  lemma SplitIndex(b: nat, bi: nat)
    requires b % BPB == 0 && bi < BPB
    ensures (b + bi) / BPB == b / BPB && (b + bi) % BPB == bi && (b + bi) % 8 == bi % 8
  {
    assert b == b / BPB * BPB;
  }

  lemma NextMultiple(b: nat)
    requires b % BPB == 0
    ensures (b + BPB) % BPB == 0
  {
  }

  lemma QuotientBound(b: nat, c: nat)
    requires b <= c
    ensures b / BPB <= c / BPB
  {
  }
}
