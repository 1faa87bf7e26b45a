/** The on-disk representation xv6-public/fs.c reads and writes: bytes, bitmap bits and the
    little-endian block numbers of an indirect block. Bit masks are written as div and mod. */
module FsFormat {
  import opened Powers

  const BSIZE := 512
  const NDIRECT := 12
  const NINDIRECT := 128
  const MAXFILE := NDIRECT + NINDIRECT
  const BPB := BSIZE * 8      // bitmap bits per block
  const IPB := 8              // inodes per block

  type Byte = x: nat | x < 256
  type Bytes = b: seq<Byte> | |b| == BSIZE witness seq(BSIZE, _ => 0)
  datatype Block = Block(b: Bytes)

  const ZeroBlock := Block(seq(BSIZE, _ => 0))

  // (x >> k & 1) != 0, that is (x & 1 << k) != 0
  predicate Bit(x: nat, k: nat) {
    if k == 0 then x % 2 == 1 else Bit(x / 2, k - 1)
  }

  // x | 1 << k
  function SetBit(x: nat, k: nat): (r: nat)
    ensures forall j: nat :: Bit(r, j) <==> j == k || Bit(x, j)
  {
    if k == 0 then x / 2 * 2 + 1 else SetBit(x / 2, k - 1) * 2 + x % 2
  }

  // x & ~(1 << k)
  function ClearBit(x: nat, k: nat): (r: nat)
    ensures forall j: nat :: Bit(r, j) <==> j != k && Bit(x, j)
    ensures r <= x
  {
    if k == 0 then x / 2 * 2 else ClearBit(x / 2, k - 1) * 2 + x % 2
  }

  lemma {:induction false} SetBitInByte(x: nat, k: nat, width: nat)
    requires k < width && x < Pow2(width)
    ensures SetBit(x, k) < Pow2(width)
    decreases width
  {
    var half := Pow2(width - 1);
    assert x < 2 * half && x / 2 < half;
    if k == 0 {
      assert SetBit(x, k) == x / 2 * 2 + 1;
    } else {
      SetBitInByte(x / 2, k - 1, width - 1);
      assert SetBit(x, k) == SetBit(x / 2, k - 1) * 2 + x % 2;
    }
  }

  function Word(blk: Block, j: nat): (w: nat)
    requires j < NINDIRECT
    ensures w < 0x1_0000_0000
  {
    var b0: nat, b1: nat, b2: nat, b3: nat := blk.b[4 * j], blk.b[4 * j + 1], blk.b[4 * j + 2], blk.b[4 * j + 3];
    b0 + 0x100 * b1 + 0x1_0000 * b2 + 0x100_0000 * b3
  }

  lemma LittleEndian(w: nat)
    requires w < 0x1_0000_0000
    ensures w == w % 0x100 + 0x100 * (w / 0x100 % 0x100) + 0x1_0000 * (w / 0x1_0000 % 0x100)
              + 0x100_0000 * (w / 0x100_0000)
  {
    assert w / 0x1_0000 == w / 0x100 / 0x100 && w / 0x100_0000 == w / 0x1_0000 / 0x100;
  }

  function SetWord(blk: Block, j: nat, w: nat): (r: Block)
    requires j < NINDIRECT && w < 0x1_0000_0000
    ensures Word(r, j) == w
    ensures forall k :: 0 <= k < NINDIRECT && k != j ==> Word(r, k) == Word(blk, k)
  {
    LittleEndian(w);
    Block(blk.b[4 * j := w % 0x100][4 * j + 1 := w / 0x100 % 0x100]
               [4 * j + 2 := w / 0x1_0000 % 0x100][4 * j + 3 := w / 0x100_0000])
  }

  lemma ZeroWords(j: nat)
    requires j < NINDIRECT
    ensures Word(ZeroBlock, j) == 0
  {
  }
}
