/** The inode blocks of xv6-public/fs.c: struct dinode of xv6-public/fs.h, as iupdate writes it. */
module InodeFormat {
  import opened FsFormat
  import opened Ownership

  const DINODEWORDS := 16   // sizeof(struct dinode) / sizeof(uint)

  // Word i of the inode in a slot of an inode block.
  function SlotWord(blk: Block, slot: nat, i: nat): (w: nat)
    requires slot < IPB && i < DINODEWORDS
    ensures w < 0x1_0000_0000
  {
    Word(blk, DINODEWORDS * slot + i)
  }

  function Slot(blk: Block, slot: nat): (s: seq<nat>)
    requires slot < IPB
    ensures |s| == DINODEWORDS && forall i :: 0 <= i < DINODEWORDS ==> s[i] == SlotWord(blk, slot, i)
  {
    seq(DINODEWORDS, i requires 0 <= i < DINODEWORDS => SlotWord(blk, slot, i))
  }

  // type and major share word 0, minor and nlink word 1; then come size and addrs.
  function Decode(s: seq<nat>): Inode
    requires |s| == DINODEWORDS
  {
    Inode(s[0] % 0x1_0000, s[2], s[3..])
  }

  // The little-endian number in the four bytes from i on.
  function Number(b: seq<nat>, i: nat): nat
    requires i + 4 <= |b|
  {
    b[i] + 0x100 * b[i + 1] + 0x1_0000 * b[i + 2] + 0x100_0000 * b[i + 3]
  }

  // In two bytes.
  function Short(b: seq<nat>, i: nat): nat
    requires i + 2 <= |b|
  {
    b[i] + 0x100 * b[i + 1]
  }

  /** struct dinode in bytes: 64 of them, type first, size at 8 and addrs from 12 on. */
  lemma InodeBytes(blk: Block, slot: nat)
    requires slot < IPB
    ensures var ip, o := DinodeAt(blk, slot), 64 * slot;
            && |blk.b| == 512 && o + 64 <= 512
            && ip.kind == Short(blk.b, o) && ip.size == Number(blk.b, o + 8)
            && |ip.addrs| == 13 && forall i :: 0 <= i < 13 ==> ip.addrs[i] == Number(blk.b, o + 12 + 4 * i)
  {
    var s, o := Slot(blk, slot), 64 * slot;
    forall i | 0 <= i < DINODEWORDS ensures s[i] == Number(blk.b, o + 4 * i) {
      assert 4 * (DINODEWORDS * slot + i) == o + 4 * i;
    }
    forall i | 0 <= i < 13 ensures s[3..][i] == Number(blk.b, o + 12 + 4 * i) {
      assert s[3..][i] == s[3 + i] && o + 4 * (3 + i) == o + 12 + 4 * i;
    }
    LowHalf(blk.b[o], blk.b[o + 1], blk.b[o + 2], blk.b[o + 3]);
  }

  lemma LowHalf(a: nat, b: nat, c: nat, d: nat)
    requires a < 0x100 && b < 0x100
    ensures (a + 0x100 * b + 0x1_0000 * c + 0x100_0000 * d) % 0x1_0000 == a + 0x100 * b
  {
  }

  // The fields fit their places.
  predicate Storable(ip: Inode) {
    && 0 <= ip.kind < 0x1_0000 && ip.size < 0x1_0000_0000
    && |ip.addrs| == NDIRECT + 1 && forall i :: 0 <= i <= NDIRECT ==> ip.addrs[i] < 0x1_0000_0000
  }

  // iupdate, for the fields that are modelled.
  function Encode(s: seq<nat>, ip: Inode): (r: seq<nat>)
    requires |s| == DINODEWORDS && Storable(ip)
    ensures |r| == DINODEWORDS && Decode(r) == ip
  {
    [s[0] / 0x1_0000 * 0x1_0000 + ip.kind, s[1], ip.size] + ip.addrs
  }

  // Words from j on hold s.
  function PutWords(blk: Block, j: nat, s: seq<nat>): (r: Block)
    requires j + |s| <= NINDIRECT && forall i :: 0 <= i < |s| ==> s[i] < 0x1_0000_0000
    ensures forall i :: 0 <= i < |s| ==> Word(r, j + i) == s[i]
    ensures forall k :: 0 <= k < NINDIRECT && !(j <= k < j + |s|) ==> Word(r, k) == Word(blk, k)
  {
    if s == [] then blk
    else
      var last := |s| - 1;
      SetWord(PutWords(blk, j, s[..last]), j + last, s[last])
  }

  function DinodeAt(blk: Block, slot: nat): Inode
    requires slot < IPB
  {
    Decode(Slot(blk, slot))
  }

  lemma EncodedFits(s: seq<nat>, ip: Inode)
    requires |s| == DINODEWORDS && Storable(ip) && s[0] < 0x1_0000_0000 && s[1] < 0x1_0000_0000
    ensures forall i :: 0 <= i < DINODEWORDS ==> Encode(s, ip)[i] < 0x1_0000_0000
  {
    forall i | 0 <= i < DINODEWORDS ensures Encode(s, ip)[i] < 0x1_0000_0000 {
      if i >= 3 { assert Encode(s, ip)[i] == ip.addrs[i - 3]; }
    }
  }

  function PutInode(blk: Block, slot: nat, ip: Inode): Block
    requires slot < IPB && Storable(ip)
  {
    EncodedFits(Slot(blk, slot), ip);
    PutWords(blk, DINODEWORDS * slot, Encode(Slot(blk, slot), ip))
  }

  // The inode reads back, and the others of the block are as they were.
  lemma InodeStored(blk: Block, slot: nat, ip: Inode, other: nat)
    requires slot < IPB && Storable(ip) && other < IPB
    ensures DinodeAt(PutInode(blk, slot, ip), other) == if other == slot then ip else DinodeAt(blk, other)
  {
    EncodedFits(Slot(blk, slot), ip);
    var s := Encode(Slot(blk, slot), ip);
    SlotAfter(blk, slot, s, other);
  }

  lemma SlotAfter(blk: Block, slot: nat, s: seq<nat>, other: nat)
    requires |s| == DINODEWORDS && slot < IPB && other < IPB && forall i :: 0 <= i < DINODEWORDS ==>
               s[i] < 0x1_0000_0000
    ensures Slot(PutWords(blk, DINODEWORDS * slot, s), other) == if other == slot then s else Slot(blk, other)
  {
    var r := PutWords(blk, DINODEWORDS * slot, s);
    forall i | 0 <= i < DINODEWORDS
      ensures SlotWord(r, other, i) == if other == slot then s[i] else SlotWord(blk, other, i) {
      SlotWordAfter(blk, slot, s, other, i);
    }
  }

  lemma SlotWordAfter(blk: Block, slot: nat, s: seq<nat>, other: nat, i: nat)
    requires |s| == DINODEWORDS && slot < IPB && other < IPB && i < DINODEWORDS
    requires forall i :: 0 <= i < DINODEWORDS ==> s[i] < 0x1_0000_0000
    ensures SlotWord(PutWords(blk, DINODEWORDS * slot, s), other, i) == if other == slot then s[i]
              else SlotWord(blk, other, i)
  {
  }
}
