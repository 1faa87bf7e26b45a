/** Which inode owns which disk block: the pure part of the model of xv6-public/fs.c. */
module Ownership {
  import opened FsFormat
  import opened Bitmap

  datatype Inode = Inode(kind: int, size: nat, addrs: seq<nat>)

  // What an inode and its indirect block point to: at[bn] is the disk block of block bn of the
  // file, 0 for none; ind is the indirect block, 0 for none.
  datatype FileMap = FileMap(at: seq<nat>, ind: nat)

  const NoBlocks := FileMap(seq(MAXFILE, _ => 0), 0)

  ghost predicate Represents(ip: Inode, data: seq<Block>, m: FileMap) {
    && |ip.addrs| == NDIRECT + 1 && |m.at| == MAXFILE
    && m.ind == ip.addrs[NDIRECT] && m.ind < |data|
    && (forall i :: 0 <= i < NDIRECT ==> m.at[i] == ip.addrs[i])
    && (forall bn :: NDIRECT <= bn < MAXFILE ==> m.at[bn] == Entry(data, m.ind, bn - NDIRECT))
  }

  // Entry j of indirect block ind.
  function Entry(data: seq<Block>, ind: nat, j: nat): nat
    requires ind < |data| && j < NINDIRECT
  {
    if ind == 0 then 0 else Word(data[ind], j)
  }

  ghost predicate AllRepresent(inodes: seq<Inode>, data: seq<Block>, maps: seq<FileMap>) {
    |maps| == |inodes| && forall n :: 0 <= n < |inodes| ==> Represents(inodes[n], data, maps[n])
  }

  datatype Owner =
    | Meta                            // boot block, super block, log, inodes, bitmap
    | Holds(inum: nat, bn: nat)       // block bn of file inum, direct or listed in the indirect block
    | Indirect(inum: nat)             // the indirect block of inum

  type Owners = map<nat, Owner>

  predicate Belongs(o: Owner, n: nat) {
    !o.Meta? && o.inum == n
  }

  ghost predicate Owns(owner: Owners, b: nat, o: Owner) {
    b in owner && owner[b] == o
  }

  // Everything the map points to is recorded as owned by the place that points to it ...
  ghost predicate Claims(m: FileMap, n: nat, owner: Owners) {
    && |m.at| == MAXFILE
    && (forall bn :: 0 <= bn < MAXFILE && m.at[bn] != 0 ==> Owns(owner, m.at[bn], Holds(n, bn)))
    && (m.ind != 0 ==> Owns(owner, m.ind, Indirect(n)))
  }

  // ... and a recorded owner does point to the block.
  ghost predicate PointedTo(b: nat, o: Owner, maps: seq<FileMap>) {
    match o
    case Meta => true
    case Holds(n, bn) => n < |maps| && bn < |maps[n].at| && maps[n].at[bn] == b
    case Indirect(n) => n < |maps| && maps[n].ind == b
  }

  // owner is exactly the metadata blocks and, disjointly, every inode's blocks.
  ghost predicate Linked(nmeta: nat, size: nat, maps: seq<FileMap>, owner: Owners) {
    && 0 < nmeta <= size
    && (forall b :: 0 <= b < nmeta ==> b in owner && owner[b] == Meta)
    && (forall b :: b in owner ==> b < size && (owner[b].Meta? ==> b < nmeta) && PointedTo(b, owner[b], maps))
    && (forall n :: 0 <= n < |maps| ==> Claims(maps[n], n, owner))
  }

  // The bitmap's used blocks are the owned ones and those allocated but not yet pointed to.
  ghost predicate Accounted(bits: seq<Block>, size: nat, owner: Owners, loose: set<nat>) {
    && size / BPB < |bits|
    && (forall b :: 0 <= b < size ==> (Used(bits, b) <==> b in owner || b in loose))
    && (forall b :: b in loose ==> b < size && b !in owner)
  }

  // The panic "balloc: out of blocks" needs this.
  ghost predicate Full(bits: seq<Block>, size: nat) {
    size / BPB < |bits| && forall b :: 0 <= b < size ==> Used(bits, b)
  }

  lemma LinkBlock(nmeta: nat, size: nat, maps: seq<FileMap>, owner: Owners, n: nat, bn: nat, b: nat)
    requires Linked(nmeta, size, maps, owner) && n < |maps| && bn < |maps[n].at| && maps[n].at[bn] == 0
    requires b < size && b !in owner
    ensures Linked(nmeta, size, maps[n := maps[n].(at := maps[n].at[bn := b])], owner[b := Holds(n, bn)])
  {
    var maps', owner' := maps[n := maps[n].(at := maps[n].at[bn := b])], owner[b := Holds(n, bn)];
    assert 0 in owner && owner[0] == Meta;
    forall m | 0 <= m < |maps| ensures Claims(maps'[m], m, owner') {
      assert Claims(maps[m], m, owner);
    }
    forall c | c in owner' ensures PointedTo(c, owner'[c], maps') {
      if c != b { assert PointedTo(c, owner[c], maps); }
    }
  }

  lemma LinkIndirect(nmeta: nat, size: nat, maps: seq<FileMap>, owner: Owners, n: nat, b: nat)
    requires Linked(nmeta, size, maps, owner) && n < |maps| && maps[n].ind == 0
    requires b < size && b !in owner
    ensures Linked(nmeta, size, maps[n := maps[n].(ind := b)], owner[b := Indirect(n)])
  {
    var maps', owner' := maps[n := maps[n].(ind := b)], owner[b := Indirect(n)];
    assert 0 in owner && owner[0] == Meta;
    forall m | 0 <= m < |maps| ensures Claims(maps'[m], m, owner') {
      assert Claims(maps[m], m, owner);
    }
    forall c | c in owner' ensures PointedTo(c, owner'[c], maps') {
      if c != b { assert PointedTo(c, owner[c], maps); }
    }
  }

  // What inode n owns, from block bn of the file on, and its indirect block.
  ghost function Hanging(owner: Owners, n: nat, bn: nat): set<nat> {
    set b | b in owner && Belongs(owner[b], n) && (owner[b].Holds? ==> owner[b].bn >= bn)
  }

  // Forgetting everything n points to gives up exactly what it owns.
  lemma UnlinkAll(nmeta: nat, size: nat, maps: seq<FileMap>, owner: Owners, n: nat)
    requires Linked(nmeta, size, maps, owner) && n < |maps|
    ensures Linked(nmeta, size, maps[n := NoBlocks], owner - Hanging(owner, n, 0))
  {
    var maps', owner' := maps[n := NoBlocks], owner - Hanging(owner, n, 0);
    forall m | 0 <= m < |maps| ensures Claims(maps'[m], m, owner') {
      assert Claims(maps[m], m, owner);
    }
    forall c | c in owner' ensures PointedTo(c, owner'[c], maps') {
      assert PointedTo(c, owner[c], maps);
    }
  }

  // Block bn of the file, if mapped, is what Hanging loses from bn to bn + 1.
  lemma HangingStep(nmeta: nat, size: nat, maps: seq<FileMap>, owner: Owners, n: nat, bn: nat)
    requires Linked(nmeta, size, maps, owner) && n < |maps| && bn < |maps[n].at|
    ensures var b := maps[n].at[bn];
            && (b != 0 ==> b in Hanging(owner, n, bn) && Hanging(owner, n, bn + 1) == Hanging(owner, n, bn) - {b})
            && (b == 0 ==> Hanging(owner, n, bn + 1) == Hanging(owner, n, bn))
  {
    assert Claims(maps[n], n, owner);
    assert 0 in owner && owner[0] == Meta;
    forall c | c in owner && owner[c] == Holds(n, bn) ensures c == maps[n].at[bn] {
      assert PointedTo(c, owner[c], maps);
    }
  }

  lemma HangingEnd(nmeta: nat, size: nat, maps: seq<FileMap>, owner: Owners, n: nat)
    requires Linked(nmeta, size, maps, owner) && n < |maps|
    ensures Hanging(owner, n, MAXFILE) == if maps[n].ind == 0 then {} else {maps[n].ind}
  {
    assert Claims(maps[n], n, owner);
    assert 0 in owner && owner[0] == Meta;
    forall c | c in Hanging(owner, n, MAXFILE) ensures c == maps[n].ind && c != 0 {
      assert PointedTo(c, owner[c], maps);
    }
  }

  lemma AccountNew(bits: seq<Block>, size: nat, owner: Owners, b: nat, o: Owner)
    requires Accounted(bits, size, owner, {}) && b < size && !Used(bits, b)
    ensures b !in owner && Accounted(Mark(bits, b), size, owner[b := o], {})
  {
  }

  lemma AccountDetach(bits: seq<Block>, size: nat, owner: Owners, loose: set<nat>)
    requires Accounted(bits, size, owner, {}) && loose <= owner.Keys && forall b :: b in owner ==> b < size
    ensures Accounted(bits, size, owner - loose, loose)
  {
  }

  lemma AccountFree(bits: seq<Block>, size: nat, owner: Owners, loose: set<nat>, b: nat)
    requires Accounted(bits, size, owner, loose) && b in loose
    ensures b < size && b / BPB < |bits| && Used(bits, b) && Accounted(Unmark(bits, b), size, owner, loose - {b})
  {
    QuotientBound(b, size);
  }

  // Changing a block that is no inode's indirect block changes no map.
  lemma MapsKept(inodes: seq<Inode>, data: seq<Block>, maps: seq<FileMap>, b: nat, blk: Block)
    requires AllRepresent(inodes, data, maps) && b < |data|
    requires forall n :: 0 <= n < |maps| ==> maps[n].ind == 0 || maps[n].ind != b
    ensures AllRepresent(inodes, data[b := blk], maps)
  {
    forall n | 0 <= n < |inodes| ensures Represents(inodes[n], data[b := blk], maps[n]) {
      assert Represents(inodes[n], data, maps[n]);
    }
  }

  lemma NotIndirect(nmeta: nat, size: nat, maps: seq<FileMap>, owner: Owners, b: nat)
    requires Linked(nmeta, size, maps, owner) && !(b in owner && owner[b].Indirect?)
    ensures forall n :: 0 <= n < |maps| ==> maps[n].ind == 0 || maps[n].ind != b
  {
    forall n | 0 <= n < |maps| ensures maps[n].ind == 0 || maps[n].ind != b {
      assert Claims(maps[n], n, owner);
    }
  }

  lemma PointDirect(inodes: seq<Inode>, data: seq<Block>, maps: seq<FileMap>, n: nat, i: nat, b: nat)
    requires AllRepresent(inodes, data, maps) && n < |inodes| && i < NDIRECT
    ensures Represents(inodes[n], data, maps[n])
    ensures AllRepresent(inodes[n := inodes[n].(addrs := inodes[n].addrs[i := b])], data,
              maps[n := maps[n].(at := maps[n].at[i := b])])
  {
    assert Represents(inodes[n], data, maps[n]);
    var inodes', maps' := inodes[n := inodes[n].(addrs := inodes[n].addrs[i := b])],
        maps[n := maps[n].(at := maps[n].at[i := b])];
    forall m | 0 <= m < |inodes| ensures Represents(inodes'[m], data, maps'[m]) {
      assert Represents(inodes[m], data, maps[m]);
    }
  }

  lemma PointIndirect(inodes: seq<Inode>, data: seq<Block>, maps: seq<FileMap>, n: nat, b: nat)
    requires AllRepresent(inodes, data, maps) && n < |inodes| && 0 < b < |data| && data[b] == ZeroBlock
             && maps[n].ind == 0
    ensures |inodes[n].addrs| == NDIRECT + 1
    ensures AllRepresent(inodes[n := inodes[n].(addrs := inodes[n].addrs[NDIRECT := b])], data,
              maps[n := maps[n].(ind := b)])
  {
    assert Represents(inodes[n], data, maps[n]);
    var inodes', maps' := inodes[n := inodes[n].(addrs := inodes[n].addrs[NDIRECT := b])],
        maps[n := maps[n].(ind := b)];
    forall j | 0 <= j < NINDIRECT ensures Word(ZeroBlock, j) == 0 { ZeroWords(j); }
    forall m | 0 <= m < |inodes| ensures Represents(inodes'[m], data, maps'[m]) {
      assert Represents(inodes[m], data, maps[m]);
    }
  }

  lemma PointListed(inodes: seq<Inode>, data: seq<Block>, maps: seq<FileMap>, n: nat, j: nat, b: nat)
    requires AllRepresent(inodes, data, maps) && n < |inodes| && j < NINDIRECT && b < 0x1_0000_0000 && maps[n].ind != 0
    requires forall m :: 0 <= m < |maps| && m != n ==> maps[m].ind != maps[n].ind
    ensures maps[n].ind < |data| && |maps[n].at| == MAXFILE
    ensures AllRepresent(inodes, data[maps[n].ind := SetWord(data[maps[n].ind], j, b)],
              maps[n := maps[n].(at := maps[n].at[NDIRECT + j := b])])
  {
    assert Represents(inodes[n], data, maps[n]);
    var ind := maps[n].ind;
    var data', maps' := data[ind := SetWord(data[ind], j, b)], maps[n := maps[n].(at := maps[n].at[NDIRECT + j := b])];
    forall m | 0 <= m < |inodes| ensures Represents(inodes[m], data', maps'[m]) {
      assert Represents(inodes[m], data, maps[m]);
    }
  }

  lemma PointNowhere(inodes: seq<Inode>, data: seq<Block>, maps: seq<FileMap>, n: nat, ip: Inode)
    requires AllRepresent(inodes, data, maps) && n < |inodes| && 0 < |data|
    requires |ip.addrs| == NDIRECT + 1 && forall i :: 0 <= i <= NDIRECT ==> ip.addrs[i] == 0
    ensures AllRepresent(inodes[n := ip], data, maps[n := NoBlocks])
  {
    var inodes', maps' := inodes[n := ip], maps[n := NoBlocks];
    forall m | 0 <= m < |inodes| ensures Represents(inodes'[m], data, maps'[m]) {
      if m != n { assert Represents(inodes[m], data, maps[m]); }
    }
  }

  // Distinct inodes have distinct indirect blocks.
  lemma IndirectDistinct(nmeta: nat, size: nat, maps: seq<FileMap>, owner: Owners, n: nat)
    requires Linked(nmeta, size, maps, owner) && n < |maps| && maps[n].ind != 0
    ensures forall m :: 0 <= m < |maps| && m != n ==> maps[m].ind != maps[n].ind
  {
    assert Claims(maps[n], n, owner);
    forall m | 0 <= m < |maps| && m != n ensures maps[m].ind != maps[n].ind { assert Claims(maps[m], m, owner); }
  }

  // The maps do not depend on kinds and sizes.
  lemma Resize(inodes: seq<Inode>, data: seq<Block>, maps: seq<FileMap>, n: nat, size: nat)
    requires AllRepresent(inodes, data, maps) && n < |inodes|
    ensures AllRepresent(inodes[n := inodes[n].(size := size)], data, maps)
  {
    var inodes' := inodes[n := inodes[n].(size := size)];
    forall m | 0 <= m < |inodes| ensures Represents(inodes'[m], data, maps[m]) {
      assert Represents(inodes[m], data, maps[m]);
    }
  }

  predicate AllZero(blk: Block) { forall o :: 0 <= o < BSIZE ==> blk.b[o] == 0 }

  // What bmap(ip, bn) does: only block bn of file inum becomes mapped, to r, a zeroed block that was
  // free; what any inode owned stays its own, with the same contents except in the indirect block of inum.
  ghost predicate Mapped(m: FileMap, data: seq<Block>, owner: Owners,
                         m': FileMap, data': seq<Block>, owner': Owners, inum: nat, bn: nat, r: nat)
  {
    && |data'| == |data| && bn < |m.at| && r != 0
    && m'.at == m.at[bn := r] && m'.at[bn] == r
    && (m.ind != 0 || bn < NDIRECT ==> m'.ind == m.ind)
    && (bn >= NDIRECT ==> m'.ind != 0)
    && (m.at[bn] != 0 ==> m' == m && data' == data && owner' == owner)
    && (m.at[bn] == 0 ==> r !in owner && r < |data'| && AllZero(data'[r]))
    && (forall b :: b in owner ==> b in owner' && owner'[b] == owner[b])
    && (forall b :: b in owner && b < |data| && owner[b] != Indirect(inum) ==> data'[b] == data[b])
  }

  // Owners only grow, and blocks that were not inum's keep their contents.
  ghost predicate OthersKept(owner: Owners, data: seq<Block>, owner': Owners, data': seq<Block>, inum: nat) {
    && |data'| == |data|
    && (forall b :: b in owner ==> b in owner' && owner'[b] == owner[b])
    && (forall b :: b in owner && b < |data| && !Belongs(owner[b], inum) ==> data'[b] == data[b])
  }

  lemma KeptTwice(owner: Owners, data: seq<Block>, owner1: Owners, data1: seq<Block>, owner2: Owners,
                  data2: seq<Block>, inum: nat)
    requires OthersKept(owner, data, owner1, data1, inum) && OthersKept(owner1, data1, owner2, data2, inum)
    ensures OthersKept(owner, data, owner2, data2, inum)
  {
  }

  // The whole invariant of blocks and inodes.
  ghost predicate Sound(bits: seq<Block>, nmeta: nat, inodes: seq<Inode>, data: seq<Block>, maps: seq<FileMap>,
                        owner: Owners) {
    AllRepresent(inodes, data, maps) && Linked(nmeta, |data|, maps, owner) && Accounted(bits, |data|, owner, {})
  }

  lemma NewBlock(bits: seq<Block>, nmeta: nat, inodes: seq<Inode>, data: seq<Block>, maps: seq<FileMap>, owner: Owners,
                 b: nat)
    requires Sound(bits, nmeta, inodes, data, maps, owner) && b < |data| && !Used(bits, b)
    ensures b != 0 && b !in owner && AllRepresent(inodes, data[b := ZeroBlock], maps)
  {
    assert 0 in owner;
    NotIndirect(nmeta, |data|, maps, owner, b);
    MapsKept(inodes, data, maps, b, ZeroBlock);
  }

  // bmap's three allocations: a direct block, the indirect block, a block listed in it.
  lemma AddedDirect(bits: seq<Block>, nmeta: nat, inodes: seq<Inode>, data: seq<Block>, maps: seq<FileMap>,
                    owner: Owners,
                    n: nat, bn: nat, b: nat,
                    bits': seq<Block>, inodes': seq<Inode>, data': seq<Block>, maps': seq<FileMap>, owner': Owners)
    requires Sound(bits, nmeta, inodes, data, maps, owner) && b < |data| && !Used(bits, b)
    requires n < |inodes| && bn < NDIRECT && bn < |maps[n].at| && maps[n].at[bn] == 0 && bn < |inodes[n].addrs|
    requires bits' == Mark(bits, b) && data' == data[b := ZeroBlock]
    requires inodes' == inodes[n := inodes[n].(addrs := inodes[n].addrs[bn := b])]
    requires maps' == maps[n := maps[n].(at := maps[n].at[bn := b])] && owner' == owner[b := Holds(n, bn)]
    ensures Sound(bits', nmeta, inodes', data', maps', owner')
    ensures Mapped(maps[n], data, owner, maps'[n], data', owner', n, bn, b)
  {
    NewBlock(bits, nmeta, inodes, data, maps, owner, b);
    PointDirect(inodes, data', maps, n, bn, b);
    LinkBlock(nmeta, |data|, maps, owner, n, bn, b);
    AccountNew(bits, |data|, owner, b, Holds(n, bn));
  }

  lemma AddedIndirect(bits: seq<Block>, nmeta: nat, inodes: seq<Inode>, data: seq<Block>, maps: seq<FileMap>,
                      owner: Owners,
                      n: nat, b: nat,
                      bits': seq<Block>, inodes': seq<Inode>, data': seq<Block>, maps': seq<FileMap>, owner': Owners)
    requires Sound(bits, nmeta, inodes, data, maps, owner) && b < |data| && !Used(bits, b)
    requires n < |inodes| && maps[n].ind == 0 && NDIRECT < |inodes[n].addrs|
    requires bits' == Mark(bits, b) && data' == data[b := ZeroBlock]
    requires inodes' == inodes[n := inodes[n].(addrs := inodes[n].addrs[NDIRECT := b])]
    requires maps' == maps[n := maps[n].(ind := b)] && owner' == owner[b := Indirect(n)]
    ensures b != 0 && b !in owner && Sound(bits', nmeta, inodes', data', maps', owner')
  {
    NewBlock(bits, nmeta, inodes, data, maps, owner, b);
    PointIndirect(inodes, data', maps, n, b);
    LinkIndirect(nmeta, |data|, maps, owner, n, b);
    AccountNew(bits, |data|, owner, b, Indirect(n));
  }

  lemma AddedListed(bits: seq<Block>, nmeta: nat, inodes: seq<Inode>, data: seq<Block>, maps: seq<FileMap>,
                    owner: Owners,
                    n: nat, j: nat, bn: nat, ind: nat, b: nat,
                    bits': seq<Block>, data': seq<Block>, maps': seq<FileMap>, owner': Owners)
    requires Sound(bits, nmeta, inodes, data, maps, owner) && b < |data| < 0x1_0000_0000 && !Used(bits, b)
    requires n < |inodes| && j < NINDIRECT && bn == NDIRECT + j < |maps[n].at| && maps[n].at[bn] == 0
    requires 0 < ind == maps[n].ind < |data|
    requires bits' == Mark(bits, b) && data' == data[b := ZeroBlock][ind := SetWord(data[ind], j, b)]
    requires maps' == maps[n := maps[n].(at := maps[n].at[bn := b])] && owner' == owner[b := Holds(n, bn)]
    ensures Sound(bits', nmeta, inodes, data', maps', owner')
    ensures Mapped(maps[n], data, owner, maps'[n], data', owner', n, bn, b)
  {
    NewBlock(bits, nmeta, inodes, data, maps, owner, b);
    IndirectDistinct(nmeta, |data|, maps, owner, n);
    assert Claims(maps[n], n, owner);
    PointListed(inodes, data[b := ZeroBlock], maps, n, j, b);
    LinkBlock(nmeta, |data|, maps, owner, n, bn, b);
    AccountNew(bits, |data|, owner, b, Holds(n, bn));
  }

  // The log knows of every block of the bitmap and of the data that has changed.
  ghost predicate Covered(bits: seq<Block>, data: seq<Block>, logged: set<nat>,
                          bits': seq<Block>, data': seq<Block>, logged': set<nat>, bmapstart: nat)
  {
    && |bits'| == |bits| && |data'| == |data| && logged <= logged'
    && (forall k :: 0 <= k < |bits| && bits'[k] != bits[k] ==> k + bmapstart in logged')
    && (forall b :: 0 <= b < |data| && data'[b] != data[b] ==> b in logged')
  }

  lemma CoveredTwice(bits: seq<Block>, data: seq<Block>, logged: set<nat>, bits1: seq<Block>, data1: seq<Block>,
                     logged1: set<nat>,
                     bits2: seq<Block>, data2: seq<Block>, logged2: set<nat>, bmapstart: nat)
    requires Covered(bits, data, logged, bits1, data1, logged1, bmapstart)
    requires Covered(bits1, data1, logged1, bits2, data2, logged2, bmapstart)
    ensures Covered(bits, data, logged, bits2, data2, logged2, bmapstart)
  {
  }

  // balloc logs the bitmap block and the block.
  lemma ClaimCovered(bits: seq<Block>, data: seq<Block>, logged: set<nat>, b: nat, bmapstart: nat,
                     bits': seq<Block>, data': seq<Block>, logged': set<nat>)
    requires b / BPB < |bits| && b < |data| && bits' == Mark(bits, b) && data' == data[b := ZeroBlock]
    requires logged' == logged + {b / BPB + bmapstart, b}
    ensures Covered(bits, data, logged, bits', data', logged', bmapstart)
  {
    forall k | 0 <= k < |bits| && bits'[k] != bits[k] ensures k == b / BPB { }
  }

  // A block of data written and logged after that.
  lemma WriteCovered(bits: seq<Block>, data: seq<Block>, logged: set<nat>, bits1: seq<Block>, data1: seq<Block>,
                     logged1: set<nat>,
                     b: nat, blk: Block, bmapstart: nat, data2: seq<Block>, logged2: set<nat>)
    requires Covered(bits, data, logged, bits1, data1, logged1, bmapstart)
    requires b < |data1| && data2 == data1[b := blk] && logged2 == logged1 + {b}
    ensures Covered(bits, data, logged, bits1, data2, logged2, bmapstart)
  {
  }

  // bfree logs the bitmap block.
  lemma FreeCovered(bits: seq<Block>, data: seq<Block>, logged: set<nat>, b: nat, bmapstart: nat,
                    bits': seq<Block>, logged': set<nat>)
    requires b / BPB < |bits| && bits' == Unmark(bits, b) && logged' == logged + {b / BPB + bmapstart}
    ensures Covered(bits, data, logged, bits', data, logged', bmapstart)
  {
    forall k | 0 <= k < |bits| && bits'[k] != bits[k] ensures k == b / BPB { }
  }

  lemma MoreCovered(bits: seq<Block>, data: seq<Block>, logged: set<nat>, bits': seq<Block>, data': seq<Block>,
                    logged1: set<nat>, logged2: set<nat>, bmapstart: nat)
    requires Covered(bits, data, logged, bits', data', logged1, bmapstart) && logged1 <= logged2
    ensures Covered(bits, data, logged, bits', data', logged2, bmapstart)
  {
  }

  lemma SameCovered(bits: seq<Block>, data: seq<Block>, logged: set<nat>, logged': set<nat>, bmapstart: nat)
    requires logged <= logged'
    ensures Covered(bits, data, logged, bits, data, logged', bmapstart)
  {
  }

  // Reading a map off the inode and its indirect block, as bmap does.
  lemma Lookup(inodes: seq<Inode>, data: seq<Block>, maps: seq<FileMap>, n: nat)
    requires AllRepresent(inodes, data, maps) && n < |inodes|
    ensures var ip, m := inodes[n], maps[n];
            |ip.addrs| == NDIRECT + 1 && |m.at| == MAXFILE && ip.addrs[NDIRECT] == m.ind < |data|
  {
    assert Represents(inodes[n], data, maps[n]);
  }

  lemma LookupDirect(inodes: seq<Inode>, data: seq<Block>, maps: seq<FileMap>, n: nat, i: nat)
    requires AllRepresent(inodes, data, maps) && n < |inodes| && i < NDIRECT
    ensures i < |inodes[n].addrs| && i < |maps[n].at| && maps[n].at[i] == inodes[n].addrs[i]
  {
    assert Represents(inodes[n], data, maps[n]);
  }

  lemma LookupListed(inodes: seq<Inode>, data: seq<Block>, maps: seq<FileMap>, n: nat, j: nat)
    requires AllRepresent(inodes, data, maps) && n < |inodes| && j < NINDIRECT && maps[n].ind < |data|
             && NDIRECT + j < |maps[n].at|
    ensures maps[n].at[NDIRECT + j] == if maps[n].ind == 0 then 0 else Word(data[maps[n].ind], j)
  {
    assert Represents(inodes[n], data, maps[n]);
    assert maps[n].at[NDIRECT + j] == Entry(data, maps[n].ind, j);
  }

  // bmap logs nothing but the block it returns, the indirect block and bitmap blocks.
  ghost predicate LogsOnly(before: set<nat>, after: set<nat>, bitmap: set<nat>, r: nat, ind: nat) {
    forall x :: x in after ==> x in before || x == r || (x == ind && x != 0) || x in bitmap
  }

  lemma LogsOne(before: set<nat>, bitmap: set<nat>, r: nat, b: nat, ind: nat)
    requires b in bitmap
    ensures LogsOnly(before, before + {b, r}, bitmap, r, ind)
    ensures ind != 0 ==> LogsOnly(before, before + {b, r} + {ind}, bitmap, r, ind)
  {
  }

  lemma LogsTwo(before: set<nat>, bitmap: set<nat>, r: nat, b: nat, ind: nat, b': nat)
    requires b in bitmap && b' in bitmap && ind != 0
    ensures LogsOnly(before, before + {b, ind} + {b', r} + {ind}, bitmap, r, ind)
  {
  }

  // A new, empty indirect block followed by an entry in it is one step of bmap.
  lemma MappedBoth(m: FileMap, data: seq<Block>, owner: Owners, b: nat, m': FileMap, data': seq<Block>, owner': Owners,
                   n: nat, bn: nat, r: nat)
    requires b < |data| && b !in owner && b != 0 && bn < |m.at| && m.at[bn] == 0 && m.ind == 0
    requires Mapped(m.(ind := b), data[b := ZeroBlock], owner[b := Indirect(n)], m', data', owner', n, bn, r)
    requires NDIRECT <= bn
    ensures Mapped(m, data, owner, m', data', owner', n, bn, r)
  {
  }

  // Without an indirect block nothing past the direct blocks is owned.
  lemma HangingNone(nmeta: nat, size: nat, inodes: seq<Inode>, data: seq<Block>, maps: seq<FileMap>, owner: Owners,
                    n: nat)
    requires AllRepresent(inodes, data, maps) && Linked(nmeta, size, maps, owner) && n < |maps| && maps[n].ind == 0
    ensures Hanging(owner, n, NDIRECT) == {}
  {
    Lookup(inodes, data, maps, n);
    assert 0 in owner && owner[0] == Meta;
    forall c | c in Hanging(owner, n, NDIRECT) ensures false {
      assert PointedTo(c, owner[c], maps);
      if owner[c].Holds? { LookupListed(inodes, data, maps, n, owner[c].bn - NDIRECT); }
    }
  }

  // Of all blocks, those that belonged to n went from used to free, and no other changed.
  ghost predicate FreedExactly(bits: seq<Block>, bits': seq<Block>, size: nat, owner: Owners, n: nat) {
    && size / BPB < |bits| && size / BPB < |bits'|
    && forall b :: 0 <= b < size ==> (Used(bits', b) <==> Used(bits, b) && !(b in owner && Belongs(owner[b], n)))
  }
}
