/** The block allocator and the inode operations of xv6-public/fs.c, on the blocks as the open
    transaction sees them. The bitmap, the on-disk inodes and all other blocks are kept in
    separate fields; logged collects the block numbers passed to log_write. */
module Fs {
  import opened Param
  import opened Sets
  import opened FsFormat
  import opened Bitmap
  import opened Ownership
  import opened Content

  const T_DEV := 3

  // The blocks that hold the bits of blocks 0 .. size - 1.
  ghost function BlocksOfBitmap(size: nat, bmapstart: nat): (r: set<nat>)
    ensures forall b :: 0 <= b < size ==> b / BPB + bmapstart in r
    ensures size <= BPB ==> r <= {bmapstart}
  {
    if size == 0 then {} else BlocksOfBitmap(size - 1, bmapstart) + {(size - 1) / BPB + bmapstart}
  }

  // Blocks 0 .. NBlocks(size) - 1 of the file are mapped and no others, and the indirect block is
  // there exactly when one of them needs it.
  ghost predicate Compact(m: FileMap, data: seq<Block>, k: nat) {
    Dense(m.at, data, k) && (m.ind != 0 <==> k > NDIRECT)
  }

  // The blocks bmap allocates for block bn of a file.
  function Wants(m: FileMap, bn: nat): nat {
    if bn < |m.at| && m.at[bn] != 0 then 0 else if bn < NDIRECT || m.ind != 0 then 1 else 2
  }

  // The blocks of a file of k blocks, the indirect block included.
  function Cost(k: nat): nat { if k > NDIRECT then k + 1 else k }

  // The blocks writei allocates in a file of size bytes, to reach end.
  function Need(size: nat, end: nat): nat { Cost(Extent(size, end)) - Cost(NBlocks(size)) }

  // After bmap(ip, bn) returned r, the blocks of file n are as StepWrote says once part of r is replaced.
  lemma ChunkWritten(m: FileMap, data: seq<Block>, owner: Owners, m': FileMap, data': seq<Block>, owner': Owners,
                     n: nat, bn: nat, r: nat, pos: nat, chunk: seq<Byte>, k: nat)
    requires Mapped(m, data, owner, m', data', owner', n, bn, r) && Claims(m, n, owner) && Claims(m', n, owner')
    requires Compact(m, data, k) && bn <= k && bn < MAXFILE && pos + |chunk| <= BSIZE && r < |data'|
    ensures var data'' := data'[r := Block(Splice(data'[r].b, pos, chunk))];
            && StepWrote(m.at, data, m'.at, data'', bn, pos, chunk, k)
            && Compact(m', data'', if bn < k then k else bn + 1)
            && OthersKept(owner, data, owner', data'', n)
  {
    assert m'.at[bn] == r && Owns(owner', r, Holds(n, bn));
    forall i | 0 <= i < k && i != bn ensures m.at[i] != r && data'[m.at[i]] == data[m.at[i]] {
      assert Owns(owner, m.at[i], Holds(n, i)) && m'.at[i] == m.at[i] && Owns(owner', m.at[i], Holds(n, i));
    }
  }

  lemma InClaim(bits: seq<Block>, nmeta: nat, inodes: seq<Inode>, data: seq<Block>, maps: seq<FileMap>, owner: Owners,
                n: nat)
    requires Sound(bits, nmeta, inodes, data, maps, owner) && n < |maps|
    ensures Claims(maps[n], n, owner) && forall bn :: 0 <= bn < |maps[n].at| && maps[n].at[bn] != 0 ==>
              maps[n].at[bn] < |data|
  {
    assert Claims(maps[n], n, owner);
    forall bn | 0 <= bn < |maps[n].at| && maps[n].at[bn] != 0 ensures maps[n].at[bn] < |data| {
      assert Owns(owner, maps[n].at[bn], Holds(n, bn));
    }
  }

  // Replacing a block that holds file data keeps the whole invariant.
  lemma DataWritten(bits: seq<Block>, nmeta: nat, inodes: seq<Inode>, data: seq<Block>, maps: seq<FileMap>,
                    owner: Owners,
                    n: nat, bn: nat, blk: Block)
    requires Sound(bits, nmeta, inodes, data, maps, owner) && n < |maps| && bn < |maps[n].at| && maps[n].at[bn] != 0
    ensures maps[n].at[bn] < |data|
    ensures Sound(bits, nmeta, inodes, data[maps[n].at[bn] := blk], maps, owner)
  {
    assert Claims(maps[n], n, owner);
    assert Owns(owner, maps[n].at[bn], Holds(n, bn));
    NotIndirect(nmeta, |data|, maps, owner, maps[n].at[bn]);
    MapsKept(inodes, data, maps, maps[n].at[bn], blk);
  }

  // The file system when writei starts.
  datatype Start = Start(inodes: seq<Inode>, maps: seq<FileMap>, bits: seq<Block>, data: seq<Block>, owner: Owners,
                         logged: set<nat>)

  // What is known of writei's target after tot bytes, apart from the other inodes.
  ghost predicate Progress(was: seq<Byte>, m: FileMap, data: seq<Block>, logged: set<nat>, before: set<nat>,
                           bitmap: set<nat>,
                           src: seq<Byte>, off: nat, tot: nat)
  {
    && WrittenTo(was, m.at, data, src, off, tot)
    && Compact(m, data, Extent(|was|, off + tot))
    && Footprint(logged, before, bitmap, m.ind, m.at, off / BSIZE, NBlocks(off + tot))
  }

  lemma TurnFootprint(m: FileMap, data: seq<Block>, logged: set<nat>, before: set<nat>, bitmap: set<nat>, lo: nat,
                      hi: nat,
                      m': FileMap, data': seq<Block>, logged': set<nat>, bn: nat, pos: nat, chunk: seq<Byte>, k: nat,
                          hi': nat)
    requires Footprint(logged, before, bitmap, m.ind, m.at, lo, hi) && lo <= bn && (hi == bn || hi == bn + 1)
             && hi <= k && hi' == bn + 1
    requires StepWrote(m.at, data, m'.at, data', bn, pos, chunk, k) && (m.ind != 0 ==> m'.ind == m.ind)
    requires LogsOnly(logged, logged', bitmap, m'.at[bn], m'.ind)
    ensures Footprint(logged', before, bitmap, m'.ind, m'.at, lo, hi')
  {
    FootprintStep(logged, before, bitmap, m.ind, m.at, logged', m'.ind, m'.at, lo, hi, bn);
  }

  // One turn takes from the free blocks exactly what the file grows by.
  lemma TurnCost(size: nat, end: nat, len: nat, end': nat, m: FileMap, data: seq<Block>, bn: nat, k: nat)
    requires 0 < len && end % BSIZE + len <= BSIZE && end' == end + len <= MAXFILE * BSIZE
    requires bn == end / BSIZE && k == Extent(size, end) && Compact(m, data, k)
    ensures Cost(Extent(size, end')) == Cost(k) + Wants(m, bn)
  {
    TurnEnds(size, end, len, end');
    TurnArithmetic(size, end, len);
  }

  // The free blocks and the size of the file when writei starts.
  datatype Account = Account(free: nat, was: nat)

  // What was free at the start is what is free now and what the file has grown by to reach off + tot.
  ghost predicate Balance(a: Account, free: int, off: nat, tot: nat) {
    match a
    case Account(start, was) => free + Cost(Extent(was, off + tot)) == start + Cost(NBlocks(was))
  }

  // Not enough was free at the start to reach off + n.
  ghost predicate Lacking(a: Account, off: nat, n: nat) {
    match a
    case Account(start, was) => start < Need(was, off + n)
  }

  // A turn that takes the wants blocks of bn.
  lemma TurnBalance(a: Account, free: nat, off: nat, tot: nat, len: nat, tot': nat, m: FileMap, data: seq<Block>,
                    bn: nat, k: nat, free': int)
    requires 0 < len && (off + tot) % BSIZE + len <= BSIZE && tot' == tot + len && off + tot' <= MAXFILE * BSIZE
    requires bn == (off + tot) / BSIZE && k == Extent(a.was, off + tot) && Compact(m, data, k)
    requires Balance(a, free, off, tot) && free' == free - Wants(m, bn)
    ensures Balance(a, free', off, tot')
  {
    TurnCost(a.was, off + tot, len, off + tot', m, data, bn, k);
  }

  // A turn for which they are not there.
  lemma TurnLacking(a: Account, free: nat, off: nat, tot: nat, len: nat, tot': nat, n: nat, m: FileMap,
                    data: seq<Block>, bn: nat, k: nat)
    requires 0 < len && (off + tot) % BSIZE + len <= BSIZE && tot' == tot + len <= n && off + n <= MAXFILE * BSIZE
    requires bn == (off + tot) / BSIZE && k == Extent(a.was, off + tot) && Compact(m, data, k)
    requires Balance(a, free, off, tot) && free < Wants(m, bn)
    ensures Lacking(a, off, n)
  {
    TurnCost(a.was, off + tot, len, off + tot', m, data, bn, k);
    CostGrows(a.was, off + tot', off + n);
  }

  // All of it was there exactly if nothing was lacking.
  lemma Settles(a: Account, free: int, off: nat, n: nat)
    requires Balance(a, free, off, n)
    ensures free == a.free - Need(a.was, off + n) && (free >= 0 ==> !Lacking(a, off, n))
  {
    CostGrows(a.was, 0, off + n);
  }

  lemma OpenAccount(a: Account, off: nat)
    requires off <= a.was
    ensures Balance(a, a.free, off, 0)
  {
    assert NBlocks(off) <= NBlocks(a.was);
  }

  lemma CostGrows(size: nat, end: nat, end': nat)
    requires end <= end'
    ensures Cost(NBlocks(size)) <= Cost(Extent(size, end)) <= Cost(Extent(size, end'))
  {
    assert NBlocks(end) <= NBlocks(end');
  }

  lemma TurnDone(was: seq<Byte>, m: FileMap, data: seq<Block>, logged: set<nat>, before: set<nat>, bitmap: set<nat>,
                 src: seq<Byte>, off: nat, tot: nat, m': FileMap, data': seq<Block>, logged': set<nat>,
                 bn: nat, pos: nat, k: nat, len: nat, tot': nat)
    requires Progress(was, m, data, logged, before, bitmap, src, off, tot) && tot' == tot + len
    requires bn == (off + tot) / BSIZE && pos == (off + tot) % BSIZE && k == Extent(|was|, off + tot)
    requires 0 < len <= |src| - tot && pos + len <= BSIZE && off + |src| <= MAXFILE * BSIZE
    requires StepWrote(m.at, data, m'.at, data', bn, pos, src[tot..tot + len], k)
    requires Compact(m', data', if bn < k then k else bn + 1) && (m.ind != 0 ==> m'.ind == m.ind)
    requires LogsOnly(logged, logged', bitmap, m'.at[bn], m'.ind)
    ensures Progress(was, m', data', logged', before, bitmap, src, off, tot')
    ensures off + tot' <= |was| ==> bn < k
  {
    TurnEnds(|was|, off + tot, len, off + tot');
    StepExtends(was, m.at, data, m'.at, data', src, off, tot, len, bn, pos, k, tot');
    QuotientMonotone(off, off + tot);
    var lo, hi, hi' := off / BSIZE, NBlocks(off + tot), NBlocks(off + tot');
    TurnFootprint(m, data, logged, before, bitmap, lo, hi, m', data', logged', bn, pos, src[tot..tot + len], k, hi');
  }

  // Another file's bytes do not change.
  lemma OtherFile(nmeta: nat, maps: seq<FileMap>, data: seq<Block>, owner: Owners, data': seq<Block>, owner': Owners,
                  n: nat, m: nat, size: nat)
    requires Linked(nmeta, |data|, maps, owner) && OthersKept(owner, data, owner', data', n) && m < |maps| && m != n
    requires Compact(maps[m], data, NBlocks(size))
    ensures Compact(maps[m], data', NBlocks(size))
    ensures Contents(maps[m].at, data', size) == Contents(maps[m].at, data, size)
  {
    var at := maps[m].at;
    assert Claims(maps[m], m, owner);
    forall bn | 0 <= bn < NBlocks(size) ensures data'[at[bn]] == data[at[bn]] {
      assert Owns(owner, at[bn], Holds(m, bn));
    }
    var s, t := Contents(at, data', size), Contents(at, data, size);
    forall p | 0 <= p < size ensures s[p] == t[p] {
      InRange(p, size);
    }
  }

  // The distinct blocks one writei logs: those behind the range, bitmap blocks, indirect block, inode block.
  lemma FootprintSize(logged: set<nat>, before: set<nat>, bitmap: set<nat>, ind: nat, at: seq<nat>, lo: nat, hi: nat,
                      inode: nat)
    requires Footprint(logged, before, bitmap, ind, at, lo, hi) && lo <= hi
    ensures |logged + {inode} - before| <= hi - lo + |bitmap| + 2 && |logged - before| <= hi - lo + |bitmap| + 2
  {
    var all := Behind(at, lo, hi) + bitmap + {ind, inode};
    assert |all| <= |Behind(at, lo, hi)| + |bitmap| + 2;
    SubsetSize(logged + {inode} - before, all);
    SubsetSize(logged - before, all);
  }

  lemma SpanArithmetic(off: nat, n: nat)
    ensures off / BSIZE <= NBlocks(off + n)
  {
  }

  function Larger(a: nat, b: nat): nat { if a > b then a else b }

  lemma AllDone(was: seq<Byte>, m: FileMap, data: seq<Block>, logged: set<nat>, before: set<nat>, bitmap: set<nat>,
                src: seq<Byte>, off: nat, inode: nat)
    requires Progress(was, m, data, logged, before, bitmap, src, off, |src|)
    ensures var size := Larger(off + |src|, |was|);
            && Compact(m, data, NBlocks(size)) && Contents(m.at, data, size) == Overwrite(was, off, src)
    ensures var most := NBlocks(off + |src|) - off / BSIZE + |bitmap| + 2;
            |logged - before| <= most && |logged + {inode} - before| <= most
  {
    AllWritten(was, m.at, data, src, off, Larger(off + |src|, |was|));
    assert NBlocks(Larger(off + |src|, |was|)) == Extent(|was|, off + |src|);
    SpanArithmetic(off, |src|);
    FootprintSize(logged, before, bitmap, m.ind, m.at, off / BSIZE, NBlocks(off + |src|), inode);
  }

  // What writei logs for the contents of a file are bitmap blocks and blocks of the data region.
  lemma LoggedData(nmeta: nat, data: seq<Block>, maps: seq<FileMap>, owner: Owners, n: nat,
                   logged: set<nat>, before: set<nat>, bitmap: set<nat>, lo: nat, hi: nat, k: nat)
    requires Linked(nmeta, |data|, maps, owner) && n < |maps|
    requires Footprint(logged, before, bitmap, maps[n].ind, maps[n].at, lo, hi) && Dense(maps[n].at, data, k) && hi <= k
    ensures forall x :: x in logged ==> x in before || x in bitmap || nmeta <= x < |data|
  {
    var m := maps[n];
    assert Claims(m, n, owner);
    forall x | x in logged && x !in before && x !in bitmap ensures nmeta <= x < |data| {
      if x == m.ind && x != 0 {
        assert Owns(owner, x, Indirect(n));
      } else {
        var bn := BehindAt(m.at, lo, hi, x);
        assert Owns(owner, m.at[bn], Holds(n, bn));
      }
    }
  }

  lemma UpdateTwice<T>(a: seq<T>, b: seq<T>, c: seq<T>, n: nat)
    requires n < |a| == |b| == |c| && b == a[n := b[n]] && c == b[n := c[n]]
    ensures c == a[n := c[n]]
  {
  }

  class FileSystem {
    const size: nat          // sb.size
    const bmapstart: nat
    const inodestart: nat
    ghost const bitmapBlocks: set<nat>
    var bits: seq<Block>
    var data: seq<Block>
    var dinodes: seq<Inode>  // on disk
    var inodes: seq<Inode>   // in memory
    ghost var maps: seq<FileMap>   // what each in-memory inode points to
    ghost var owner: Owners
    ghost var logged: set<nat>

    constructor (size: nat, bmapstart: nat, inodestart: nat, bits: seq<Block>, data: seq<Block>, inodes: seq<Inode>,
                 ghost maps: seq<FileMap>, ghost owner: Owners)
      requires |data| == size < 0x1_0000_0000 && AllRepresent(inodes, data, maps)
      requires Linked(bmapstart + size / BPB + 1, size, maps, owner) && Accounted(bits, size, owner, {})
      ensures Valid() && this.inodes == inodes && this.dinodes == inodes && this.data == data && this.maps == maps
    {
      this.size, this.bmapstart, this.inodestart := size, bmapstart, inodestart;
      this.bits, this.data, this.inodes, this.dinodes := bits, data, inodes, inodes;
      this.maps, this.owner, this.logged := maps, owner, {};
      this.bitmapBlocks := BlocksOfBitmap(size, bmapstart);
    }

    // Metadata fills the disk up to the end of the bitmap.
    ghost function Nmeta(): nat { bmapstart + size / BPB + 1 }
    function BitmapBlock(b: nat): nat { b / BPB + bmapstart }
    function InodeBlock(inum: nat): nat { inum / IPB + inodestart }

    ghost predicate Shape()
      reads this`bits, this`data, this`dinodes, this`inodes
    {
      && |data| == size < 0x1_0000_0000 && size / BPB < |bits| && |dinodes| == |inodes|
      && (forall b :: 0 <= b < size ==> BitmapBlock(b) in bitmapBlocks)
      && (size <= BPB ==> bitmapBlocks <= {bmapstart})
    }

    ghost predicate Valid()
      reads this`bits, this`data, this`dinodes, this`inodes, this`maps, this`owner
    {
      Shape() && Sound(bits, Nmeta(), inodes, data, maps, owner)
    }

    // The number of free blocks.
    ghost function Free(): nat
      reads this`bits
    {
      |FreeSet(bits, size)|
    }

    lemma FullIsNone()
      requires Shape() && Full(bits, size)
      ensures Free() == 0
    {
      assert FreeSet(bits, size) == {};
    }

    // balloc marks a free block used, logs the bitmap block, and bzero clears and logs the block.
    method Claim(b: nat, bi: nat)
      requires Shape() && b % BPB == 0 && bi < BPB && b + bi < size && b / BPB < |bits|
      requires !Bit(bits[b / BPB].b[bi / 8], bi % 8)
      modifies this`bits, this`data, this`logged
      ensures (b + bi) / BPB == b / BPB && bits == Mark(old(bits), b + bi)
      ensures data == old(data)[b + bi := ZeroBlock] && logged == old(logged) + {BitmapBlock(b + bi), b + bi}
      ensures Covered(old(bits), old(data), old(logged), bits, data, logged, bmapstart)
    {
      SplitIndex(b, bi);
      var x := bits[b / BPB].b[bi / 8];
      SetBitInByte(x, bi % 8, 8);
      bits := bits[b / BPB := Block(bits[b / BPB].b[bi / 8 := SetBit(x, bi % 8)])];
      logged := logged + {BitmapBlock(b + bi)};
      data := data[b + bi := ZeroBlock];
      logged := logged + {b + bi};
      ClaimCovered(old(bits), old(data), old(logged), b + bi, bmapstart, bits, data, logged);
    }

    // balloc's inner loop over one bitmap block, up to the first free block if there is one.
    method FindFree(b: nat) returns (bi: nat)
      requires Shape() && b % BPB == 0 && b < size && AllUsed(bits, b)
      ensures bi <= BPB && b + bi <= size && AllUsed(bits, b + bi)
      ensures bi < BPB && b + bi < size ==>
                b / BPB < |bits| && !Bit(bits[b / BPB].b[bi / 8], bi % 8) && !Used(bits, b + bi)
    {
      bi := 0;
      while bi < BPB && b + bi < size
        invariant 0 <= bi <= BPB && b + bi <= size && AllUsed(bits, b + bi)
      {
        SplitIndex(b, bi);
        if !Bit(bits[b / BPB].b[bi / 8], bi % 8) { return; }
        bi := bi + 1;
      }
    }

    // None is the panic "balloc: out of blocks".
    method Balloc() returns (r: Option<nat>)
      requires Shape()
      modifies this`bits, this`data, this`logged
      ensures r.None? ==>
                && bits == old(bits) && data == old(data) && logged == old(logged)
                && Full(bits, size) && Free() == 0
      ensures r.Some? ==> Free() == old(Free()) - 1
      ensures r.Some? ==>
                var b := r.value;
                && b < size && b / BPB < |old(bits)| && !Used(old(bits), b)
                && AllUsed(old(bits), b)
                && bits == Mark(old(bits), b)
                && data == old(data)[b := ZeroBlock]
                && logged == old(logged) + {BitmapBlock(b), b} && BitmapBlock(b) in bitmapBlocks
                && Covered(old(bits), old(data), old(logged), bits, data, logged, bmapstart)
    {
      var b := 0;
      while b < size
        invariant b % BPB == 0 && AllUsed(bits, if b < size then b else size)
        invariant bits == old(bits) && data == old(data) && logged == old(logged)
      {
        var bi := FindFree(b);
        if bi < BPB && b + bi < size {
          Claim(b, bi);
          MarkTakesOne(old(bits), size, b + bi, bits);
          return Some(b + bi);
        }
        NextMultiple(b);
        b := b + BPB;
      }
      FullIsNone();
      return None;
    }

    // The requires excludes the panic "freeing free block".
    method Bfree(b: nat)
      requires Shape() && b < size && Used(bits, b)
      modifies this`bits, this`logged
      ensures bits == Unmark(old(bits), b) && logged == old(logged) + {BitmapBlock(b)}
    {
      QuotientBound(b, size);
      var bi := b % BPB;
      UnmarkIs(bits, b, bi);
      bits := bits[b / BPB := Block(bits[b / BPB].b[bi / 8 := ClearBit(bits[b / BPB].b[bi / 8], bi % 8)])];
      logged := logged + {BitmapBlock(b)};
    }

    // Only inode inum and its map have changed.
    ghost predicate OnlyInode(inum: nat, inodes0: seq<Inode>, maps0: seq<FileMap>)
      reads this`inodes, this`maps
    {
      && inum < |inodes| == |inodes0| && |maps| == |maps0| == |inodes|
      && inodes == inodes0[inum := inodes[inum]] && maps == maps0[inum := maps[inum]]
      && inodes[inum].size == inodes0[inum].size && inodes[inum].kind == inodes0[inum].kind
    }

    // bmap allocates a direct block.
    method AddDirect(inum: nat, bn: nat) returns (r: Option<nat>)
      requires Valid() && inum < |inodes| && bn < NDIRECT && bn < |maps[inum].at| && maps[inum].at[bn] == 0
      modifies this`bits, this`data, this`inodes, this`maps, this`owner, this`logged
      ensures r.None? ==> Full(bits, size)
      ensures r.None? <==> old(Free()) < 1
      ensures r.Some? ==> Free() == old(Free()) - 1
      ensures r.Some? ==>
                && Valid() && OnlyInode(inum, old(inodes), old(maps))
                && Mapped(old(maps)[inum], old(data), old(owner), maps[inum], data, owner, inum, bn, r.value)
                && logged == old(logged) + {BitmapBlock(r.value), r.value} && BitmapBlock(r.value) in bitmapBlocks
                && Covered(old(bits), old(data), old(logged), bits, data, logged, bmapstart)
    {
      Lookup(inodes, data, maps, inum);
      r := Balloc();
      if r.Some? {
        var inodes' := inodes[inum := inodes[inum].(addrs := inodes[inum].addrs[bn := r.value])];
        ghost var maps' := maps[inum := maps[inum].(at := maps[inum].at[bn := r.value])];
        ghost var owner' := owner[r.value := Holds(inum, bn)];
        AddedDirect(old(bits), Nmeta(), inodes, old(data), maps, owner, inum, bn, r.value, bits, inodes', data, maps',
            owner');
        inodes, maps, owner := inodes', maps', owner';
      }
    }

    // bmap allocates the indirect block.
    method AddIndirect(inum: nat) returns (r: Option<nat>)
      requires Valid() && inum < |inodes| && maps[inum].ind == 0
      modifies this`bits, this`data, this`inodes, this`maps, this`owner, this`logged
      ensures r.None? ==> Full(bits, size)
      ensures r.None? <==> old(Free()) < 1
      ensures r.Some? ==> Free() == old(Free()) - 1
      ensures r.Some? ==>
                && Valid() && OnlyInode(inum, old(inodes), old(maps)) && r.value != 0 && r.value !in old(owner)
                && maps[inum] == old(maps)[inum].(ind := r.value)
                && data == old(data)[r.value := ZeroBlock] && owner == old(owner)[r.value := Indirect(inum)]
                && logged == old(logged) + {BitmapBlock(r.value), r.value} && BitmapBlock(r.value) in bitmapBlocks
                && Covered(old(bits), old(data), old(logged), bits, data, logged, bmapstart)
    {
      Lookup(inodes, data, maps, inum);
      r := Balloc();
      if r.Some? {
        var inodes' := inodes[inum := inodes[inum].(addrs := inodes[inum].addrs[NDIRECT := r.value])];
        ghost var maps', owner' := maps[inum := maps[inum].(ind := r.value)], owner[r.value := Indirect(inum)];
        AddedIndirect(old(bits), Nmeta(), inodes, old(data), maps, owner, inum, r.value, bits, inodes', data, maps',
            owner');
        inodes, maps, owner := inodes', maps', owner';
      }
    }

    // bmap allocates a block and enters it in the indirect block.
    method AddListed(inum: nat, j: nat) returns (r: Option<nat>)
      requires Valid() && inum < |inodes| && j < NINDIRECT && maps[inum].ind != 0
      requires NDIRECT + j < |maps[inum].at| && maps[inum].at[NDIRECT + j] == 0
      modifies this`bits, this`data, this`maps, this`owner, this`logged
      ensures r.None? ==> Full(bits, size)
      ensures r.None? <==> old(Free()) < 1
      ensures r.Some? ==> Free() == old(Free()) - 1
      ensures r.Some? ==>
                && Valid() && OnlyInode(inum, inodes, old(maps))
                && Mapped(old(maps)[inum], old(data), old(owner), maps[inum], data, owner, inum, NDIRECT + j, r.value)
                && logged == old(logged) + {BitmapBlock(r.value), r.value} + {maps[inum].ind}
                    && BitmapBlock(r.value) in bitmapBlocks
                && Covered(old(bits), old(data), old(logged), bits, data, logged, bmapstart)
    {
      Lookup(inodes, data, maps, inum);
      var ind := inodes[inum].addrs[NDIRECT];
      var a := data[ind];
      r := Balloc();
      if r.Some? {
        EnterListed(inum, j, ind, a, r.value, old(bits), old(data), old(logged));
      }
    }

    // The new block b in entry j of the indirect block, which held a before b was allocated.
    method EnterListed(inum: nat, j: nat, ind: nat, a: Block, b: nat, ghost bits0: seq<Block>, ghost data0: seq<Block>,
                       ghost logged0: set<nat>)
      requires Shape() && Sound(bits0, Nmeta(), inodes, data0, maps, owner) && |data0| == size && inum < |inodes|
               && j < NINDIRECT
      requires 0 < ind == maps[inum].ind < size && a == data0[ind] && NDIRECT + j < |maps[inum].at|
               && maps[inum].at[NDIRECT + j] == 0
      requires b < size && b / BPB < |bits0| && !Used(bits0, b) && bits == Mark(bits0, b)
               && data == data0[b := ZeroBlock]
      requires Covered(bits0, data0, logged0, bits, data, logged, bmapstart)
      modifies this`data, this`maps, this`owner, this`logged
      ensures Valid() && OnlyInode(inum, inodes, old(maps)) && maps[inum].ind == ind && logged == old(logged) + {ind}
      ensures Mapped(old(maps)[inum], data0, old(owner), maps[inum], data, owner, inum, NDIRECT + j, b)
      ensures Covered(bits0, data0, logged0, bits, data, logged, bmapstart)
    {
      var data' := data[ind := SetWord(a, j, b)];
      ghost var bn := NDIRECT + j;
      ghost var maps', owner' := maps[inum := maps[inum].(at := maps[inum].at[bn := b])], owner[b := Holds(inum, bn)];
      AddedListed(bits0, Nmeta(), inodes, data0, maps, owner, inum, j, bn, ind, b, bits, data', maps', owner');
      WriteCovered(bits0, data0, logged0, bits, data, logged, ind, SetWord(a, j, b), bmapstart, data', logged + {ind});
      data, maps, owner, logged := data', maps', owner', logged + {ind};
    }

    // bmap allocates the indirect block and then a block listed in it.
    method AddBoth(inum: nat, j: nat) returns (r: Option<nat>)
      requires Valid() && inum < |inodes| && j < NINDIRECT && maps[inum].ind == 0
      requires NDIRECT + j < |maps[inum].at| && maps[inum].at[NDIRECT + j] == 0
      modifies this`bits, this`data, this`inodes, this`maps, this`owner, this`logged
      ensures r.None? ==> Full(bits, size)
      ensures r.None? <==> old(Free()) < 2
      ensures r.Some? ==> Free() == old(Free()) - 2
      ensures r.Some? ==>
                && Valid() && OnlyInode(inum, old(inodes), old(maps))
                && Mapped(old(maps)[inum], old(data), old(owner), maps[inum], data, owner, inum, NDIRECT + j, r.value)
                && LogsOnly(old(logged), logged, bitmapBlocks, r.value, maps[inum].ind)
                && Covered(old(bits), old(data), old(logged), bits, data, logged, bmapstart)
    {
      var ind := AddIndirect(inum);
      if ind.None? { return None; }
      ghost var maps1, bits1, data1, logged1 := maps, bits, data, logged;
      r := AddListed(inum, j);
      if r.Some? {
        UpdateTwice(old(maps), maps1, maps, inum);
        MappedBoth(old(maps)[inum], old(data), old(owner), ind.value, maps[inum], data, owner, inum, NDIRECT + j,
            r.value);
        LogsTwo(old(logged), bitmapBlocks, r.value, BitmapBlock(ind.value), ind.value, BitmapBlock(r.value));
        CoveredTwice(old(bits), old(data), old(logged), bits1, data1, logged1, bits, data, logged, bmapstart);
      }
    }

    method BmapIndirect(inum: nat, j: nat) returns (r: Option<nat>)
      requires Valid() && inum < |inodes| && j < NINDIRECT && |maps[inum].at| == MAXFILE
      modifies this`bits, this`data, this`inodes, this`maps, this`owner, this`logged
      ensures r.None? ==> Full(bits, size) && old(maps)[inum].at[NDIRECT + j] == 0
      ensures r.None? <==> old(Free()) < Wants(old(maps)[inum], NDIRECT + j)
      ensures r.Some? ==> Free() == old(Free()) - Wants(old(maps)[inum], NDIRECT + j)
      ensures r.Some? ==>
                && Valid() && OnlyInode(inum, old(inodes), old(maps))
                && Mapped(old(maps)[inum], old(data), old(owner), maps[inum], data, owner, inum, NDIRECT + j, r.value)
                && (old(maps)[inum].at[NDIRECT + j] != 0 ==>
                    inodes == old(inodes) && bits == old(bits) && logged == old(logged))
                && LogsOnly(old(logged), logged, bitmapBlocks, r.value, maps[inum].ind)
                && Covered(old(bits), old(data), old(logged), bits, data, logged, bmapstart)
    {
      Lookup(inodes, data, maps, inum);
      LookupListed(inodes, data, maps, inum, j);
      if inodes[inum].addrs[NDIRECT] == 0 {
        r := AddBoth(inum, j);
      } else if Word(data[inodes[inum].addrs[NDIRECT]], j) == 0 {
        r := AddListed(inum, j);
        if r.Some? {
          LogsOne(old(logged), bitmapBlocks, r.value, BitmapBlock(r.value), maps[inum].ind);
        }
      } else {
        r := Some(Word(data[inodes[inum].addrs[NDIRECT]], j));
        SameCovered(bits, data, logged, logged, bmapstart);
      }
    }

    // None is a panic of balloc.
    method Bmap(inum: nat, bn: nat) returns (r: Option<nat>)
      requires Valid() && inum < |inodes| && bn < MAXFILE
      modifies this`bits, this`data, this`inodes, this`maps, this`owner, this`logged
      ensures r.None? ==> Full(bits, size) && bn < |old(maps)[inum].at| && old(maps)[inum].at[bn] == 0
      ensures r.None? <==> old(Free()) < Wants(old(maps)[inum], bn)
      ensures r.Some? ==> Free() == old(Free()) - Wants(old(maps)[inum], bn)
      ensures r.Some? ==>
                && Valid() && OnlyInode(inum, old(inodes), old(maps))
                && Mapped(old(maps)[inum], old(data), old(owner), maps[inum], data, owner, inum, bn, r.value)
                && (old(maps)[inum].at[bn] != 0 ==> inodes == old(inodes) && bits == old(bits) && logged == old(logged))
                && LogsOnly(old(logged), logged, bitmapBlocks, r.value, maps[inum].ind)
                && Covered(old(bits), old(data), old(logged), bits, data, logged, bmapstart)
    {
      Lookup(inodes, data, maps, inum);
      if bn < NDIRECT {
        LookupDirect(inodes, data, maps, inum, bn);
        if inodes[inum].addrs[bn] == 0 {
          r := AddDirect(inum, bn);
          if r.Some? {
            LogsOne(old(logged), bitmapBlocks, r.value, BitmapBlock(r.value), maps[inum].ind);
          }
        } else {
          r := Some(inodes[inum].addrs[bn]);
          SameCovered(bits, data, logged, logged, bmapstart);
        }
      } else {
        r := BmapIndirect(inum, bn - NDIRECT);
      }
    }

    // One turn of either loop of itrunc: block bn of the file, if there is one, is freed.
    method FreeHanging(inum: nat, bn: nat, b: nat, ghost rest: Owners)
      requires Shape() && Linked(Nmeta(), size, maps, owner) && inum < |maps|
      requires bn < |maps[inum].at| && maps[inum].at[bn] == b
      requires Accounted(bits, size, rest, Hanging(owner, inum, bn))
      modifies this`bits, this`logged
      ensures Shape() && Accounted(bits, size, rest, Hanging(owner, inum, bn + 1))
              && logged <= old(logged) + bitmapBlocks
      ensures Covered(old(bits), data, old(logged), bits, data, logged, bmapstart)
    {
      HangingStep(Nmeta(), size, maps, owner, inum, bn);
      SameCovered(bits, data, logged, logged, bmapstart);
      if b != 0 {
        AccountFree(bits, size, rest, Hanging(owner, inum, bn), b);
        Bfree(b);
        FreeCovered(old(bits), data, old(logged), b, bmapstart, bits, logged);
      }
    }

    method FreeDirect(inum: nat, ghost rest: Owners)
      requires Valid() && inum < |inodes| && Accounted(bits, size, rest, Hanging(owner, inum, 0))
      modifies this`bits, this`inodes, this`logged
      ensures Shape() && Accounted(bits, size, rest, Hanging(owner, inum, NDIRECT))
              && logged <= old(logged) + bitmapBlocks
      ensures Covered(old(bits), data, old(logged), bits, data, logged, bmapstart)
      ensures |inodes| == |old(inodes)| && |inodes[inum].addrs| == NDIRECT + 1
      ensures inodes == old(inodes)[inum := old(inodes)[inum].(addrs := inodes[inum].addrs)]
      ensures inodes[inum].addrs[NDIRECT] == maps[inum].ind && forall k :: 0 <= k < NDIRECT ==>
                inodes[inum].addrs[k] == 0
    {
      Lookup(inodes, data, maps, inum);
      SameCovered(bits, data, logged, logged, bmapstart);
      var i := 0;
      while i < NDIRECT
        invariant 0 <= i <= NDIRECT && Covered(old(bits), data, old(logged), bits, data, logged, bmapstart)
        invariant Shape() && Accounted(bits, size, rest, Hanging(owner, inum, i))
                  && logged <= old(logged) + bitmapBlocks
        invariant |inodes| == |old(inodes)| && |inodes[inum].addrs| == NDIRECT + 1
        invariant inodes == old(inodes)[inum := old(inodes)[inum].(addrs := inodes[inum].addrs)]
        invariant forall k :: 0 <= k < i ==> inodes[inum].addrs[k] == 0
        invariant forall k :: i <= k <= NDIRECT ==> inodes[inum].addrs[k] == old(inodes)[inum].addrs[k]
      {
        LookupDirect(old(inodes), data, maps, inum, i);
        ghost var bits1, logged1 := bits, logged;
        FreeHanging(inum, i, inodes[inum].addrs[i], rest);
        CoveredTwice(old(bits), data, old(logged), bits1, data, logged1, bits, data, logged, bmapstart);
        inodes := inodes[inum := inodes[inum].(addrs := inodes[inum].addrs[i := 0])];
        i := i + 1;
      }
    }

    method FreeListed(inum: nat, ind: nat, ghost inodes0: seq<Inode>, ghost rest: Owners)
      requires Shape() && AllRepresent(inodes0, data, maps) && Linked(Nmeta(), size, maps, owner) && inum < |maps|
      requires 0 < ind == maps[inum].ind && Accounted(bits, size, rest, Hanging(owner, inum, NDIRECT))
      modifies this`bits, this`logged
      ensures Shape() && Accounted(bits, size, rest, Hanging(owner, inum, MAXFILE))
              && logged <= old(logged) + bitmapBlocks
      ensures Covered(old(bits), data, old(logged), bits, data, logged, bmapstart)
    {
      Lookup(inodes0, data, maps, inum);
      SameCovered(bits, data, logged, logged, bmapstart);
      var j := 0;
      while j < NINDIRECT
        invariant 0 <= j <= NINDIRECT && Covered(old(bits), data, old(logged), bits, data, logged, bmapstart)
        invariant Shape() && Accounted(bits, size, rest, Hanging(owner, inum, NDIRECT + j))
                  && logged <= old(logged) + bitmapBlocks
      {
        LookupListed(inodes0, data, maps, inum, j);
        ghost var bits1, logged1 := bits, logged;
        FreeHanging(inum, NDIRECT + j, Word(data[ind], j), rest);
        CoveredTwice(old(bits), data, old(logged), bits1, data, logged1, bits, data, logged, bmapstart);
        j := j + 1;
      }
    }

    method FreeIndirect(inum: nat, ghost inodes0: seq<Inode>, ghost rest: Owners)
      requires Shape() && AllRepresent(inodes0, data, maps) && Linked(Nmeta(), size, maps, owner)
      requires inum < |maps| == |inodes| && |inodes[inum].addrs| == NDIRECT + 1
               && inodes[inum].addrs[NDIRECT] == maps[inum].ind
      requires Accounted(bits, size, rest, Hanging(owner, inum, NDIRECT))
      modifies this`bits, this`inodes, this`logged
      ensures Shape() && Accounted(bits, size, rest, {}) && logged <= old(logged) + bitmapBlocks
      ensures Covered(old(bits), data, old(logged), bits, data, logged, bmapstart)
      ensures |inodes| == |old(inodes)| && |inodes[inum].addrs| == NDIRECT + 1 && inodes[inum].addrs[NDIRECT] == 0
      ensures inodes == old(inodes)[inum := old(inodes)[inum].(addrs := inodes[inum].addrs)]
      ensures forall k :: 0 <= k < NDIRECT ==> inodes[inum].addrs[k] == old(inodes)[inum].addrs[k]
    {
      var ind := inodes[inum].addrs[NDIRECT];
      HangingEnd(Nmeta(), size, maps, owner, inum);
      if ind != 0 {
        FreeListed(inum, ind, inodes0, rest);
        AccountFree(bits, size, rest, Hanging(owner, inum, MAXFILE), ind);
        ghost var bits1, logged1 := bits, logged;
        Bfree(ind);
        FreeCovered(bits1, data, logged1, ind, bmapstart, bits, logged);
        CoveredTwice(old(bits), data, old(logged), bits1, data, logged1, bits, data, logged, bmapstart);
        inodes := inodes[inum := inodes[inum].(addrs := inodes[inum].addrs[NDIRECT := 0])];
      } else {
        HangingNone(Nmeta(), size, inodes0, data, maps, owner, inum);
        SameCovered(bits, data, logged, logged, bmapstart);
      }
    }

    method Iupdate(inum: nat)
      requires Shape() && inum < |inodes|
      modifies this`dinodes, this`logged
      ensures Shape() && dinodes == old(dinodes)[inum := inodes[inum]] && logged == old(logged) + {InodeBlock(inum)}
    {
      dinodes := dinodes[inum := inodes[inum]];
      logged := logged + {InodeBlock(inum)};
    }

    // The file becomes empty and the bitmap loses exactly the blocks that were its own.
    method FreeAll(inum: nat)
      requires Valid() && inum < |inodes|
      modifies this`bits, this`inodes, this`dinodes, this`maps, this`owner, this`logged
      ensures Valid() && maps == old(maps)[inum := NoBlocks]
      ensures FreedExactly(old(bits), bits, size, old(owner), inum)
      ensures |inodes| == |old(inodes)| && inodes ==
                old(inodes)[inum := Inode(old(inodes)[inum].kind, 0, inodes[inum].addrs)]
      ensures dinodes == old(dinodes)[inum := inodes[inum]] && logged <= old(logged) + bitmapBlocks + {InodeBlock(inum)}
      // Every bitmap block that changed is logged, and so is the inode.
      ensures Covered(old(bits), data, old(logged), bits, data, logged, bmapstart) && InodeBlock(inum) in logged
    {
      ghost var rest := owner - Hanging(owner, inum, 0);
      AccountDetach(bits, size, owner, Hanging(owner, inum, 0));
      FreeDirect(inum, rest);
      ghost var bits1, logged1 := bits, logged;
      FreeIndirect(inum, old(inodes), rest);
      CoveredTwice(old(bits), data, old(logged), bits1, data, logged1, bits, data, logged, bmapstart);
      inodes := inodes[inum := inodes[inum].(size := 0)];
      ghost var logged2 := logged;
      Iupdate(inum);
      MoreCovered(old(bits), data, old(logged), bits, data, logged2, logged, bmapstart);
      PointNowhere(old(inodes), data, maps, inum, inodes[inum]);
      UnlinkAll(Nmeta(), size, maps, owner, inum);
      maps, owner := maps[inum := NoBlocks], rest;
    }

    method Itrunc(inum: nat)
      requires Valid() && inum < |inodes|
      modifies this`bits, this`inodes, this`dinodes, this`maps, this`owner, this`logged
      ensures Valid() && maps == old(maps)[inum := NoBlocks]
      ensures FreedExactly(old(bits), bits, size, old(owner), inum)
      ensures |inodes| == |old(inodes)| && inodes ==
                old(inodes)[inum := Inode(old(inodes)[inum].kind, 0, inodes[inum].addrs)]
      ensures dinodes == old(dinodes)[inum := inodes[inum]] && logged <= old(logged) + bitmapBlocks + {InodeBlock(inum)}
      // Every bitmap block that changed is logged, and so is the inode.
      ensures Covered(old(bits), data, old(logged), bits, data, logged, bmapstart) && InodeBlock(inum) in logged
      ensures NoHoles(inum) && File(inum) == []
      ensures forall m: nat :: m != inum && old(NoHoles(m)) ==> NoHoles(m) && File(m) == old(File(m))
    {
      FreeAll(inum);
    }

    // One turn of writei's loop, on block bn of the file.
    method WriteChunk(inum: nat, bn: nat, pos: nat, chunk: seq<Byte>, ghost k: nat) returns (r: Option<nat>)
      requires Valid() && inum < |inodes| && Compact(maps[inum], data, k)
      requires bn <= k && bn < MAXFILE && pos + |chunk| <= BSIZE
      modifies this`bits, this`data, this`inodes, this`maps, this`owner, this`logged
      ensures r.None? ==> Full(bits, size)
      ensures r.None? <==> old(Free()) < Wants(old(maps)[inum], bn)
      ensures r.Some? ==> Free() == old(Free()) - Wants(old(maps)[inum], bn)
      ensures r.Some? ==>
                && Valid() && OnlyInode(inum, old(inodes), old(maps))
                && bn < |maps[inum].at| && r.value == maps[inum].at[bn]
                && StepWrote(old(maps)[inum].at, old(data), maps[inum].at, data, bn, pos, chunk, k)
                && Compact(maps[inum], data, if bn < k then k else bn + 1)
                && OthersKept(old(owner), old(data), owner, data, inum)
                && (bn < k ==> inodes == old(inodes))
                && (old(maps)[inum].ind != 0 ==> maps[inum].ind == old(maps)[inum].ind)
                && LogsOnly(old(logged), logged, bitmapBlocks, r.value, maps[inum].ind)
                && Covered(old(bits), old(data), old(logged), bits, data, logged, bmapstart)
    {
      InClaim(bits, Nmeta(), inodes, data, maps, owner, inum);
      r := Bmap(inum, bn);
      if r.Some? {
        InClaim(bits, Nmeta(), inodes, data, maps, owner, inum);
        var blk := Block(Splice(data[r.value].b, pos, chunk));
        DataWritten(bits, Nmeta(), inodes, data, maps, owner, inum, bn, blk);
        ChunkWritten(old(maps)[inum], old(data), old(owner), maps[inum], data, owner, inum, bn, r.value, pos, chunk, k);
        WriteCovered(old(bits), old(data), old(logged), bits, data, logged, r.value, blk, bmapstart,
            data[r.value := blk], logged + {r.value});
        data, logged := data[r.value := blk], logged + {r.value};
      }
    }

    // writei has put the first tot bytes of src in place.
    ghost predicate Writing(inum: nat, st: Start, was: seq<Byte>, src: seq<Byte>, off: nat, tot: nat)
      reads this
    {
      match st
      case Start(inodes0, maps0, bits0, data0, owner0, before) =>
        && Valid() && OnlyInode(inum, inodes0, maps0)
        && OthersKept(owner0, data0, owner, data, inum)
        && Covered(bits0, data0, before, bits, data, logged, bmapstart)
        && Progress(was, maps[inum], data, logged, before, bitmapBlocks, src, off, tot)
        && (off + tot <= |was| ==> inodes == inodes0)
    }

    method WriteNext(inum: nat, src: seq<Byte>, off: nat, tot: nat, ghost st: Start, ghost was: seq<Byte>,
                     ghost a: Account)
      returns (tot': nat, ok: bool)
      requires Writing(inum, st, was, src, off, tot) && tot < |src| && off + |src| <= MAXFILE * BSIZE
      requires a.was == |was| && Balance(a, Free(), off, tot)
      modifies this`bits, this`data, this`inodes, this`maps, this`owner, this`logged
      ensures !ok ==> Full(bits, size) && Lacking(a, off, |src|)
      ensures ok ==> tot < tot' <= |src| && Writing(inum, st, was, src, off, tot') && Balance(a, Free(), off, tot')
    {
      ghost var inodes0, maps0, bits0, data0, owner0, logged0 := inodes, maps, bits, data, owner, logged;
      var m := ChunkLength(off + tot, |src| - tot);
      tot' := tot + m;
      var bn, pos := (off + tot) / BSIZE, (off + tot) % BSIZE;
      ghost var k := Extent(|was|, off + tot);
      TurnArithmetic(|was|, off + tot, m);
      ghost var free := Free();
      var r := WriteChunk(inum, bn, pos, src[tot..tot + m], k);
      ok := r.Some?;
      if !ok {
        TurnLacking(a, free, off, tot, m, tot', |src|, maps0[inum], data0, bn, k);
      } else {
        TurnBalance(a, free, off, tot, m, tot', maps0[inum], data0, bn, k, Free());
        TurnDone(was, maps0[inum], data0, logged0, st.logged, bitmapBlocks, src, off, tot, maps[inum], data, logged,
            bn, pos, k, m, tot');
        KeptTwice(st.owner, st.data, owner0, data0, owner, data, inum);
        CoveredTwice(st.bits, st.data, st.logged, bits0, data0, logged0, bits, data, logged, bmapstart);
        UpdateTwice(st.inodes, inodes0, inodes, inum);
        UpdateTwice(st.maps, maps0, maps, inum);
      }
    }

    method WriteLoop(inum: nat, src: seq<Byte>, off: nat, ghost st: Start, ghost was: seq<Byte>, ghost a: Account)
      returns (ok: bool)
      requires Writing(inum, st, was, src, off, 0) && off + |src| <= MAXFILE * BSIZE
      requires a.was == |was| && Balance(a, Free(), off, 0)
      modifies this`bits, this`data, this`inodes, this`maps, this`owner, this`logged
      ensures !ok ==> Full(bits, size) && Lacking(a, off, |src|)
      ensures ok ==> Writing(inum, st, was, src, off, |src|) && Balance(a, Free(), off, |src|)
    {
      var tot := 0;
      ok := true;
      while tot < |src|
        invariant ok && tot <= |src| && Writing(inum, st, was, src, off, tot) && Balance(a, Free(), off, tot)
      {
        tot, ok := WriteNext(inum, src, off, tot, st, was, a);
        if !ok { return; }
      }
    }

    ghost predicate NoHoles(n: nat)
      reads this`data, this`inodes, this`maps
    {
      n < |inodes| && n < |maps| && Compact(maps[n], data, NBlocks(inodes[n].size))
    }

    // The bytes of file n.
    ghost function File(n: nat): seq<Byte>
      requires NoHoles(n)
      reads this`data, this`inodes, this`maps
    {
      Contents(maps[n].at, data, inodes[n].size)
    }

    // The end of writei.
    method Grow(inum: nat, n: nat, end: nat)
      requires Valid() && inum < |inodes|
      modifies this`inodes, this`dinodes, this`logged
      ensures Valid() && inum < |inodes|
      ensures n > 0 && end > old(inodes)[inum].size ==>
                && inodes == old(inodes)[inum := old(inodes)[inum].(size := end)]
                && dinodes == old(dinodes)[inum := inodes[inum]] && logged == old(logged) + {InodeBlock(inum)}
      ensures !(n > 0 && end > old(inodes)[inum].size) ==>
                inodes == old(inodes) && dinodes == old(dinodes) && logged == old(logged)
      ensures inodes == old(inodes)[inum := inodes[inum]] && inodes[inum].kind == old(inodes)[inum].kind
      ensures (n == 0 ==> end <= old(inodes)[inum].size) ==> inodes[inum].size == Larger(end, old(inodes)[inum].size)
      ensures logged == old(logged) || logged == old(logged) + {InodeBlock(inum)}
    {
      if n > 0 && end > inodes[inum].size {
        Resize(inodes, data, maps, inum, end);
        inodes := inodes[inum := inodes[inum].(size := end)];
        Iupdate(inum);
      }
    }

    // What writei did, relative to the start.
    ghost predicate Wrote(inum: nat, st: Start, was: seq<Byte>, src: seq<Byte>, off: nat)
      requires off <= |was|
      reads this
    {
      && Valid() && inum < |inodes| == |st.inodes| && |maps| == |st.maps| == |inodes|
      && inodes == st.inodes[inum := inodes[inum]] && maps == st.maps[inum := maps[inum]]
      && inodes[inum].kind == st.inodes[inum].kind
      && OthersKept(st.owner, st.data, owner, data, inum)
      && NoHoles(inum) && File(inum) == Overwrite(was, off, src)
      && |logged - st.logged| <= NBlocks(off + |src|) - off / BSIZE + |bitmapBlocks| + 2
      && Covered(st.bits, st.data, st.logged, bits, data, logged, bmapstart) && LogsFile(inum, st.logged)
    }

    // Beyond before, only bitmap blocks, data blocks and the block of the inode are logged.
    ghost predicate LogsFile(inum: nat, before: set<nat>)
      reads this`logged
    {
      forall x :: x in logged ==> x in before || x in bitmapBlocks || x == InodeBlock(inum) || Nmeta() <= x < size
    }

    method WriteAndGrow(inum: nat, src: seq<Byte>, off: nat, ghost st: Start, ghost was: seq<Byte>, ghost a: Account)
      returns (ok: bool)
      requires Writing(inum, st, was, src, off, 0) && off + |src| <= MAXFILE * BSIZE && |was| == st.inodes[inum].size
      requires a.was == |was| && Balance(a, Free(), off, 0)
      modifies this
      ensures !ok ==> Full(bits, size) && Lacking(a, off, |src|)
      ensures ok ==> Balance(a, Free(), off, |src|)
      ensures ok ==> off <= |was| && Wrote(inum, st, was, src, off) && |dinodes| == |old(dinodes)|
      ensures ok && off + |src| <= |was| ==> inodes == st.inodes && dinodes == old(dinodes)
      ensures ok && off + |src| > |was| ==> dinodes == old(dinodes)[inum := inodes[inum]] && InodeBlock(inum) in logged
    {
      ok := WriteLoop(inum, src, off, st, was, a);
      if ok { FinishWrite(inum, src, off, st, was); }
    }

    lemma LoopDone(inum: nat, src: seq<Byte>, off: nat, st: Start, was: seq<Byte>)
      requires Writing(inum, st, was, src, off, |src|)
      ensures var size := Larger(off + |src|, |was|);
              && Compact(maps[inum], data, NBlocks(size)) && Contents(maps[inum].at, data, size) == Overwrite(was, off,
                  src)
      ensures var most := NBlocks(off + |src|) - off / BSIZE + |bitmapBlocks| + 2;
              |logged - st.logged| <= most && |logged + {InodeBlock(inum)} - st.logged| <= most
      ensures LogsFile(inum, st.logged)
    {
      AllDone(was, maps[inum], data, logged, st.logged, bitmapBlocks, src, off, InodeBlock(inum));
      LoggedData(Nmeta(), data, maps, owner, inum, logged, st.logged, bitmapBlocks, off / BSIZE, NBlocks(off + |src|),
          Extent(|was|, off + |src|));
    }

    method FinishWrite(inum: nat, src: seq<Byte>, off: nat, ghost st: Start, ghost was: seq<Byte>)
      requires Writing(inum, st, was, src, off, |src|) && |was| == st.inodes[inum].size
      modifies this`inodes, this`dinodes, this`logged
      ensures off <= |was| && Wrote(inum, st, was, src, off) && |dinodes| == |old(dinodes)|
      ensures off + |src| <= |was| ==> inodes == st.inodes && dinodes == old(dinodes)
      ensures off + |src| > |was| ==> dinodes == old(dinodes)[inum := inodes[inum]] && InodeBlock(inum) in logged
    {
      ghost var logged0 := logged;
      LoopDone(inum, src, off, st, was);
      ghost var inodes0 := inodes;
      Grow(inum, |src|, off + |src|);
      MoreCovered(st.bits, st.data, st.logged, bits, data, logged0, logged, bmapstart);
      UpdateTwice(st.inodes, inodes0, inodes, inum);
      assert inodes[inum].size == Larger(off + |src|, |was|);
      assert NoHoles(inum);
      assert LogsFile(inum, st.logged);
    }

    ghost predicate WriteRefused(inum: nat, off: nat, n: nat)
      requires inum < |inodes|
      reads this
    {
      off > inodes[inum].size || off + n >= 0x1_0000_0000 || off + n > MAXFILE * BSIZE
    }

    // What a writei that is not refused means for the files and the inodes on disk.
    twostate predicate FileWritten(inum: nat, src: seq<Byte>, off: nat)
      requires old(NoHoles(inum)) && off <= |old(File(inum))| && inum < |old(dinodes)|
      reads this
    {
      && Valid() && NoHoles(inum) && File(inum) == Overwrite(old(File(inum)), off, src)
      && |inodes| == |old(inodes)| && |dinodes| == |old(dinodes)| && inodes[inum].kind == old(inodes[inum].kind)
      && (forall m :: 0 <= m < |inodes| && m != inum ==> inodes[m] == old(inodes)[m])
      && (forall m: nat :: m != inum && old(NoHoles(m)) ==> NoHoles(m) && File(m) == old(File(m)))
      && dinodes == old(dinodes)[inum := dinodes[inum]]
      && (old(dinodes)[inum] == old(inodes)[inum] ==> dinodes[inum] == inodes[inum])
      && |logged - old(logged)| <= NBlocks(off + |src|) - off / BSIZE + |bitmapBlocks| + 2
      && Covered(old(bits), old(data), old(logged), bits, data, logged, bmapstart) && LogsFile(inum, old(logged))
      && (dinodes[inum] != old(dinodes)[inum] ==> InodeBlock(inum) in logged)
    }

    method WriteAll(inum: nat, src: seq<Byte>, off: nat, ghost st: Start, ghost was: seq<Byte>, ghost a: Account)
      returns (ok: bool)
      requires Valid() && inum < |inodes| && NoHoles(inum) && !WriteRefused(inum, off, |src|)
      requires st == Start(inodes, maps, bits, data, owner, logged) && was == File(inum)
      requires a == Account(Free(), inodes[inum].size)
      modifies this
      ensures !ok ==> Full(bits, size) && Lacking(a, off, |src|)
      ensures ok ==> off <= |was| && Wrote(inum, st, was, src, off) && |dinodes| == |old(dinodes)|
      ensures ok ==> Balance(a, Free(), off, |src|)
      ensures ok && off + |src| <= |was| ==> inodes == st.inodes && dinodes == old(dinodes)
      ensures ok && off + |src| > |was| ==> dinodes == old(dinodes)[inum := inodes[inum]] && InodeBlock(inum) in logged
    {
      OpenAccount(a, off);
      SameCovered(bits, data, logged, logged, bmapstart);
      NothingWritten(maps[inum].at, data, inodes[inum].size, src, off);
      ok := WriteAndGrow(inum, src, off, st, was, a);
    }

    method WriteFile(inum: nat, src: seq<Byte>, off: nat) returns (ok: bool)
      requires Valid() && inum < |inodes| && NoHoles(inum) && !WriteRefused(inum, off, |src|)
      modifies this
      ensures !ok ==> Full(bits, size) && Lacking(Account(old(Free()), old(inodes)[inum].size), off, |src|)
      ensures ok ==> FileWritten(inum, src, off)
      ensures ok ==> Balance(Account(old(Free()), old(inodes)[inum].size), Free(), off, |src|)
    {
      ghost var a := Account(Free(), inodes[inum].size);
      ghost var st, was := Start(inodes, maps, bits, data, owner, logged), File(inum);
      ok := WriteAll(inum, src, off, st, was, a);
      if ok {
        forall m: nat | m != inum && old(NoHoles(m)) ensures NoHoles(m) && File(m) == old(File(m)) {
          OtherFile(Nmeta(), st.maps, st.data, st.owner, data, owner, inum, m, st.inodes[m].size);
        }
      }
    }

    // None is a panic of balloc, Some(-1) the error return.
    method Writei(inum: nat, src: seq<Byte>, off: nat) returns (r: Option<int>)
      requires Valid() && inum < |inodes| && NoHoles(inum) && inodes[inum].kind != T_DEV
      requires off < 0x1_0000_0000 && |src| < 0x1_0000_0000
      modifies this
      // It panics exactly if the file needs more blocks than are free.
      ensures r.None? ==> Full(bits, size)
      ensures r.None? <==> old(!WriteRefused(inum, off, |src|) && Free() < Need(inodes[inum].size, off + |src|))
      ensures r == Some(-1) <==> old(WriteRefused(inum, off, |src|))
      ensures r == Some(-1) ==> Untouched()
      ensures r.Some? && r.value != -1 ==> r.value == |src| && FileWritten(inum, src, off)
      ensures r.Some? && r.value != -1 ==> Free() == old(Free()) - Need(old(inodes)[inum].size, off + |src|)
      ensures r.None? ==> Lacking(Account(old(Free()), old(inodes)[inum].size), off, |src|)
      ensures r.Some? && r.value != -1 ==> Balance(Account(old(Free()), old(inodes)[inum].size), Free(), off, |src|)
    {
      if off > inodes[inum].size || (off + |src|) % 0x1_0000_0000 < off { return Some(-1); }
      if off + |src| > MAXFILE * BSIZE { return Some(-1); }
      ghost var a := Account(Free(), inodes[inum].size);
      var ok := WriteFile(inum, src, off);
      if ok { Settles(a, Free(), off, |src|); }
      return if ok then Some(|src|) else None;
    }

    // writei, without its account of the free blocks.
    method WriteOnly(inum: nat, src: seq<Byte>, off: nat) returns (r: Option<int>)
      requires Valid() && inum < |inodes| && NoHoles(inum) && inodes[inum].kind != T_DEV
      requires off < 0x1_0000_0000 && |src| < 0x1_0000_0000
      modifies this
      ensures r == Some(-1) <==> old(WriteRefused(inum, off, |src|))
      ensures r.Some? && r.value != -1 ==> FileWritten(inum, src, off)
    {
      r := Writei(inum, src, off);
    }

    // writei and then readi of the same range: what was written is read back.
    method ReadBack(inum: nat, src: seq<Byte>, off: nat) returns (r: Option<int>, dst: seq<Byte>)
      requires Valid() && inum < |inodes| && NoHoles(inum) && inodes[inum].kind != T_DEV
      requires off < 0x1_0000_0000 && |src| < 0x1_0000_0000
      modifies this
      ensures r == Some(-1) <==> old(WriteRefused(inum, off, |src|))
      ensures r.Some? && r.value != -1 ==> dst == src && FileWritten(inum, src, off)
    {
      dst := [];
      r := WriteOnly(inum, src, off);
      if r.Some? && r.value != -1 {
        WrittenSlice(old(File(inum)), off, src);
        ghost var file, bits1, data1, dinodes1, inodes1, logged1 := File(inum), bits, data, dinodes, inodes, logged;
        var n;
        dst, n := Readi(inum, off, |src|);
        assert bits == bits1 && data == data1 && dinodes == dinodes1 && inodes == inodes1 && logged == logged1;
        assert File(inum) == file && dst == file[off..off + |src|];
      }
    }

    // begin_op: the transaction has logged nothing yet.
    ghost method BeginOp()
      modifies this`logged
      ensures logged == {}
    {
      logged := {};
    }

    // Nothing has changed.
    twostate predicate Untouched()
      reads this
    {
      && bits == old(bits) && data == old(data) && dinodes == old(dinodes) && inodes == old(inodes)
      && maps == old(maps) && owner == old(owner) && logged == old(logged)
    }

    // bmap of a mapped block changes nothing.
    method MappedBlock(inum: nat, bn: nat) returns (b: nat)
      requires Valid() && inum < |inodes| && bn < MAXFILE && bn < |maps[inum].at| && maps[inum].at[bn] != 0
      modifies this`bits, this`data, this`inodes, this`maps, this`owner, this`logged
      ensures Untouched() && Valid() && b == maps[inum].at[bn]
    {
      ghost var maps0 := maps;
      var r := Bmap(inum, bn);
      assert r.Some?;
      assert maps == maps0;
      b := r.value;
    }

    method ReadChunk(inum: nat, off: nat, tot: nat, n: nat, dst: seq<Byte>) returns (tot': nat, dst': seq<Byte>)
      requires Valid() && inum < |inodes| && NoHoles(inum)
      requires tot < n && off + n <= inodes[inum].size && dst == File(inum)[off..off + tot]
      modifies this`bits, this`data, this`inodes, this`maps, this`owner, this`logged
      ensures Untouched() && Valid() && NoHoles(inum)
      ensures tot < tot' <= n && dst' == File(inum)[off..off + tot']
    {
      var m := ChunkLength(off + tot, n - tot);
      var bn, pos := (off + tot) / BSIZE, (off + tot) % BSIZE;
      ReadExtends(maps[inum].at, data, inodes[inum].size, off, tot, m, bn, pos);
      var b := MappedBlock(inum, bn);
      dst' := dst + data[b].b[pos..pos + m];
      tot' := tot + m;
    }

    method Readi(inum: nat, off: nat, n: nat) returns (dst: seq<Byte>, r: int)
      requires Valid() && inum < |inodes| && NoHoles(inum) && inodes[inum].kind != T_DEV
      requires off < 0x1_0000_0000 && n < 0x1_0000_0000
      modifies this`bits, this`data, this`inodes, this`maps, this`owner, this`logged
      ensures Untouched() && Valid()
      ensures r == -1 <==> off > inodes[inum].size || off + n >= 0x1_0000_0000
      ensures r != -1 ==> r == (if off + n > inodes[inum].size then inodes[inum].size - off else n)
                          && NoHoles(inum) && dst == File(inum)[off..off + r]
    {
      dst := [];
      if off > inodes[inum].size || (off + n) % 0x1_0000_0000 < off { return dst, -1; }
      r := n;
      if off + n > inodes[inum].size { r := inodes[inum].size - off; }
      var tot := 0;
      while tot < r
        invariant 0 <= tot <= r && Valid() && NoHoles(inum) && Untouched()
        invariant dst == File(inum)[off..off + tot]
      {
        tot, dst := ReadChunk(inum, off, tot, r, dst);
      }
    }
  }
}
