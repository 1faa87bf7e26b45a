/** A file as a byte sequence. A file map lists the disk block of each block of the file, 0 for
    none; the lemmas here are about a file map and the blocks, whatever inode it comes from. */
module Content {
  import opened FsFormat

  function NBlocks(size: nat): nat { (size + BSIZE - 1) / BSIZE }

  // Exactly the first k blocks of the file are mapped.
  ghost predicate Dense(at: seq<nat>, data: seq<Block>, k: nat) {
    && |at| == MAXFILE && k <= MAXFILE
    && (forall bn :: 0 <= bn < MAXFILE ==> at[bn] < |data| && (at[bn] != 0 <==> bn < k))
  }

  ghost function ByteAt(at: seq<nat>, data: seq<Block>, p: nat): Byte
    requires p / BSIZE < |at| && at[p / BSIZE] < |data|
  {
    data[at[p / BSIZE]].b[p % BSIZE]
  }

  lemma InRange(p: nat, size: nat)
    requires p < size
    ensures p / BSIZE < NBlocks(size)
  {
  }

  // The bytes of a file of the given size.
  ghost function Contents(at: seq<nat>, data: seq<Block>, size: nat): (s: seq<Byte>)
    requires Dense(at, data, NBlocks(size))
    ensures |s| == size
    ensures forall p :: 0 <= p < size ==> p / BSIZE < MAXFILE && s[p] == ByteAt(at, data, p)
  {
    forall p | 0 <= p < size ensures p / BSIZE < NBlocks(size) { InRange(p, size); }
    seq(size, p requires 0 <= p < size => ByteAt(at, data, p))
  }

  // writei's meaning.
  function Overwrite(s: seq<Byte>, off: nat, src: seq<Byte>): seq<Byte>
    requires off <= |s|
  {
    s[..off] + src + if off + |src| < |s| then s[off + |src|..] else []
  }

  function Splice(b: Bytes, pos: nat, chunk: seq<Byte>): (r: Bytes)
    requires pos + |chunk| <= BSIZE
    ensures forall o :: 0 <= o < BSIZE ==> r[o] == if pos <= o < pos + |chunk| then chunk[o - pos] else b[o]
  {
    b[..pos] + chunk + b[pos + |chunk|..]
  }

  // One turn of writei's loop: block bn is mapped if it was not, and part of it is replaced; the
  // other mapped blocks stay where and what they are.
  ghost predicate StepWrote(at: seq<nat>, data: seq<Block>, at': seq<nat>, data': seq<Block>, bn: nat, pos: nat,
                            chunk: seq<Byte>, k: nat)
  {
    && Dense(at, data, k) && bn <= k && bn < MAXFILE && pos + |chunk| <= BSIZE
    && Dense(at', data', if bn < k then k else bn + 1)
    && (forall i :: 0 <= i < k ==> at'[i] == at[i])
    && (forall i :: 0 <= i < k && i != bn ==> data'[at[i]].b == data[at[i]].b)
    && (forall o :: pos <= o < pos + |chunk| ==> data'[at'[bn]].b[o] == chunk[o - pos])
    && (bn < k ==> data'[at[bn]].b == Splice(data[at[bn]].b, pos, chunk))
  }

  // Blocks mapped once the file reaches end.
  function Extent(size: nat, end: nat): nat {
    if NBlocks(size) >= NBlocks(end) then NBlocks(size) else NBlocks(end)
  }

  ghost predicate HasByte(at: seq<nat>, data: seq<Block>, p: nat, x: Byte) {
    p / BSIZE < |at| && at[p / BSIZE] < |data| && ByteAt(at, data, p) == x
  }

  // The byte at p once the first tot bytes of src are in place at off.
  function Mixed(was: seq<Byte>, src: seq<Byte>, off: nat, tot: nat, p: nat): Byte
    requires off <= |was| && tot <= |src| && (p < |was| || p < off + tot)
  {
    if off <= p < off + tot then src[p - off] else was[p]
  }

  // The state of writei after tot bytes.
  ghost predicate WrittenTo(was: seq<Byte>, at: seq<nat>, data: seq<Block>, src: seq<Byte>, off: nat, tot: nat)
  {
    && off <= |was| && tot <= |src|
    && Dense(at, data, Extent(|was|, off + tot))
    && forall p: nat :: p < |was| || p < off + tot ==> HasByte(at, data, p, Mixed(was, src, off, tot, p))
  }

  // The numbers behind one turn of the loop, whose m bytes all fall in one block.
  lemma TurnArithmetic(size: nat, end: nat, m: nat)
    requires 0 < m && end % BSIZE + m <= BSIZE && end + m <= MAXFILE * BSIZE
    ensures var k, bn := Extent(size, end), end / BSIZE;
            && bn <= k && bn < MAXFILE && NBlocks(end) <= k
            && (NBlocks(end) == bn || NBlocks(end) == bn + 1)
            && NBlocks(end + m) == bn + 1
            && (end + m <= size ==> bn < k)
            && Extent(size, end + m) == if bn < k then k else bn + 1
  {
    assert end == end / BSIZE * BSIZE + end % BSIZE;
    assert NBlocks(end + m) == end / BSIZE + 1;
    assert NBlocks(end) == if end % BSIZE == 0 then end / BSIZE else end / BSIZE + 1;
  }

  lemma TurnEnds(size: nat, end: nat, m: nat, end': nat)
    requires 0 < m && end % BSIZE + m <= BSIZE && end' == end + m <= MAXFILE * BSIZE
    ensures var k, bn := Extent(size, end), end / BSIZE;
            && NBlocks(end) <= k && (NBlocks(end) == bn || NBlocks(end) == bn + 1) && NBlocks(end') == bn + 1
            && (end' <= size ==> bn < k) && Extent(size, end') == if bn < k then k else bn + 1
  {
    TurnArithmetic(size, end, m);
  }

  lemma ByteKept(at: seq<nat>, data: seq<Block>, at': seq<nat>, data': seq<Block>, bn: nat, pos: nat, chunk: seq<Byte>,
                 k: nat, p: nat, x: Byte)
    requires StepWrote(at, data, at', data', bn, pos, chunk, k)
    requires p / BSIZE < k && (p / BSIZE == bn ==> !(pos <= p % BSIZE < pos + |chunk|))
    requires HasByte(at, data, p, x)
    ensures HasByte(at', data', p, x)
  {
  }

  lemma ByteStored(at: seq<nat>, data: seq<Block>, at': seq<nat>, data': seq<Block>, bn: nat, pos: nat,
                   chunk: seq<Byte>, k: nat, p: nat)
    requires StepWrote(at, data, at', data', bn, pos, chunk, k)
    requires p / BSIZE == bn && pos <= p % BSIZE < pos + |chunk|
    ensures HasByte(at', data', p, chunk[p % BSIZE - pos])
  {
  }

  // Positions against the block and offset of end.
  lemma SamePosition(p: nat, end: nat, m: nat)
    requires end % BSIZE + m <= BSIZE
    ensures end <= p < end + m <==> p / BSIZE == end / BSIZE && end % BSIZE <= p % BSIZE < end % BSIZE + m
    ensures end <= p < end + m ==> p % BSIZE - end % BSIZE == p - end
  {
    assert end == end / BSIZE * BSIZE + end % BSIZE && p == p / BSIZE * BSIZE + p % BSIZE;
  }

  // Positions already in the file or already written are mapped.
  lemma MappedPosition(p: nat, size: nat, end: nat)
    requires p < size || p < end
    ensures p / BSIZE < Extent(size, end)
  {
    if p < size { InRange(p, size); } else { InRange(p, end); }
  }

  // Position p after one turn.
  lemma StepAt(was: seq<Byte>, at: seq<nat>, data: seq<Block>, at': seq<nat>, data': seq<Block>,
               src: seq<Byte>, off: nat, tot: nat, m: nat, bn: nat, pos: nat, k: nat, p: nat)
    requires off <= |was| && tot + m <= |src| && (p < |was| || p < off + tot + m)
    requires bn == (off + tot) / BSIZE && pos == (off + tot) % BSIZE && pos + m <= BSIZE
             && k == Extent(|was|, off + tot)
    requires StepWrote(at, data, at', data', bn, pos, src[tot..tot + m], k)
    requires p < |was| || p < off + tot ==> HasByte(at, data, p, Mixed(was, src, off, tot, p))
    ensures HasByte(at', data', p, Mixed(was, src, off, tot + m, p))
  {
    SamePosition(p, off + tot, m);
    if off + tot <= p < off + tot + m {
      ByteStored(at, data, at', data', bn, pos, src[tot..tot + m], k, p);
    } else {
      MappedPosition(p, |was|, off + tot);
      ByteKept(at, data, at', data', bn, pos, src[tot..tot + m], k, p, Mixed(was, src, off, tot, p));
    }
  }

  lemma StepExtends(was: seq<Byte>, at: seq<nat>, data: seq<Block>, at': seq<nat>, data': seq<Block>,
                    src: seq<Byte>, off: nat, tot: nat, m: nat, bn: nat, pos: nat, k: nat, tot': nat)
    requires WrittenTo(was, at, data, src, off, tot)
    requires tot' == tot + m <= |src| && pos + m <= BSIZE
    requires bn == (off + tot) / BSIZE && pos == (off + tot) % BSIZE && k == Extent(|was|, off + tot)
    requires Extent(|was|, off + tot') == if bn < k then k else bn + 1
    requires StepWrote(at, data, at', data', bn, pos, src[tot..tot + m], k)
    ensures WrittenTo(was, at', data', src, off, tot')
  {
    forall p: nat | p < |was| || p < off + tot' ensures HasByte(at', data', p, Mixed(was, src, off, tot', p)) {
      StepAt(was, at, data, at', data', src, off, tot, m, bn, pos, k, p);
    }
  }

  lemma NothingWritten(at: seq<nat>, data: seq<Block>, size: nat, src: seq<Byte>, off: nat)
    requires Dense(at, data, NBlocks(size)) && off <= size
    ensures WrittenTo(Contents(at, data, size), at, data, src, off, 0)
  {
    assert Extent(size, off) == NBlocks(size);
  }

  // When all of src is written, the file is the overwritten one.
  lemma AllWritten(was: seq<Byte>, at: seq<nat>, data: seq<Block>, src: seq<Byte>, off: nat, size: nat)
    requires WrittenTo(was, at, data, src, off, |src|)
    requires size == if off + |src| > |was| then off + |src| else |was|
    ensures Dense(at, data, NBlocks(size)) && Contents(at, data, size) == Overwrite(was, off, src)
  {
    assert NBlocks(size) == Extent(|was|, off + |src|);
    var s, t := Contents(at, data, size), Overwrite(was, off, src);
    forall p | 0 <= p < size ensures s[p] == t[p] {
      assert HasByte(at, data, p, Mixed(was, src, off, |src|, p));
    }
  }

  // The disk blocks behind file blocks lo .. hi - 1.
  ghost function Behind(at: seq<nat>, lo: nat, hi: nat): (r: set<nat>)
    requires hi <= |at|
    ensures |r| <= if lo < hi then hi - lo else 0
    decreases hi
  {
    if hi <= lo then {} else Behind(at, lo, hi - 1) + {at[hi - 1]}
  }

  lemma {:induction false} BehindAt(at: seq<nat>, lo: nat, hi: nat, x: nat) returns (bn: nat)
    requires hi <= |at| && x in Behind(at, lo, hi)
    ensures lo <= bn < hi && at[bn] == x
    decreases hi
  {
    if at[hi - 1] == x { bn := hi - 1; } else { bn := BehindAt(at, lo, hi - 1, x); }
  }

  lemma {:induction false} BehindSame(at: seq<nat>, at': seq<nat>, lo: nat, hi: nat)
    requires hi <= |at| && hi <= |at'| && forall i :: 0 <= i < hi ==> at'[i] == at[i]
    ensures Behind(at', lo, hi) == Behind(at, lo, hi)
    decreases hi
  {
    if hi > lo {
      BehindSame(at, at', lo, hi - 1);
      assert at'[hi - 1] == at[hi - 1];
    }
  }

  // What writei may log: bitmap blocks, the indirect block, and the blocks behind lo .. hi - 1.
  ghost predicate Footprint(logged: set<nat>, before: set<nat>, bitmap: set<nat>, ind: nat, at: seq<nat>, lo: nat,
                            hi: nat) {
    && hi <= |at|
    && forall x :: x in logged ==> x in before || x in bitmap || (x == ind && x != 0) || x in Behind(at, lo, hi)
  }

  // One turn adds at most the block it writes, bitmap blocks and the indirect block.
  lemma FootprintStep(logged: set<nat>, before: set<nat>, bitmap: set<nat>, ind: nat, at: seq<nat>,
                      logged': set<nat>, ind': nat, at': seq<nat>, lo: nat, hi: nat, bn: nat)
    requires lo <= bn < |at'| && (hi == bn || hi == bn + 1) && |at'| == |at|
    requires (ind != 0 ==> ind' == ind) && forall i :: 0 <= i < hi && i < |at| ==> at'[i] == at[i]
    requires Footprint(logged, before, bitmap, ind, at, lo, hi)
    requires forall x :: x in logged' ==> x in logged || x == at'[bn] || (x == ind' && x != 0) || x in bitmap
    ensures Footprint(logged', before, bitmap, ind', at', lo, bn + 1)
  {
    BehindSame(at, at', lo, hi);
    assert Behind(at', lo, bn + 1) == Behind(at', lo, hi) + {at'[bn]};
  }

  lemma QuotientMonotone(a: nat, b: nat)
    requires a <= b
    ensures a / BSIZE <= b / BSIZE
  {
  }

  // min(n - tot, BSIZE - off % BSIZE)
  function ChunkLength(end: nat, left: nat): (m: nat)
    requires 0 < left
    ensures 0 < m <= left && end % BSIZE + m <= BSIZE
  {
    if left < BSIZE - end % BSIZE then left else BSIZE - end % BSIZE
  }

  // readi's piece of a block is the file's bytes there.
  lemma ChunkRead(at: seq<nat>, data: seq<Block>, size: nat, end: nat, m: nat)
    requires Dense(at, data, NBlocks(size)) && end + m <= size && 0 < m && end % BSIZE + m <= BSIZE
    ensures end / BSIZE < NBlocks(size)
    ensures data[at[end / BSIZE]].b[end % BSIZE..end % BSIZE + m] == Contents(at, data, size)[end..end + m]
  {
    InRange(end, size);
    var s := Contents(at, data, size);
    var b, t := data[at[end / BSIZE]].b[end % BSIZE..end % BSIZE + m], s[end..end + m];
    forall i | 0 <= i < m ensures b[i] == t[i] {
      SamePosition(end + i, end, m);
      assert s[end + i] == ByteAt(at, data, end + i);
    }
  }

  // The same, with the positions as numbers of their own.
  lemma ChunkIs(at: seq<nat>, data: seq<Block>, size: nat, end: nat, m: nat, bn: nat, pos: nat, end': nat)
    requires Dense(at, data, NBlocks(size)) && end' == end + m <= size && 0 < m && pos + m <= BSIZE
    requires bn == end / BSIZE && pos == end % BSIZE
    ensures bn < NBlocks(size) && data[at[bn]].b[pos..pos + m] == Contents(at, data, size)[end..end']
  {
    ChunkRead(at, data, size, end, m);
  }

  // One turn of readi's loop.
  lemma ReadExtends(at: seq<nat>, data: seq<Block>, size: nat, off: nat, tot: nat, m: nat, bn: nat, pos: nat)
    requires Dense(at, data, NBlocks(size)) && off + tot + m <= size && 0 < m && pos + m <= BSIZE
    requires bn == (off + tot) / BSIZE && pos == (off + tot) % BSIZE
    ensures bn < NBlocks(size)
    ensures var s := Contents(at, data, size);
            s[off..off + tot] + data[at[bn]].b[pos..pos + m] == s[off..off + (tot + m)]
  {
    var s, end, end' := Contents(at, data, size), off + tot, off + (tot + m);
    ChunkIs(at, data, size, end, m, bn, pos, end');
    TwoSlices(s, off, end, end');
  }

  lemma TwoSlices<T>(s: seq<T>, a: nat, b: nat, c: nat)
    requires a <= b <= c <= |s|
    ensures s[a..b] + s[b..c] == s[a..c]
  {
  }

  // Consecutive writes are one write.
  lemma OverwriteTwice(s: seq<Byte>, off: nat, a: seq<Byte>, b: seq<Byte>)
    requires off <= |s|
    ensures |Overwrite(s, off, a)| == if off + |a| > |s| then off + |a| else |s|
    ensures Overwrite(Overwrite(s, off, a), off + |a|, b) == Overwrite(s, off, a + b)
  {
  }

  lemma WrittenSlice(s: seq<Byte>, off: nat, src: seq<Byte>)
    requires off <= |s|
    ensures off + |src| <= |Overwrite(s, off, src)| && Overwrite(s, off, src)[off..off + |src|] == src
  {
  }
}
