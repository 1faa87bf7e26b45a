/** filewrite and fileread of xv6-public/file.c on an open inode. */
module OpenFile {
  import opened Param
  import opened Sets
  import opened FsFormat
  import opened Content
  import Ownership
  import Fs
  import LogProtocol

  // Bytes written in one transaction.
  const MAXWRITE := 1536

  lemma MaxWriteFormula()
    ensures MAXWRITE == (MAXOPBLOCKS - 1 - 1 - 2) / 2 * 512
  {
  }

  // Blocks a transaction logs when the bitmap is one block.
  const CHUNKBLOCKS := 7

  // A chunk of a write touches at most four blocks of the file.
  lemma SpanOfChunk(off: nat, n: nat)
    requires n <= MAXWRITE
    ensures NBlocks(off + n) - off / BSIZE <= 4
  {
  }

  // After one more chunk.
  lemma ChunkDone(file: seq<Byte>, off: nat, addr: seq<Byte>, i: nat, e: nat)
    requires off <= |file| && i <= e <= |addr|
    ensures off + i <= |Overwrite(file, off, addr[..i])|
    ensures Overwrite(Overwrite(file, off, addr[..i]), off + i, addr[i..e]) == Overwrite(file, off, addr[..e])
    ensures off + e <= |Overwrite(file, off, addr[..e])|
  {
    OverwriteTwice(file, off, addr[..i], addr[i..e]);
    assert addr[..i] + addr[i..e] == addr[..e];
  }

  lemma NothingStored(file: seq<Byte>, off: nat, addr: seq<Byte>)
    requires off <= |file|
    ensures Overwrite(file, off, addr[..0]) == file
  {
  }

  // Where the loop of filewrite stops: at n, or before the first chunk that would pass the largest file; at once
  // if it starts past the end of the file.
  ghost predicate StopsAt(past: bool, start: nat, n: nat, i: nat) {
    && i <= n && (i == n || i % MAXWRITE == 0) && (i > 0 ==> !past && start + i <= MAXFILE * BSIZE)
    && (i < n ==> past || (start + i + MAXWRITE > MAXFILE * BSIZE && start + n > MAXFILE * BSIZE))
  }

  // The loop of filewrite has reached i, at a chunk boundary or the end.
  ghost predicate AtChunk(start: nat, n: int, i: nat) {
    (i == n || i % MAXWRITE == 0) && (i > 0 ==> i <= n && start + i <= MAXFILE * BSIZE)
  }

  // The number of chunks that make up the first i bytes.
  function Chunks(i: nat): nat { (i + MAXWRITE - 1) / MAXWRITE }

  // What each of a number of transactions logged: with one bitmap block, never more than seven blocks.
  ghost predicate Logged(ops: seq<nat>, turns: nat, size: nat) {
    |ops| == turns && (size <= BPB ==> forall k :: 0 <= k < |ops| ==> ops[k] <= CHUNKBLOCKS <= LogProtocol.PEROP)
  }

  lemma ChunkSteps(start: nat, n: nat, i: nat, n1: nat, e: nat)
    requires AtChunk(start, n, i) && i < n && n1 == (if n - i > MAXWRITE then MAXWRITE else n - i) && e == i + n1
    ensures Chunks(e) == Chunks(i) + 1
    ensures start + e <= MAXFILE * BSIZE ==> AtChunk(start, n, e)
    ensures start + e > MAXFILE * BSIZE ==> StopsAt(false, start, n, i)
    ensures i == 0 ==> StopsAt(true, start, n, i)
  {
  }

  // After a turn of filewrite's loop at i with the result v of writei.
  ghost predicate Turned(past: bool, start: nat, n: nat, i: nat, v: int, i': nat, ops: seq<nat>, size: nat) {
    && (v < 0 ==> StopsAt(past, start, n, i') && i' < n && Logged(ops, Chunks(i') + 1, size))
    && (v >= 0 ==> i < i' && Logged(ops, Chunks(i'), size))
  }

  lemma TurnOutcome(past: bool, start: nat, n: nat, i: nat, n1: nat, e: nat, v: int, i': nat, ops: seq<nat>,
                    blocks: nat,
                    ops': seq<nat>, size: nat)
    requires AtChunk(start, n, i) && i < n && n1 == (if n - i > MAXWRITE then MAXWRITE else n - i) && e == i + n1
    requires if past || start + e > MAXFILE * BSIZE then v == -1 && i' == i else v == n1 && i' == e
    requires (past ==> i == 0) && Logged(ops, Chunks(i), size)
    requires (size <= BPB ==> blocks <= CHUNKBLOCKS) && ops' == ops + [blocks]
    ensures AtChunk(start, n, i') && Turned(past, start, n, i, v, i', ops', size)
  {
    ChunkSteps(start, n, i, n1, e);
  }

  // The loop goes past every chunk that is not too large, and stops at one place.
  lemma StopsLater(start: nat, n: nat, i: nat, n1: nat, j: nat)
    requires AtChunk(start, n, i) && i < n && n1 == if n - i > MAXWRITE then MAXWRITE else n - i
    requires start + (i + n1) <= MAXFILE * BSIZE && StopsAt(false, start, n, j)
    ensures i + n1 <= j
  {
  }

  lemma StopsOnce(past: bool, start: nat, n: nat, i: nat, j: nat)
    requires StopsAt(past, start, n, i) && StopsAt(past, start, n, j)
    ensures i == j
  {
  }

  // A chunk is paid for out of what the chunks before it have left.
  lemma ChunkPaid(a: Fs.Account, a1: Fs.Account, start: nat, i: nat, at: nat, len: nat, e: nat, free': int)
    requires start <= a.was && at == start + i && e == i + len
    requires a1.was == Fs.Larger(at, a.was) && Fs.Balance(a, a1.free, start, i) && Fs.Balance(a1, free', at, len)
    ensures Fs.Balance(a, free', start, e)
  {
    Extents(a.was, at, at + len);
    assert at + len == start + e && a1.free + Fs.Cost(Extent(a.was, at)) == a.free + Fs.Cost(NBlocks(a.was));
  }

  lemma ChunkLacks(a: Fs.Account, a1: Fs.Account, start: nat, i: nat, at: nat, len: nat, e: nat)
    requires start <= a.was && at == start + i && e == i + len
    requires a1.was == Fs.Larger(at, a.was) && Fs.Balance(a, a1.free, start, i) && Fs.Lacking(a1, at, len)
    ensures Fs.Lacking(a, start, e)
  {
    Extents(a.was, at, at + len);
  }

  lemma Extents(was: nat, end: nat, end': nat)
    requires end <= end'
    ensures NBlocks(Fs.Larger(end, was)) == Extent(was, end) && Extent(Fs.Larger(end, was), end') == Extent(was, end')
  {
    assert NBlocks(end) <= NBlocks(end');
  }

  // filewrite lacks the blocks to reach where it would stop.
  ghost predicate Short(a: Fs.Account, start: nat, n: nat) {
    forall j: nat :: StopsAt(false, start, n, j) ==> Fs.Lacking(a, start, j)
  }

  lemma ShortFrom(a: Fs.Account, start: nat, n: nat, i: nat, n1: nat, e: nat)
    requires AtChunk(start, n, i) && i < n && n1 == (if n - i > MAXWRITE then MAXWRITE else n - i) && e == i + n1
    requires start + e <= MAXFILE * BSIZE && Fs.Lacking(a, start, e)
    ensures Short(a, start, n)
  {
    forall j: nat | StopsAt(false, start, n, j) ensures Fs.Lacking(a, start, j) {
      StopsLater(start, n, i, n1, j);
      Fs.CostGrows(a.was, start + e, start + j);
    }
  }

  // Exactly when balloc panics in filewrite.
  lemma PanicIff(a: Fs.Account, start: nat, n: nat, panicked: bool, i: nat, free: int)
    requires panicked ==> Short(a, start, n)
    requires !panicked ==> StopsAt(false, start, n, i) && free >= 0 && Fs.Balance(a, free, start, i)
    ensures forall j: nat :: StopsAt(false, start, n, j) ==> (panicked <==> a.free < Fs.Need(a.was, start + j))
  {
    forall j: nat | StopsAt(false, start, n, j) ensures panicked <==> a.free < Fs.Need(a.was, start + j) {
      if panicked {
        assert Fs.Lacking(a, start, j);
      } else {
        StopsOnce(false, start, n, i, j);
        Fs.Settles(a, free, start, i);
      }
    }
  }

  class File {
    const fs: Fs.FileSystem
    const inum: nat
    const readable: bool
    const writable: bool
    var off: nat

    constructor (fs: Fs.FileSystem, inum: nat, readable: bool, writable: bool)
      ensures this.fs == fs && this.inum == inum && this.readable == readable && this.writable == writable && off == 0
    {
      this.fs, this.inum, this.readable, this.writable, this.off := fs, inum, readable, writable, 0;
    }

    // No other file has changed.
    twostate predicate Others(n: nat)
      reads fs
    {
      forall m: nat :: m != n && old(fs.NoHoles(m)) ==> fs.NoHoles(m) && fs.File(m) == old(fs.File(m))
    }

    ghost predicate Usable()
      reads this, fs
    {
      fs.Valid() && inum < |fs.inodes| && fs.NoHoles(inum) && fs.inodes[inum].kind != Fs.T_DEV && off < 0x1_0000_0000
    }

    // begin_op: the new transaction has logged nothing.
    ghost method Begin()
      requires Usable()
      modifies fs`logged
      ensures Usable() && fs.logged == {} && fs.File(inum) == old(fs.File(inum)) && Others(inum)
    {
      fs.BeginOp();
    }

    // writei in a transaction that has logged nothing yet; blocks is the number of distinct blocks it logs.
    method Transaction(piece: seq<Byte>) returns (r: Option<int>, ghost blocks: nat)
      requires Usable() && |piece| <= MAXWRITE && fs.logged == {}
      modifies fs
      ensures r.None? ==> Ownership.Full(fs.bits, fs.size)
      ensures r.Some? ==> Usable() && blocks == |fs.logged| <= 6 + |fs.bitmapBlocks| && Others(inum)
      ensures r == Some(-1) <==> old(off) > |old(fs.File(inum))| || old(off) + |piece| > MAXFILE * BSIZE
      ensures r == Some(-1) ==> fs.File(inum) == old(fs.File(inum))
      ensures r.Some? && r.value != -1 ==>
                && r.value == |piece| && fs.File(inum) == Overwrite(old(fs.File(inum)), old(off), piece)
                && fs.FileWritten(inum, piece, old(off))
      ensures r.None? ==> old(off) <= |old(fs.File(inum))| && old(off) + |piece| <= MAXFILE * BSIZE
      ensures r.None? ==> Fs.Lacking(Fs.Account(old(fs.Free()), |old(fs.File(inum))|), old(off), |piece|)
      ensures r == Some(-1) ==> fs.Free() == old(fs.Free())
      ensures r.Some? && r.value != -1 ==>
                Fs.Balance(Fs.Account(old(fs.Free()), |old(fs.File(inum))|), fs.Free(), old(off), |piece|)
    {
      ghost var a := Fs.Account(fs.Free(), |fs.File(inum)|);
      assert a.was == fs.inodes[inum].size;
      r := fs.Writei(inum, piece, off);
      blocks := |fs.logged|;
      if r.Some? && r.value != -1 {
        SpanOfChunk(off, |piece|);
        assert fs.logged - old(fs.logged) == fs.logged;
      }
    }

    // The same, as far as filewrite's loop needs it.
    method PutPiece(piece: seq<Byte>) returns (r: Option<int>, ghost blocks: nat)
      requires Usable() && |piece| <= MAXWRITE && fs.logged == {}
      modifies fs
      ensures r.None? ==> Ownership.Full(fs.bits, fs.size)
      ensures r.Some? ==> Usable() && blocks == |fs.logged| <= 6 + |fs.bitmapBlocks| && Others(inum)
      ensures r == Some(-1) <==> old(off) > |old(fs.File(inum))| || old(off) + |piece| > MAXFILE * BSIZE
      ensures r == Some(-1) ==> fs.File(inum) == old(fs.File(inum))
      ensures r.Some? && r.value != -1 ==>
                r.value == |piece| && fs.File(inum) == Overwrite(old(fs.File(inum)), old(off), piece)
      ensures r.None? ==> old(off) <= |old(fs.File(inum))| && old(off) + |piece| <= MAXFILE * BSIZE
      ensures r.None? ==> Fs.Lacking(Fs.Account(old(fs.Free()), |old(fs.File(inum))|), old(off), |piece|)
      ensures r == Some(-1) ==> fs.Free() == old(fs.Free())
      ensures r.Some? && r.value != -1 ==>
                Fs.Balance(Fs.Account(old(fs.Free()), |old(fs.File(inum))|), fs.Free(), old(off), |piece|)
    {
      r, blocks := Transaction(piece);
    }

    method WriteChunk(piece: seq<Byte>) returns (r: Option<int>, ghost blocks: nat)
      requires Usable() && |piece| <= MAXWRITE
      modifies this`off, fs
      ensures r.None? ==> Ownership.Full(fs.bits, fs.size)
      ensures r.Some? ==> Usable() && blocks == |fs.logged| <= 6 + |fs.bitmapBlocks| && Others(inum)
      ensures r == Some(-1) <==> old(off) > |old(fs.File(inum))| || old(off) + |piece| > MAXFILE * BSIZE
      ensures r == Some(-1) ==> off == old(off) && fs.File(inum) == old(fs.File(inum))
      ensures r.Some? && r.value != -1 ==>
                r.value == |piece| && off == old(off) + |piece|
                    && fs.File(inum) == Overwrite(old(fs.File(inum)), old(off), piece)
      ensures r.None? ==> old(off) <= |old(fs.File(inum))| && old(off) + |piece| <= MAXFILE * BSIZE
      ensures r.None? ==> Fs.Lacking(Fs.Account(old(fs.Free()), |old(fs.File(inum))|), old(off), |piece|)
      ensures r == Some(-1) ==> fs.Free() == old(fs.Free())
      ensures r.Some? && r.value != -1 ==>
                Fs.Balance(Fs.Account(old(fs.Free()), |old(fs.File(inum))|), fs.Free(), old(off), |piece|)
    {
      Begin();
      r, blocks := PutPiece(piece);
      if r.Some? && r.value > 0 {
        off := off + r.value;
      }
    }

    // filewrite with the first i bytes stored; file is the file at the start.
    ghost predicate Stored(file: seq<Byte>, start: nat, addr: seq<Byte>, i: nat)
      requires i <= |addr|
      reads this, fs
    {
      && Usable() && off == start + i
      && (start <= |file| ==> off <= |fs.File(inum)| && fs.File(inum) == Overwrite(file, start, addr[..i]))
      && (start > |file| ==> i == 0 && fs.File(inum) == file)
    }

    // The chunk of n1 bytes from i to e; i' is the new i, unchanged when writei refuses.
    method StoreChunk(addr: seq<Byte>, i: nat, n1: nat, e: nat, ghost file: seq<Byte>, ghost start: nat,
                      ghost a: Fs.Account)
      returns (r: Option<int>, i': nat, ghost blocks: nat)
      requires e == i + n1 <= |addr| && 0 < n1 <= MAXWRITE && Stored(file, start, addr, i)
      requires a.was == |file| && (start <= |file| ==> Fs.Balance(a, fs.Free(), start, i))
      modifies this`off, fs
      ensures r.None? ==> Ownership.Full(fs.bits, fs.size)
      ensures r.None? ==>
                start <= |file| && start + e <= MAXFILE * BSIZE && Fs.Lacking(a, start, e)
      ensures r.Some? && start <= |file| ==> Fs.Balance(a, fs.Free(), start, i')
      ensures i' <= |addr| && (r.Some? ==> Stored(file, start, addr, i') && Others(inum))
      ensures r.Some? ==>
                if start > |file| || start + e > MAXFILE * BSIZE then r.value == -1 && i' == i
                else r.value == n1 && i' == e
      ensures r.Some? ==> blocks == |fs.logged| && (fs.size <= BPB ==> blocks <= CHUNKBLOCKS)
    {
      if start <= |file| { ChunkDone(file, start, addr, i, e); }
      assert fs.size <= BPB ==> |fs.bitmapBlocks| <= 1 by {
        if fs.size <= BPB { SubsetSize(fs.bitmapBlocks, {fs.bmapstart}); }
      }
      var piece := addr[i..e];
      ghost var a1, at := Fs.Account(fs.Free(), |fs.File(inum)|), off;
      r, blocks := WriteChunk(piece);
      i' := if r.Some? && r.value >= 0 then e else i;
      if r.None? {
        ChunkLacks(a, a1, start, i, at, |piece|, e);
      } else if r.value >= 0 {
        ChunkPaid(a, a1, start, i, at, |piece|, e, fs.Free());
        assert off == start + e && fs.File(inum) == Overwrite(file, start, addr[..e]);
      }
    }

    // One turn of the loop.
    method NextChunk(addr: seq<Byte>, i: nat, n: nat, ghost file: seq<Byte>, ghost start: nat, ghost a: Fs.Account,
                     ghost ops: seq<nat>)
      returns (r: Option<int>, i': nat, ghost ops': seq<nat>)
      requires i < n <= |addr| && Stored(file, start, addr, i) && AtChunk(start, n, i)
               && Logged(ops, Chunks(i), fs.size)
      requires a.was == |file| && (start <= |file| ==> Fs.Balance(a, fs.Free(), start, i))
      modifies this`off, fs
      ensures r.None? ==> Ownership.Full(fs.bits, fs.size)
      ensures r.None? ==> start <= |file| && Short(a, start, n)
      ensures r.Some? && start <= |file| ==> Fs.Balance(a, fs.Free(), start, i')
      ensures r.Some? ==> i' <= |addr| && Stored(file, start, addr, i') && AtChunk(start, n, i') && Others(inum)
      ensures r.Some? ==> ops' == ops + [|fs.logged|] && Turned(start > |file|, start, n, i, r.value, i', ops', fs.size)
    {
      var n1 := if n - i > MAXWRITE then MAXWRITE else n - i;
      var e := i + n1;
      ghost var blocks, size := 0, fs.size;
      r, i', blocks := StoreChunk(addr, i, n1, e, file, start, a);
      ops' := ops + [blocks];
      if r.None? {
        ShortFrom(a, start, n, i, n1, e);
      } else {
        TurnOutcome(start > |file|, start, n, i, n1, e, r.value, i', ops, blocks, ops', size);
      }
    }

    // The loop of filewrite; i is the number of bytes stored.
    method WriteAll(addr: seq<Byte>, n: int, ghost file: seq<Byte>, ghost start: nat, ghost a: Fs.Account)
      returns (panicked: bool, i: nat, ghost ops: seq<nat>)
      requires n <= |addr| && Stored(file, start, addr, 0)
      requires a.was == |file| && (start <= |file| ==> Fs.Balance(a, fs.Free(), start, 0))
      modifies this`off, fs
      ensures panicked ==> Ownership.Full(fs.bits, fs.size)
      ensures panicked ==> start <= |file| && n > 0 && Short(a, start, n)
      ensures !panicked && start <= |file| ==> Fs.Balance(a, fs.Free(), start, i)
      ensures !panicked ==> i <= |addr| && Stored(file, start, addr, i)
      ensures !panicked ==> StopsAt(start > |file|, start, if n < 0 then 0 else n, i)
      ensures !panicked ==> Others(inum)
      ensures !panicked ==> Logged(ops, Chunks(i) + if i < n then 1 else 0, fs.size)
    {
      i, ops, panicked := 0, [], false;
      while i < n
        invariant !panicked && i <= |addr| && Stored(file, start, addr, i) && AtChunk(start, n, i)
        invariant Others(inum) && Logged(ops, Chunks(i), fs.size)
        invariant start <= |file| ==> Fs.Balance(a, fs.Free(), start, i)
      {
        var r;
        r, i, ops := NextChunk(addr, i, n, file, start, a, ops);
        if r.None? { panicked := true; return; }
        if r.value < 0 { return; }
      }
    }

    // None is a panic of balloc. Chunks may have been stored although the result is -1.
    method Write(addr: seq<Byte>, n: int) returns (r: Option<int>, ghost stored: nat, ghost ops: seq<nat>)
      requires Usable() && n <= |addr|
      modifies this`off, fs
      ensures r.None? ==> Ownership.Full(fs.bits, fs.size)
      ensures !writable ==> r == Some(-1) && stored == 0
      // It panics exactly if the file, grown to where the loop would stop, needs more blocks than are free.
      ensures !writable || n <= 0 || old(off) > |old(fs.File(inum))| ==> r.Some?
      ensures writable && n > 0 && old(off) <= |old(fs.File(inum))| ==>
                forall j: nat :: StopsAt(false, old(off), n, j) ==>
                    (r.None? <==> old(fs.Free()) < Fs.Need(|old(fs.File(inum))|, old(off) + j))
      ensures r.Some? && writable ==>
                r.value == if n == 0 || (n > 0 && old(off) <= |old(fs.File(inum))| && old(off) + n <= MAXFILE * BSIZE)
                    then n else -1
      ensures r.Some? && writable ==>
                StopsAt(old(off) > |old(fs.File(inum))|, old(off), if n < 0 then 0 else n, stored)
      ensures r.Some? ==> stored <= |addr| && Stored(old(fs.File(inum)), old(off), addr, stored)
      ensures r.Some? ==> Others(inum)
      // ops holds what each transaction logged, the refused one included.
      ensures r.Some? && writable ==> Logged(ops, Chunks(stored) + if stored < n then 1 else 0, fs.size)
    {
      ghost var file, start := fs.File(inum), off;
      ghost var a := Fs.Account(fs.Free(), |file|);
      if start <= |file| {
        NothingStored(file, start, addr);
        Fs.OpenAccount(a, start);
      }
      if !writable { return Some(-1), 0, []; }
      var panicked, i;
      panicked, i, ops := WriteAll(addr, n, file, start, a);
      if n > 0 && start <= |file| { PanicIff(a, start, n, panicked, i, fs.Free()); }
      stored := i;
      r := if panicked then None else Some(if i == n then n else -1);
    }

    method Read(n: nat) returns (dst: seq<Byte>, r: int)
      requires Usable() && n < 0x8000_0000
      modifies this`off, fs
      ensures fs.Untouched() && Usable()
      ensures r == -1 <==> !readable || old(off) > |fs.File(inum)| || old(off) + n >= 0x1_0000_0000
      ensures r == -1 ==> off == old(off)
      ensures r != -1 ==> 0 <= r && off == old(off) + r <= |fs.File(inum)| && dst == fs.File(inum)[old(off)..off]
      ensures r != -1 ==> r == n || off == |fs.File(inum)|
    {
      if !readable { return [], -1; }
      dst, r := fs.Readi(inum, off, n);
      if r > 0 { off := off + r; }
    }
  }
}
