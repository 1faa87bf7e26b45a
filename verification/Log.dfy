/** xv6-public/log.c over the buffer cache: what each section of the log writes, pins and keeps. */
module Log {
  import opened Param
  import opened Sets
  import opened FsFormat
  import opened Disk
  import opened Crash
  import opened BufferCache
  import Protocol = LogProtocol

  predicate Pins(b: Buf, blockno: nat) {
    Carries(b, ROOTDEV, blockno) && b.valid && b.dirty
  }

  ghost predicate IsPinned(bufs: seq<Buf>, blockno: nat) {
    exists i :: 0 <= i < |bufs| && Pins(bufs[i], blockno)
  }

  // Every block in the log header is held by a valid dirty buffer, and nothing else is dirty.
  ghost predicate Pinned(bufs: seq<Buf>, blocks: seq<nat>) {
    && (forall k :: 0 <= k < |blocks| ==> IsPinned(bufs, blocks[k]))
    && (forall i :: 0 <= i < |bufs| && bufs[i].dirty ==> bufs[i].blockno in blocks)
  }

  // The contents the transaction will give to a pinned block.
  ghost function PinnedData(bufs: seq<Buf>, blockno: nat): Block
    requires IsPinned(bufs, blockno)
  {
    var i :| 0 <= i < |bufs| && Pins(bufs[i], blockno);
    bufs[i].data
  }

  lemma PinIsUnique(bufs: seq<Buf>, i: nat, blockno: nat)
    requires OneBufferPerBlock(bufs) && i < |bufs| && Pins(bufs[i], blockno)
    ensures IsPinned(bufs, blockno) && PinnedData(bufs, blockno) == bufs[i].data
  {
    forall j | 0 <= j < |bufs| && Pins(bufs[j], blockno) ensures j == i { SameBlockSameBuffer(bufs, i, j); }
  }

  lemma PinOf(bufs: seq<Buf>, blockno: nat) returns (i: nat)
    requires OneBufferPerBlock(bufs) && IsPinned(bufs, blockno)
    ensures i < |bufs| && Pins(bufs[i], blockno) && bufs[i].data == PinnedData(bufs, blockno)
  {
    i :| 0 <= i < |bufs| && Pins(bufs[i], blockno);
    PinIsUnique(bufs, i, blockno);
  }

  ghost function Pending(bufs: seq<Buf>, blocks: seq<nat>): (r: seq<Block>)
    requires Pinned(bufs, blocks)
    ensures |r| == |blocks|
  {
    seq(|blocks|, k requires 0 <= k < |blocks| => PinnedData(bufs, blocks[k]))
  }

  // The same blocks, pinned with these contents.
  ghost predicate PinnedWith(bufs: seq<Buf>, blocks: seq<nat>, data: seq<Block>) {
    Pinned(bufs, blocks) && Pending(bufs, blocks) == data
  }

  // Nobody holds the buffer of block b, so bread of b does not wait.
  ghost predicate Unheld(bufs: seq<Buf>, b: nat) {
    forall i :: 0 <= i < |bufs| && Carries(bufs[i], ROOTDEV, b) ==> bufs[i].holder.None?
  }

  // Nobody holds a buffer that commit works on; what readers hold otherwise does not matter.
  ghost predicate Undisturbed(bufs: seq<Buf>, lay: Layout, blocks: seq<nat>) {
    forall b :: InLog(lay, b) || b in blocks ==> Unheld(bufs, b)
  }

  // Every buffer held now was held before, and is as it was.
  ghost predicate Returned(bufs: seq<Buf>, bufs': seq<Buf>) {
    |bufs'| == |bufs| && forall i :: 0 <= i < |bufs| && bufs'[i].holder.Some? ==> bufs'[i] == bufs[i]
  }

  lemma StillUndisturbed(bufs: seq<Buf>, bufs': seq<Buf>, lay: Layout, blocks: seq<nat>)
    requires Undisturbed(bufs, lay, blocks) && Returned(bufs, bufs')
    ensures Undisturbed(bufs', lay, blocks)
  {
    forall b | InLog(lay, b) || b in blocks ensures Unheld(bufs', b) {
      assert Unheld(bufs, b);
    }
  }

  ghost predicate AllSpare(bufs: seq<Buf>) {
    forall i :: 0 <= i < |bufs| ==> Eligible(bufs[i])
  }

  ghost predicate Spare(bufs: seq<Buf>) {
    exists i :: 0 <= i < |bufs| && Eligible(bufs[i])
  }

  // Room to read a block and then home: a spare buffer, and home pinned or everything spare.
  ghost predicate Room(bufs: seq<Buf>, home: nat) {
    && Spare(bufs)
    && (IsPinned(bufs, home) || AllSpare(bufs))
  }

  function Closed(b: Buf): Buf {
    b.(holder := None, refcnt := if b.refcnt > 0 then b.refcnt - 1 else 0)
  }

  // now is what bread makes of was: held for blockno, and back to was on release if was is pinned.
  predicate Lent(was: Buf, now: Buf, blockno: nat, pid: Pid) {
    && Carries(now, ROOTDEV, blockno) && now.valid && now.holder == Some(pid)
    && now.dirty == was.dirty
    && (was.dirty ==> Closed(now) == was)
    && (Eligible(was) ==> now.refcnt == 1)
  }

  // Only buffers i and j differ.
  ghost predicate SameBut(bufs: seq<Buf>, bufs': seq<Buf>, i: nat, j: nat) {
    |bufs'| == |bufs| && forall k :: 0 <= k < |bufs| && k != i && k != j ==> bufs'[k] == bufs[k]
  }

  // Dirty buffers are untouched, except possibly those of one block, and none is added.
  ghost predicate PinsKept(bufs: seq<Buf>, bufs': seq<Buf>, except: set<nat>) {
    && |bufs'| == |bufs|
    && (forall i :: 0 <= i < |bufs| && bufs[i].dirty && bufs[i].blockno !in except ==> bufs'[i] == bufs[i])
    && (forall i :: 0 <= i < |bufs| && bufs'[i].dirty ==> bufs[i].dirty && bufs[i].blockno !in except)
  }

  // Using and releasing one clean buffer leaves every pin in place.
  lemma TouchClean(bufs: seq<Buf>, bufs': seq<Buf>, b: nat)
    requires b < |bufs| && Spare(bufs) && SameBut(bufs, bufs', b, b)
    requires !bufs[b].dirty && !bufs'[b].dirty && bufs'[b].holder.None? && (Eligible(bufs[b]) ==> Eligible(bufs'[b]))
    ensures Returned(bufs, bufs') && Spare(bufs') && PinsKept(bufs, bufs', {})
  {
    var i :| 0 <= i < |bufs| && Eligible(bufs[i]);
    assert Eligible(bufs'[i]);
  }

  // The same, when a second buffer, of block home, is written as well.
  lemma TouchPair(bufs: seq<Buf>, bufs': seq<Buf>, l: nat, h: nat, home: nat)
    requires l < |bufs| && h < |bufs| && l != h && Spare(bufs) && SameBut(bufs, bufs', l, h)
    requires !bufs[l].dirty && !bufs'[l].dirty && bufs'[l].holder.None? && (Eligible(bufs[l]) ==> Eligible(bufs'[l]))
    requires !bufs'[h].dirty && bufs'[h].holder.None? && (Eligible(bufs[h]) ==> Eligible(bufs'[h]))
    requires bufs[h].dirty ==> bufs[h].blockno == home
    requires forall i :: 0 <= i < |bufs| && Pins(bufs[i], home) ==> h == i
    requires forall i :: 0 <= i < |bufs| && bufs[i].dirty ==> bufs[i].valid && bufs[i].dev == ROOTDEV
    ensures Returned(bufs, bufs') && Spare(bufs') && PinsKept(bufs, bufs', {home})
    ensures AllSpare(bufs) ==> AllSpare(bufs')
  {
    var i :| 0 <= i < |bufs| && Eligible(bufs[i]);
    assert Eligible(bufs'[i]);
  }

  // With no pin touched, the transaction stays pinned and keeps its contents.
  lemma PinnedKept(bufs: seq<Buf>, bufs': seq<Buf>, blocks: seq<nat>)
    requires OneBufferPerBlock(bufs) && OneBufferPerBlock(bufs')
    requires Pinned(bufs, blocks) && PinsKept(bufs, bufs', {})
    ensures Pinned(bufs', blocks) && Pending(bufs', blocks) == Pending(bufs, blocks)
  {
    forall k | 0 <= k < |blocks|
      ensures IsPinned(bufs', blocks[k])
      ensures PinnedData(bufs', blocks[k]) == PinnedData(bufs, blocks[k])
    {
      var i :| 0 <= i < |bufs| && Pins(bufs[i], blocks[k]);
      assert Pins(bufs'[i], blocks[k]);
      PinIsUnique(bufs, i, blocks[k]);
      PinIsUnique(bufs', i, blocks[k]);
    }
  }

  ghost predicate Wrote(disk: Image, writes: seq<Write>, disk': Image, writes': seq<Write>, w: Write) {
    w.blockno < |disk| && disk' == disk[w.blockno := w.data] && writes' == writes + [w]
  }

  // The first k writes of ws have reached the disk since it was disk0.
  ghost predicate Issued(disk0: Image, writes0: seq<Write>, disk: Image, writes: seq<Write>, ws: seq<Write>, k: nat) {
    k <= |ws| && disk == Apply(disk0, ws[..k]) && writes == writes0 + ws[..k]
  }

  lemma IssueNext(disk0: Image, writes0: seq<Write>, disk: Image, writes: seq<Write>,
                  disk': Image, writes': seq<Write>, ws: seq<Write>, k: nat)
    requires Issued(disk0, writes0, disk, writes, ws, k) && k < |ws|
    requires Wrote(disk, writes, disk', writes', ws[k])
    ensures Issued(disk0, writes0, disk', writes', ws, k + 1)
  {
    assert ws[..k + 1] == ws[..k] + [ws[k]];
    ApplySnoc(disk0, ws[..k], ws[k]);
  }

  lemma IssueGiven(disk0: Image, writes0: seq<Write>, disk: Image, writes: seq<Write>,
                   disk': Image, writes': seq<Write>, ws: seq<Write>, k: nat, w: Write, k': nat)
    requires Issued(disk0, writes0, disk, writes, ws, k) && k < |ws| && ws[k] == w && k' == k + 1
    requires Wrote(disk, writes, disk', writes', w)
    ensures Issued(disk0, writes0, disk', writes', ws, k')
  {
    IssueNext(disk0, writes0, disk, writes, disk', writes', ws, k);
  }

  lemma IssueLast(disk0: Image, writes0: seq<Write>, disk: Image, writes: seq<Write>,
                  disk': Image, writes': seq<Write>, ws: seq<Write>, k: nat)
    requires Issued(disk0, writes0, disk, writes, ws, k) && k + 1 == |ws|
    requires Wrote(disk, writes, disk', writes', ws[k])
    ensures disk' == Apply(disk0, ws) && writes' == writes0 + ws
  {
    IssueNext(disk0, writes0, disk, writes, disk', writes', ws, k);
    Whole(ws);
  }

  lemma NothingIssued(disk: Image, writes: seq<Write>, ws: seq<Write>)
    ensures Issued(disk, writes, disk, writes, ws, 0)
  {
    assert ws[..0] == [];
  }

  // Writing block k home unpins it and nothing else.
  lemma PinsNext(bufs: seq<Buf>, bufs': seq<Buf>, blocks: seq<nat>, k: nat)
    requires k < |blocks| && Distinct(blocks) && Pinned(bufs, blocks[k..]) && PinsKept(bufs, bufs', {blocks[k]})
    ensures Pinned(bufs', blocks[k + 1..])
  {
    var rest := blocks[k + 1..];
    forall j | 0 <= j < |rest| ensures IsPinned(bufs', rest[j]) {
      assert rest[j] == blocks[k..][j + 1];
      assert IsPinned(bufs, blocks[k..][j + 1]);
      var i :| 0 <= i < |bufs| && Pins(bufs[i], blocks[k + 1 + j]);
      assert Pins(bufs'[i], blocks[k + 1 + j]);
    }
    forall i | 0 <= i < |bufs'| && bufs'[i].dirty ensures bufs'[i].blockno in rest {
      assert bufs[i].blockno in blocks[k..];
      var j :| 0 <= j < |blocks[k..]| && blocks[k..][j] == bufs[i].blockno;
      assert rest[j - 1] == bufs[i].blockno;
    }
  }

  // Between transactions, and while one is open: every logged block is pinned, and the disk is as the last commit
  // left it, with an empty log.
  ghost predicate Settled(lay: Layout, committed: Image, blocks: seq<nat>, disk: Image, bufs: seq<Buf>) {
    && Loggable(lay, disk, blocks) && Pinned(bufs, blocks)
    && ValidHeader(lay, disk) && HeaderCount(disk[lay.start]) == 0 && disk == committed
  }

  // With block k written home, the blocks after it stay pinned with their contents.
  lemma PinnedNext(bufs: seq<Buf>, bufs': seq<Buf>, blocks: seq<nat>, data: seq<Block>, k: nat)
    requires k < |blocks| == |data| && Distinct(blocks) && OneBufferPerBlock(bufs) && OneBufferPerBlock(bufs')
    requires PinnedWith(bufs, blocks[k..], data[k..]) && PinsKept(bufs, bufs', {blocks[k]})
    ensures PinnedWith(bufs', blocks[k + 1..], data[k + 1..])
  {
    var rest := blocks[k + 1..];
    PinsNext(bufs, bufs', blocks, k);
    forall j | 0 <= j < |rest| ensures PinnedData(bufs', rest[j]) == data[k + 1..][j] {
      assert rest[j] == blocks[k..][j + 1] && Pending(bufs, blocks[k..])[j + 1] == data[k..][j + 1];
      assert IsPinned(bufs, blocks[k..][j + 1]);
      var i :| 0 <= i < |bufs| && Pins(bufs[i], rest[j]);
      PinIsUnique(bufs, i, rest[j]);
      assert Pins(bufs'[i], rest[j]);
      PinIsUnique(bufs', i, rest[j]);
    }
  }

  // Of n blocks, how many are home after j writes of commit.
  function Home(n: nat, j: nat): (k: nat)
    ensures j <= 2 * n + 1 ==> k <= n
  {
    if j <= n then 0 else j - n - 1
  }

  // In the middle of commit, after j of its writes since the disk was was: the blocks not yet home are pinned
  // with the contents the transaction gave them.
  ghost predicate InCommit(lay: Layout, was: Image, writes0: seq<Write>, blocks: seq<nat>, data: seq<Block>,
                           disk: Image, writes: seq<Write>, bufs: seq<Buf>, j: nat)
  {
    forall step: nat {:trigger Unfold(step)} :: Unfold(step) ==>
        Midway(lay, was, writes0, blocks, data, disk, writes, bufs, j)
  }

  // What InCommit says is looked at only where Unfold is mentioned; the steps of commit pass it on as a whole.
  ghost predicate Unfold(step: nat) { true }

  ghost predicate Midway(lay: Layout, was: Image, writes0: seq<Write>, blocks: seq<nat>, data: seq<Block>,
                         disk: Image, writes: seq<Write>, bufs: seq<Buf>, j: nat)
  {
    && Loggable(lay, was, blocks) && ValidHeader(lay, was) && HeaderCount(was[lay.start]) == 0
    && |data| == |blocks| > 0 && j <= 2 * |blocks| + 1
    && Issued(was, writes0, disk, writes, CommitWrites(lay, was[lay.start], blocks, data), j)
    && PinnedWith(bufs, blocks[Home(|blocks|, j)..], data[Home(|blocks|, j)..])
  }

  lemma Fold(lay: Layout, was: Image, writes0: seq<Write>, blocks: seq<nat>, data: seq<Block>,
             disk: Image, writes: seq<Write>, bufs: seq<Buf>, j: nat, k: nat)
    requires Loggable(lay, was, blocks) && ValidHeader(lay, was) && HeaderCount(was[lay.start]) == 0
    requires |data| == |blocks| > 0 && j <= 2 * |blocks| + 1 && k == Home(|blocks|, j)
    requires Issued(was, writes0, disk, writes, CommitWrites(lay, was[lay.start], blocks, data), j)
    requires PinnedWith(bufs, blocks[k..], data[k..])
    ensures InCommit(lay, was, writes0, blocks, data, disk, writes, bufs, j)
  {
  }

  lemma StartsCommit(lay: Layout, was: Image, writes: seq<Write>, blocks: seq<nat>, bufs: seq<Buf>, data: seq<Block>)
    requires Settled(lay, was, blocks, was, bufs) && blocks != [] && data == Pending(bufs, blocks)
    ensures InCommit(lay, was, writes, blocks, data, was, writes, bufs, 0)
  {
    assert Issued(was, writes, was, writes, CommitWrites(lay, was[lay.start], blocks, data), 0) by {
      NothingIssued(was, writes, CommitWrites(lay, was[lay.start], blocks, data));
    }
    assert blocks[0..] == blocks && data[0..] == data;
    Fold(lay, was, writes, blocks, data, was, writes, bufs, 0, 0);
  }

  // What a step of write_log finds.
  lemma BeforeLog(lay: Layout, was: Image, writes0: seq<Write>, blocks: seq<nat>, data: seq<Block>,
                  disk: Image, writes: seq<Write>, bufs: seq<Buf>, j: nat)
    requires InCommit(lay, was, writes0, blocks, data, disk, writes, bufs, j)
    ensures |data| == |blocks| && Loggable(lay, disk, blocks)
    ensures j <= |blocks| ==> PinnedWith(bufs, blocks, data)
    ensures j < |blocks| ==> IsPinned(bufs, blocks[j]) && PinnedData(bufs, blocks[j]) == data[j]
  {
    assert Unfold(j);
    if j <= |blocks| {
      assert blocks[0..] == blocks && data[0..] == data;
      if j < |blocks| { assert Pending(bufs, blocks)[j] == data[j]; }
    }
  }

  // One more log write.
  lemma Logged(lay: Layout, was: Image, writes0: seq<Write>, blocks: seq<nat>, data: seq<Block>,
               disk: Image, writes: seq<Write>, bufs: seq<Buf>, j: nat, disk': Image, writes': seq<Write>,
                   bufs': seq<Buf>, j': nat)
    requires InCommit(lay, was, writes0, blocks, data, disk, writes, bufs, j) && j < |blocks| == |data| && j' == j + 1
    requires Wrote(disk, writes, disk', writes', Write(lay.start + j + 1, data[j]))
    requires OneBufferPerBlock(bufs) && OneBufferPerBlock(bufs') && PinsKept(bufs, bufs', {})
    ensures InCommit(lay, was, writes0, blocks, data, disk', writes', bufs', j')
  {
    assert Unfold(j);
    var ws := CommitWrites(lay, was[lay.start], blocks, data);
    CommitWriteAt(lay, was[lay.start], blocks, data, ws, j, |blocks| + 1 + j);
    IssueNext(was, writes0, disk, writes, disk', writes', ws, j);
    PinnedKept(bufs, bufs', blocks[0..]);
    Fold(lay, was, writes0, blocks, data, disk', writes', bufs', j', 0);
  }

  // The header write: the commit point.
  lemma Headed(lay: Layout, was: Image, writes0: seq<Write>, blocks: seq<nat>, data: seq<Block>,
               disk: Image, writes: seq<Write>, bufs: seq<Buf>, j: nat, disk': Image, writes': seq<Write>,
                   bufs': seq<Buf>, j': nat)
    requires InCommit(lay, was, writes0, blocks, data, disk, writes, bufs, j) && j == |blocks| && j' == j + 1
    requires Loggable(lay, disk, blocks) && Wrote(disk, writes, disk', writes',
               Write(lay.start, WithHeader(disk[lay.start], blocks)))
    requires OneBufferPerBlock(bufs) && OneBufferPerBlock(bufs') && PinsKept(bufs, bufs', {})
    ensures InCommit(lay, was, writes0, blocks, data, disk', writes', bufs', j')
  {
    assert Unfold(j);
    var ws := CommitWrites(lay, was[lay.start], blocks, data);
    BeforeHeader(lay, was, blocks, data, j);
    HeaderWriteAt(lay, was[lay.start], blocks, data, ws, j, 2 * j + 1);
    IssueNext(was, writes0, disk, writes, disk', writes', ws, j);
    PinnedKept(bufs, bufs', blocks[0..]);
    Fold(lay, was, writes0, blocks, data, disk', writes', bufs', j', 0);
  }

  // What a step of install_trans finds.
  lemma BeforeHome(lay: Layout, was: Image, writes0: seq<Write>, blocks: seq<nat>, data: seq<Block>,
                   disk: Image, writes: seq<Write>, bufs: seq<Buf>, j: nat, k: nat)
    requires InCommit(lay, was, writes0, blocks, data, disk, writes, bufs, j) && j == |blocks| + 1 + k && k <= |blocks|
    ensures |data| == |blocks| && Loggable(lay, disk, blocks) && Loggable(lay, was, blocks) && Pinned(bufs, blocks[k..])
    ensures k < |blocks| ==> IsPinned(bufs, blocks[k])
    ensures forall i :: 0 <= i < |bufs| && bufs[i].dirty ==> bufs[i].blockno in blocks
  {
    assert Unfold(j);
    if k < |blocks| { assert blocks[k..][0] == blocks[k]; }
    forall i | 0 <= i < |bufs| && bufs[i].dirty ensures bufs[i].blockno in blocks {
      assert bufs[i].blockno in blocks[k..];
    }
  }

  lemma HomeIssued(lay: Layout, was: Image, writes0: seq<Write>, blocks: seq<nat>, data: seq<Block>,
                   disk: Image, writes: seq<Write>, j: nat, k: nat, disk': Image, writes': seq<Write>, j': nat)
    requires Loggable(lay, was, blocks) && ValidHeader(lay, was) && |data| == |blocks| && j == |blocks| + 1 + k
             && k < |blocks| && j' == j + 1
    requires Issued(was, writes0, disk, writes, CommitWrites(lay, was[lay.start], blocks, data), j)
    requires Wrote(disk, writes, disk', writes', Write(blocks[k], disk[lay.start + k + 1]))
    ensures Issued(was, writes0, disk', writes', CommitWrites(lay, was[lay.start], blocks, data), j')
  {
    var ws := CommitWrites(lay, was[lay.start], blocks, data);
    var w := Write(blocks[k], disk[lay.start + k + 1]);
    HomeWrite(lay, was, blocks, data, disk, j, k, ws, w);
    IssueGiven(was, writes0, disk, writes, disk', writes', ws, j, w, j');
  }

  // The next write of commit is the block copied from the log.
  lemma HomeWrite(lay: Layout, was: Image, blocks: seq<nat>, data: seq<Block>, disk: Image, j: nat, k: nat,
                  ws: seq<Write>, w: Write)
    requires Loggable(lay, was, blocks) && ValidHeader(lay, was) && |data| == |blocks|
    requires j == |blocks| + 1 + k && k < |blocks| && ws == CommitWrites(lay, was[lay.start], blocks, data)
    requires lay.start + k + 1 < |disk| && w == Write(blocks[k], disk[lay.start + k + 1])
    requires j <= |ws| && disk == Apply(was, ws[..j])
    ensures j < |ws| && ws[j] == w
  {
    AfterHeader(lay, was, blocks, data, k, j, disk, k);
    CommitWriteAt(lay, was[lay.start], blocks, data, ws, k, j);
  }

  lemma EraseIssued(lay: Layout, was: Image, writes0: seq<Write>, blocks: seq<nat>, data: seq<Block>,
                    disk: Image, writes: seq<Write>, j: nat, disk': Image, writes': seq<Write>)
    requires Loggable(lay, was, blocks) && ValidHeader(lay, was) && |data| == |blocks| && j == 2 * |blocks| + 1
    requires Issued(was, writes0, disk, writes, CommitWrites(lay, was[lay.start], blocks, data), j)
    requires Wrote(disk, writes, disk', writes', Write(lay.start, WithHeader(disk[lay.start], [])))
    ensures var ws := CommitWrites(lay, was[lay.start], blocks, data);
            writes' == writes0 + ws && disk' == Apply(was, ws)
  {
    var ws := CommitWrites(lay, was[lay.start], blocks, data);
    AfterHeader(lay, was, blocks, data, |blocks|, j, disk, 0);
    HeaderWriteAt(lay, was[lay.start], blocks, data, ws, |blocks|, j);
    IssueLast(was, writes0, disk, writes, disk', writes', ws, j);
  }

  // One more block written home.
  lemma Installed(lay: Layout, was: Image, writes0: seq<Write>, blocks: seq<nat>, data: seq<Block>,
                  disk: Image, writes: seq<Write>, bufs: seq<Buf>, j: nat, k: nat, disk': Image, writes': seq<Write>,
                      bufs': seq<Buf>, j': nat)
    requires InCommit(lay, was, writes0, blocks, data, disk, writes, bufs, j) && j == |blocks| + 1 + k && k < |blocks|
             && j' == j + 1
    requires lay.start + k + 1 < |disk| && Wrote(disk, writes, disk', writes',
               Write(blocks[k], disk[lay.start + k + 1]))
    requires OneBufferPerBlock(bufs) && OneBufferPerBlock(bufs') && PinsKept(bufs, bufs', {blocks[k]}) && Spare(bufs')
    ensures InCommit(lay, was, writes0, blocks, data, disk', writes', bufs', j')
  {
    assert Unfold(j);
    HomeIssued(lay, was, writes0, blocks, data, disk, writes, j, k, disk', writes', j');
    PinnedNext(bufs, bufs', blocks, data, k);
    Fold(lay, was, writes0, blocks, data, disk', writes', bufs', j', k + 1);
  }

  // The transaction is in the files, by the writes of commit.
  ghost predicate Written(lay: Layout, was: Image, writes0: seq<Write>, blocks: seq<nat>, data: seq<Block>,
                          disk: Image, writes: seq<Write>) {
    && Loggable(lay, was, blocks) && |data| == |blocks|
    && SameFiles(lay, disk, Updated(was, blocks, data))
    && writes == writes0 + CommitWrites(lay, was[lay.start], blocks, data)
  }

  // The empty header: the end of commit.
  lemma Erased(lay: Layout, was: Image, writes0: seq<Write>, blocks: seq<nat>, data: seq<Block>,
               disk: Image, writes: seq<Write>, bufs: seq<Buf>, j: nat, disk': Image, writes': seq<Write>)
    requires InCommit(lay, was, writes0, blocks, data, disk, writes, bufs, j) && j == 2 * |blocks| + 1
    requires Loggable(lay, disk, blocks) && Loggable(lay, was, blocks) && |data| == |blocks|
    requires Wrote(disk, writes, disk', writes', Write(lay.start, WithHeader(disk[lay.start], [])))
    ensures ValidHeader(lay, disk') && HeaderCount(disk'[lay.start]) == 0
    ensures Written(lay, was, writes0, blocks, data, disk', writes')
  {
    assert Unfold(j);
    EraseIssued(lay, was, writes0, blocks, data, disk, writes, j, disk', writes');
    CommitComplete(lay, was, blocks, data);
  }

  class Log {
    const cache: Cache
    const start: nat
    var outstanding: int
    var committing: bool
    var n: nat
    var block: seq<nat>
    ghost var added: map<Pid, nat>
    ghost var waiting: set<Pid>
    ghost var committed: Image     // the disk when the last transaction was erased from the log
    ghost var writing: bool        // commit of a transaction is under way
    ghost var saved: seq<Block>    // the contents of that transaction
    ghost var before: seq<Write>   // the writes before it

    ghost function Lay(): Layout { Layout(start, NLOG) }

    ghost function Abs(): Protocol.State
      reads this`outstanding, this`committing, this`n, this`added, this`waiting
    {
      Protocol.State(outstanding, committing, n, added, waiting, false)
    }

    // How many of the writes of commit have been issued.
    ghost function Done(): nat
      reads this`before, cache
    {
      if |before| <= |cache.writes| then |cache.writes| - |before| else 0
    }

    // Holds between any two sections of any process, in the middle of commit too.
    ghost predicate Valid()
      reads this, cache
    {
      Protocol.Inv(Abs()) && n <= |block| == LOGSIZE && OnDisk()
    }

    ghost predicate OnDisk()
      requires n <= |block|
      reads this`n, this`block, this`committing, this`committed, this`writing, this`saved, this`before, cache
    {
      && cache.Valid()
      && if writing then
           && committing && |before| <= |cache.writes|
           && InCommit(Lay(), committed, before, block[..n], saved, cache.disk, cache.writes, cache.bufs, Done())
         else Settled(Lay(), committed, block[..n], cache.disk, cache.bufs)
    }

    // A crash now, whatever crashes follow in recovery: the files as last committed, or with the transaction
    // that commit is writing, once its header is on the disk.
    lemma CrashNow(crashes: seq<nat>)
      requires Valid()
      ensures ValidHeader(Lay(), cache.disk)
      ensures var r := Recovered(Lay(), cache.disk, crashes);
              && HeaderCount(r[start]) == 0
              && (!writing || Done() <= n ==> SameFiles(Lay(), r, committed))
              && (writing && Done() > n ==>
                    && Loggable(Lay(), committed, block[..n]) && |saved| == n
                    && SameFiles(Lay(), r, Updated(committed, block[..n], saved)))
    {
      if writing {
        assert Unfold(0);
        HeaderWriteAt(Lay(), committed[start], block[..n], saved,
            CommitWrites(Lay(), committed[start], block[..n], saved), n, 2 * n + 1);
        CommitIsCrashAtomic(Lay(), committed, block[..n], saved, Done(), crashes);
      } else {
        RecoveryOutcome(Lay(), cache.disk, crashes);
        EmptyTarget(Lay(), cache.disk);
      }
    }

    // initlog: the disk may hold a transaction that committed before a crash.
    constructor (pid: Pid, cache: Cache, start: nat)
      requires cache.Valid() && AllSpare(cache.bufs) && ValidHeader(Layout(start, NLOG), cache.disk)
      modifies cache
      ensures Valid() && this.cache == cache && this.start == start && Abs() == Protocol.Init && !writing
      ensures cache.writes == old(cache.writes) + RecoverWrites(Layout(start, NLOG), old(cache.disk))
      ensures SameFiles(Lay(), cache.disk, Target(Lay(), old(cache.disk)))
    {
      this.cache := cache;
      this.start := start;
      outstanding, committing, n := 0, false, 0;
      block := seq(LOGSIZE, _ => 0);
      added, waiting := map[], {};
      committed, writing, saved, before := cache.disk, false, [], [];
      new;
      RecoverFromLog(pid);
      Protocol.InvInit();
    }

    method RecoverFromLog(pid: Pid)
      requires cache.Valid() && AllSpare(cache.bufs) && ValidHeader(Lay(), cache.disk) && |block| == LOGSIZE
      modifies this`n, this`block, this`committed, cache
      ensures cache.Valid() && n == 0 && |block| == LOGSIZE
              && Settled(Lay(), committed, block[..n], cache.disk, cache.bufs)
      ensures cache.writes == old(cache.writes) + RecoverWrites(Lay(), old(cache.disk))
      ensures SameFiles(Lay(), cache.disk, Target(Lay(), old(cache.disk)))
    {
      ghost var disk, writes := cache.disk, cache.writes;
      ReadHead(pid);
      InstallTrans(pid, disk, writes);
      ClearAtBoot(pid, disk, writes);
      committed := cache.disk;
    }

    // The end of recovery: the empty header.
    method ClearAtBoot(pid: Pid, ghost disk0: Image, ghost writes0: seq<Write>)
      requires cache.Valid() && AllSpare(cache.bufs) && n <= |block| == LOGSIZE
      requires ValidHeader(Lay(), disk0) && HeaderBlocks(disk0[start]) == block[..n]
      requires Issued(disk0, writes0, cache.disk, cache.writes, RecoverWrites(Lay(), disk0), n)
      modifies this`n, cache
      ensures cache.Valid() && n == 0 && Loggable(Lay(), cache.disk, block[..n]) && Pinned(cache.bufs, block[..n])
      ensures ValidHeader(Lay(), cache.disk) && HeaderCount(cache.disk[start]) == 0
      ensures cache.writes == writes0 + RecoverWrites(Lay(), disk0)
      ensures SameFiles(Lay(), cache.disk, Target(Lay(), disk0))
    {
      ghost var ws := RecoverWrites(Lay(), disk0);
      ghost var disk, writes, k := cache.disk, cache.writes, n;
      DuringRecovery(Lay(), disk0, k, disk);
      n := 0;
      assert block[..n] == [];
      BootFree(cache.bufs, cache.disk, cache.unsaved);
      WriteHead(pid);
      IssueNext(disk0, writes0, disk, writes, cache.disk, cache.writes, ws, k);
      Whole(ws);
      RecoveryStep(Lay(), disk0, |ws|);
    }

    method ReadHead(pid: Pid)
      requires cache.Valid() && AllSpare(cache.bufs) && ValidHeader(Lay(), cache.disk) && |block| == LOGSIZE
      modifies this`n, this`block, cache
      ensures cache.Valid() && AllSpare(cache.bufs)
      ensures cache.disk == old(cache.disk) && cache.writes == old(cache.writes)
      ensures n <= |block| == LOGSIZE && block[..n] == HeaderBlocks(cache.disk[start])
    {
      BootFree(cache.bufs, cache.disk, cache.unsaved);
      var b := Borrow(pid, start);
      CopyHeader(cache.bufs[b].data);
      cache.Brelse(b, pid);
    }

    // The copying loop of read_head.
    method CopyHeader(lh: Block)
      requires HeaderCount(lh) <= LOGSIZE && |block| == LOGSIZE
      modifies this`n, this`block
      ensures n <= |block| == LOGSIZE && block[..n] == HeaderBlocks(lh)
    {
      n := HeaderCount(lh);
      for i := 0 to n
        invariant |block| == LOGSIZE && forall k :: 0 <= k < i ==> block[k] == Word(lh, 1 + k)
        modifies this`block
      {
        block := block[i := Word(lh, 1 + i)];
      }
    }

    // bread, where a buffer can be had without waiting.
    method Borrow(pid: Pid, blockno: nat) returns (b: nat)
      requires cache.Valid() && blockno < |cache.disk| && Unheld(cache.bufs, blockno)
      requires Spare(cache.bufs) || IsPinned(cache.bufs, blockno)
      modifies cache
      ensures cache.Valid() && b < NBUF && b !in cache.unsaved
      ensures cache.disk == old(cache.disk) && cache.writes == old(cache.writes) && cache.unsaved == old(cache.unsaved)
      ensures SameBut(old(cache.bufs), cache.bufs, b, b)
      ensures Lent(old(cache.bufs)[b], cache.bufs[b], blockno, pid)
      ensures forall i :: 0 <= i < NBUF && Carries(old(cache.bufs)[i], ROOTDEV, blockno) ==> b == i
      ensures old(cache.bufs)[b].dirty ==> old(cache.bufs)[b].blockno == blockno
      ensures old(cache.bufs)[b].holder.None?
      ensures !cache.bufs[b].dirty ==> cache.bufs[b].data == cache.disk[blockno]
    {
      var r := cache.Bread(pid, blockno);
      b := r.value;
    }

    // A clean log block, then a home block: the order of both copying loops.
    method ReadPair(pid: Pid, logged: nat, home: nat) returns (l: nat, h: nat)
      requires cache.Valid() && Unheld(cache.bufs, logged) && Unheld(cache.bufs, home)
      requires logged < |cache.disk| && home < |cache.disk| && logged != home
      requires forall i :: 0 <= i < NBUF && cache.bufs[i].dirty ==> cache.bufs[i].blockno != logged
      requires Room(cache.bufs, home)
      modifies cache
      ensures cache.Valid() && l < NBUF && h < NBUF && l != h
      ensures cache.disk == old(cache.disk) && cache.writes == old(cache.writes) && cache.unsaved == old(cache.unsaved)
      ensures l !in cache.unsaved && h !in cache.unsaved
      ensures !old(cache.bufs)[l].dirty && (old(cache.bufs)[h].dirty ==> old(cache.bufs)[h].blockno == home)
      ensures SameBut(old(cache.bufs), cache.bufs, l, h)
      ensures Lent(old(cache.bufs)[l], cache.bufs[l], logged, pid)
      ensures Lent(old(cache.bufs)[h], cache.bufs[h], home, pid)
      ensures cache.bufs[l].data == cache.disk[logged]
      ensures forall i :: 0 <= i < NBUF && Pins(old(cache.bufs)[i], home) ==> h == i
    {
      l := Borrow(pid, logged);
      assert forall i :: 0 <= i < NBUF && Pins(old(cache.bufs)[i], home) ==> Pins(cache.bufs[i], home);
      ghost var other := if l == 0 then 1 else 0;
      assert cache.bufs[other] == old(cache.bufs)[other];
      h := Borrow(pid, home);
    }

    // memmove into dst, bwrite it, and release both: the rest of both copying loops.
    method CopyAndRelease(pid: Pid, src: nat, dst: nat)
      requires cache.Valid() && src < NBUF && dst < NBUF && src != dst
      requires cache.bufs[src].holder == Some(pid) && cache.bufs[dst].holder == Some(pid)
      requires cache.bufs[dst].valid && src !in cache.unsaved
      modifies cache
      ensures cache.Valid() && old(cache.bufs)[dst].blockno < |cache.disk|
      ensures var data := old(cache.bufs)[src].data;
              && Wrote(old(cache.disk), old(cache.writes), cache.disk, cache.writes,
                  Write(old(cache.bufs)[dst].blockno, data))
              && SameBut(old(cache.bufs), cache.bufs, src, dst)
              && cache.bufs[dst] == Closed(old(cache.bufs)[dst].(data := data, dirty := false))
              && cache.bufs[src] == Closed(old(cache.bufs)[src])
      ensures cache.unsaved == old(cache.unsaved) - {dst}
    {
      CopyOver(pid, src, dst);
      cache.Brelse(dst, pid);
    }

    method CopyOver(pid: Pid, src: nat, dst: nat)
      requires cache.Valid() && src < NBUF && dst < NBUF && src != dst
      requires cache.bufs[src].holder == Some(pid) && cache.bufs[dst].holder == Some(pid)
      requires cache.bufs[dst].valid && src !in cache.unsaved
      modifies cache
      ensures cache.Valid() && dst !in cache.unsaved && cache.unsaved == old(cache.unsaved) - {dst}
      ensures cache.bufs ==
                old(cache.bufs)[dst := old(cache.bufs)[dst].(data := old(cache.bufs)[src].data, dirty := false)]
                                           [src := Closed(old(cache.bufs)[src])]
      ensures Wrote(old(cache.disk), old(cache.writes), cache.disk, cache.writes,
                    Write(old(cache.bufs)[dst].blockno, old(cache.bufs)[src].data))
    {
      cache.Overwrite(dst, pid, cache.bufs[src].data);
      cache.Brelse(src, pid);
    }

    // write_log, one block: cache to log.
    method CopyToLog(pid: Pid, tail: nat)
      requires cache.Valid() && Spare(cache.bufs)
      requires tail < n <= |block| && Loggable(Lay(), cache.disk, block[..n]) && Pinned(cache.bufs, block[..n])
      requires Unheld(cache.bufs, start + tail + 1) && Unheld(cache.bufs, block[tail])
      modifies cache
      ensures cache.Valid() && Spare(cache.bufs) && Returned(old(cache.bufs), cache.bufs)
      ensures PinsKept(old(cache.bufs), cache.bufs, {})
      ensures IsPinned(old(cache.bufs), block[tail])
      ensures Wrote(old(cache.disk), old(cache.writes), cache.disk, cache.writes,
                    Write(start + tail + 1, PinnedData(old(cache.bufs), block[tail])))
    {
      assert IsPinned(cache.bufs, block[..n][tail]);
      ghost var data := PinnedData(cache.bufs, block[tail]);
      ghost var i := PinOf(cache.bufs, block[tail]);
      var to, from := ReadPair(pid, start + tail + 1, block[tail]);
      assert from == i && cache.bufs[from].data == data && cache.bufs[to].blockno == start + tail + 1;
      CopyAndRelease(pid, from, to);
      TouchClean(old(cache.bufs), cache.bufs, to);
    }

    // install_trans, one block: log to home.
    method CopyHome(pid: Pid, tail: nat)
      requires tail < n <= |block| && Loggable(Lay(), cache.disk, block[..n])
      requires cache.Valid() && Room(cache.bufs, block[tail])
      requires Unheld(cache.bufs, start + tail + 1) && Unheld(cache.bufs, block[tail])
      requires forall i :: 0 <= i < NBUF && cache.bufs[i].dirty ==> cache.bufs[i].blockno in block[..n]
      modifies cache
      ensures cache.Valid() && Spare(cache.bufs) && Returned(old(cache.bufs), cache.bufs)
      ensures PinsKept(old(cache.bufs), cache.bufs, {block[tail]})
              && (AllSpare(old(cache.bufs)) ==> AllSpare(cache.bufs))
      ensures Wrote(old(cache.disk), old(cache.writes), cache.disk, cache.writes,
                Write(block[tail], old(cache.disk)[start + tail + 1]))
    {
      assert block[..n][tail] == block[tail];
      var lbuf, dbuf := ReadPair(pid, start + tail + 1, block[tail]);
      CopyAndRelease(pid, lbuf, dbuf);
      TouchPair(old(cache.bufs), cache.bufs, lbuf, dbuf, block[tail]);
    }

    method FillHeader(stale: Block) returns (hb: Block)
      requires n <= |block| && n <= LOGSIZE && forall i :: 0 <= i < n ==> block[i] < 0x1_0000_0000
      ensures hb == WithHeader(stale, block[..n])
    {
      hb := SetWord(stale, 0, n);
      for i := 0 to n
        invariant hb == Entered(SetWord(stale, 0, n), block[..i])
      {
        hb := SetWord(hb, 1 + i, block[i]);
        assert block[..i + 1][..i] == block[..i];
      }
    }

    // Copies the header into block log.start and writes it: with n > 0, the commit point.
    method WriteHead(pid: Pid)
      requires cache.Valid() && Spare(cache.bufs) && Unheld(cache.bufs, start)
      requires n <= |block| && Loggable(Lay(), cache.disk, block[..n])
      requires forall i :: 0 <= i < NBUF && cache.bufs[i].dirty ==> cache.bufs[i].blockno != start
      modifies cache
      ensures cache.Valid() && Spare(cache.bufs) && Returned(old(cache.bufs), cache.bufs)
      ensures PinsKept(old(cache.bufs), cache.bufs, {})
      ensures Wrote(old(cache.disk), old(cache.writes), cache.disk, cache.writes,
                    Write(start, WithHeader(old(cache.disk)[start], block[..n])))
    {
      var b := Borrow(pid, start);
      assert forall i :: 0 <= i < n ==> block[i] == block[..n][i];
      var hb := FillHeader(cache.bufs[b].data);
      StoreHead(pid, b, hb, old(cache.bufs));
    }

    method StoreHead(pid: Pid, b: nat, hb: Block, ghost bufs: seq<Buf>)
      requires cache.Valid() && |bufs| == NBUF && b < NBUF && Spare(bufs) && SameBut(bufs, cache.bufs, b, b)
      requires Lent(bufs[b], cache.bufs[b], start, pid) && !bufs[b].dirty && b !in cache.unsaved
      modifies cache
      ensures cache.Valid() && Spare(cache.bufs) && Returned(bufs, cache.bufs) && PinsKept(bufs, cache.bufs, {})
      ensures Wrote(old(cache.disk), old(cache.writes), cache.disk, cache.writes, Write(start, hb))
    {
      WriteAndRelease(pid, b, hb);
      TouchClean(bufs, cache.bufs, b);
    }

    method WriteAndRelease(pid: Pid, b: nat, hb: Block)
      requires cache.Valid() && b < NBUF && cache.bufs[b].holder == Some(pid) && cache.bufs[b].valid
      modifies cache
      ensures cache.Valid() && cache.bufs ==
                old(cache.bufs)[b := Closed(old(cache.bufs)[b].(data := hb, dirty := false))]
      ensures Wrote(old(cache.disk), old(cache.writes), cache.disk, cache.writes, Write(old(cache.bufs)[b].blockno, hb))
    {
      cache.Overwrite(b, pid, hb);
      cache.Brelse(b, pid);
    }

    // One turn of install_trans's loop in recovery.
    method InstallNext(pid: Pid, tail: nat, ghost disk0: Image, ghost writes0: seq<Write>)
      requires cache.Valid() && AllSpare(cache.bufs) && tail < n <= |block| == LOGSIZE
      requires ValidHeader(Lay(), disk0) && HeaderBlocks(disk0[start]) == block[..n]
      requires Issued(disk0, writes0, cache.disk, cache.writes, RecoverWrites(Lay(), disk0), tail)
      modifies cache
      ensures cache.Valid() && AllSpare(cache.bufs)
      ensures Issued(disk0, writes0, cache.disk, cache.writes, RecoverWrites(Lay(), disk0), tail + 1)
    {
      ghost var disk, writes := cache.disk, cache.writes;
      DuringRecovery(Lay(), disk0, tail, disk);
      BootFree(cache.bufs, disk, cache.unsaved);
      assert block[..n][tail] == block[tail];
      CopyHome(pid, tail);
      IssueNext(disk0, writes0, disk, writes, cache.disk, cache.writes, RecoverWrites(Lay(), disk0), tail);
    }

    // install_trans in recovery.
    method InstallTrans(pid: Pid, ghost disk0: Image, ghost writes0: seq<Write>)
      requires cache.Valid() && AllSpare(cache.bufs) && n <= |block| == LOGSIZE && cache.disk == disk0
               && cache.writes == writes0
      requires ValidHeader(Lay(), disk0) && HeaderBlocks(disk0[start]) == block[..n]
      modifies cache
      ensures cache.Valid() && AllSpare(cache.bufs)
      ensures Issued(disk0, writes0, cache.disk, cache.writes, RecoverWrites(Lay(), disk0), n)
    {
      var tail := 0;
      while tail < n
        invariant 0 <= tail <= n && cache.Valid() && AllSpare(cache.bufs)
        invariant Issued(disk0, writes0, cache.disk, cache.writes, RecoverWrites(Lay(), disk0), tail)
      {
        InstallNext(pid, tail, disk0, writes0);
        tail := tail + 1;
      }
    }

    // commit() starts on a transaction that is not empty.
    ghost method StartCommit()
      requires Valid() && committing && !writing && n > 0
      modifies this`writing, this`saved, this`before
      ensures Valid() && writing && Done() == 0 && saved == Pending(cache.bufs, block[..n]) && before == cache.writes
    {
      var was, blocks, data, disk, writes, bufs := committed, block[..n], Pending(cache.bufs, block[..n]),
                                                   cache.disk, cache.writes, cache.bufs;
      StartsCommit(Lay(), was, writes, blocks, bufs, data);
      writing, saved, before := true, data, writes;
      assert committed == was && block[..n] == blocks && cache.disk == disk && cache.writes == writes
             && cache.bufs == bufs && Done() == 0;
    }

    // A step of commit: one turn of write_log's loop.
    method LogNext(pid: Pid, tail: nat)
      requires Valid() && writing && Done() == tail < n
      requires Spare(cache.bufs) && Unheld(cache.bufs, start + tail + 1) && Unheld(cache.bufs, block[tail])
      modifies cache
      ensures Valid() && Done() == tail + 1 && Spare(cache.bufs) && Returned(old(cache.bufs), cache.bufs)
    {
      ghost var bufs, disk, writes, blocks := cache.bufs, cache.disk, cache.writes, block[..n];
      BeforeLog(Lay(), committed, before, blocks, saved, disk, writes, bufs, tail);
      assert blocks[tail] == block[tail];
      CopyToLog(pid, tail);
      Logged(Lay(), committed, before, blocks, saved, disk, writes, bufs, tail, cache.disk, cache.writes, cache.bufs,
          Done());
    }

    // A step of commit: the header that makes the transaction permanent.
    method CommitHead(pid: Pid)
      requires Valid() && writing && Done() == n && Spare(cache.bufs) && Unheld(cache.bufs, start)
      modifies cache
      ensures Valid() && Done() == n + 1 && Spare(cache.bufs) && Returned(old(cache.bufs), cache.bufs)
    {
      ghost var bufs, disk, writes, blocks := cache.bufs, cache.disk, cache.writes, block[..n];
      BeforeLog(Lay(), committed, before, blocks, saved, disk, writes, bufs, n);
      WriteHead(pid);
      Headed(Lay(), committed, before, blocks, saved, disk, writes, bufs, n, cache.disk, cache.writes, cache.bufs,
          Done());
    }

    // A step of commit: one turn of install_trans's loop.
    method HomeNext(pid: Pid, tail: nat)
      requires Valid() && writing && Done() == n + 1 + tail && tail < n
      requires Spare(cache.bufs) && Unheld(cache.bufs, start + tail + 1) && Unheld(cache.bufs, block[tail])
      modifies cache
      ensures Valid() && Done() == n + 2 + tail && Spare(cache.bufs) && Returned(old(cache.bufs), cache.bufs)
    {
      ghost var bufs, disk, writes, blocks, done := cache.bufs, cache.disk, cache.writes, block[..n], Done();
      BeforeHome(Lay(), committed, before, blocks, saved, disk, writes, bufs, done, tail);
      assert blocks[tail] == block[tail];
      CopyHome(pid, tail);
      assert Wrote(disk, writes, cache.disk, cache.writes, Write(blocks[tail], disk[Lay().start + tail + 1]));
      Installed(Lay(), committed, before, blocks, saved, disk, writes, bufs, done, tail, cache.disk, cache.writes,
          cache.bufs, Done());
    }

    // The last step of commit: the header is emptied.
    method Erase(pid: Pid)
      requires Valid() && writing && Done() == 2 * n + 1 && Spare(cache.bufs) && Unheld(cache.bufs, start)
      modifies this`n, this`writing, this`committed, cache
      ensures Valid() && !writing && n == 0 && Returned(old(cache.bufs), cache.bufs)
      ensures Written(Lay(), old(committed), before, old(block[..n]), saved, cache.disk, cache.writes)
      ensures Abs() == Protocol.Next(old(Abs()), Protocol.Install, Protocol.PEROP)
    {
      Protocol.InvStep(Abs(), Protocol.Install);
      EmptyHead(pid, Done());
    }

    method EmptyHead(pid: Pid, ghost done: nat)
      requires cache.Valid() && Spare(cache.bufs) && Unheld(cache.bufs, start) && n <= |block|
      requires InCommit(Lay(), committed, before, block[..n], saved, cache.disk, cache.writes, cache.bufs, done)
               && done == 2 * n + 1
      modifies this`n, this`committed, this`writing, cache
      ensures cache.Valid() && Returned(old(cache.bufs), cache.bufs)
      ensures n == 0 && !writing && Settled(Lay(), committed, block[..n], cache.disk, cache.bufs)
      ensures Written(Lay(), old(committed), before, old(block[..n]), saved, cache.disk, cache.writes)
    {
      ghost var was, writes0, blocks, data := committed, before, block[..n], saved;
      n, writing := 0, false;
      ClearHead(pid, was, writes0, blocks, data, done);
      ghost var disk, writes := cache.disk, cache.writes;
      committed := disk;
      assert cache.disk == disk && cache.writes == writes && before == writes0 && saved == data;
    }

    method ClearHead(pid: Pid, ghost was: Image, ghost writes0: seq<Write>, ghost blocks: seq<nat>,
                     ghost data: seq<Block>, ghost done: nat)
      requires cache.Valid() && Spare(cache.bufs) && Unheld(cache.bufs, start) && n == 0
      requires InCommit(Lay(), was, writes0, blocks, data, cache.disk, cache.writes, cache.bufs, done)
               && done == 2 * |blocks| + 1
      modifies cache
      ensures cache.Valid() && Returned(old(cache.bufs), cache.bufs)
              && Settled(Lay(), cache.disk, block[..n], cache.disk, cache.bufs)
      ensures Written(Lay(), was, writes0, blocks, data, cache.disk, cache.writes)
    {
      ghost var bufs, disk, writes := cache.bufs, cache.disk, cache.writes;
      BeforeHome(Lay(), was, writes0, blocks, data, disk, writes, bufs, done, |blocks|);
      assert blocks[|blocks|..] == [] && block[..n] == [];
      WriteHead(pid);
      Erased(Lay(), was, writes0, blocks, data, disk, writes, bufs, done, cache.disk, cache.writes);
      PinnedKept(bufs, cache.bufs, []);
    }

    method WriteLog(pid: Pid)
      requires Valid() && writing && Done() == 0 && Spare(cache.bufs) && Undisturbed(cache.bufs, Lay(), block[..n])
      modifies cache
      ensures Valid() && Done() == n && Spare(cache.bufs) && Undisturbed(cache.bufs, Lay(), block[..n])
    {
      var tail := 0;
      while tail < n
        invariant 0 <= tail <= n && Valid() && Done() == tail && Spare(cache.bufs)
        invariant Undisturbed(cache.bufs, Lay(), block[..n])
      {
        ghost var bufs := cache.bufs;
        Free(bufs, Lay(), block, n, tail);
        LogNext(pid, tail);
        StillUndisturbed(bufs, cache.bufs, Lay(), block[..n]);
        tail := tail + 1;
      }
    }

    // install_trans in commit.
    method InstallAll(pid: Pid)
      requires Valid() && writing && Done() == n + 1 && Spare(cache.bufs) && Undisturbed(cache.bufs, Lay(), block[..n])
      modifies cache
      ensures Valid() && Done() == 2 * n + 1 && Spare(cache.bufs) && Undisturbed(cache.bufs, Lay(), block[..n])
    {
      var tail := 0;
      while tail < n
        invariant 0 <= tail <= n && Valid() && Done() == n + 1 + tail && Spare(cache.bufs)
        invariant Undisturbed(cache.bufs, Lay(), block[..n])
      {
        ghost var bufs := cache.bufs;
        Free(bufs, Lay(), block, n, tail);
        HomeNext(pid, tail);
        StillUndisturbed(bufs, cache.bufs, Lay(), block[..n]);
        tail := tail + 1;
      }
    }

    // write_log and the header: commit up to its commit point.
    method LogAndHeader(pid: Pid)
      requires Valid() && writing && Done() == 0 && Spare(cache.bufs) && Undisturbed(cache.bufs, Lay(), block[..n])
      modifies cache
      ensures Valid() && Done() == n + 1 && Spare(cache.bufs) && Undisturbed(cache.bufs, Lay(), block[..n])
    {
      WriteLog(pid);
      ghost var bufs := cache.bufs;
      assert InLog(Lay(), start);
      CommitHead(pid);
      StillUndisturbed(bufs, cache.bufs, Lay(), block[..n]);
    }

    // commit() of a transaction, when nobody else takes a step in between.
    method CommitLogged(pid: Pid)
      requires Valid() && committing && !writing && n > 0
      requires Spare(cache.bufs) && Undisturbed(cache.bufs, Lay(), block[..n])
      modifies this`n, this`committed, this`writing, this`saved, this`before, cache
      ensures Valid() && !writing && n == 0
      ensures Written(Lay(), old(cache.disk), old(cache.writes), old(block[..n]), old(Pending(cache.bufs, block[..n])),
                      cache.disk, cache.writes)
      ensures Abs() == Protocol.Next(old(Abs()), Protocol.Install, Protocol.PEROP)
    {
      StartCommit();
      LogAndHeader(pid);
      InstallAll(pid);
      assert InLog(Lay(), start);
      Erase(pid);
    }

    method Commit(pid: Pid)
      requires Valid() && committing && !writing
      requires Spare(cache.bufs) && Undisturbed(cache.bufs, Lay(), block[..n])
      modifies this`n, this`committed, this`writing, this`saved, this`before, cache
      ensures Valid() && !writing && n == 0
      ensures old(n) > 0 ==>
                Written(Lay(), old(cache.disk), old(cache.writes), old(block[..n]),
                    old(Pending(cache.bufs, block[..n])),
                        cache.disk, cache.writes)
      ensures old(n) == 0 ==> cache.disk == old(cache.disk) && cache.writes == old(cache.writes)
      ensures Abs() == Protocol.Next(old(Abs()), Protocol.Install, Protocol.PEROP)
    {
      if n > 0 {
        CommitLogged(pid);
      }
    }

    // One pass of begin_op's loop under log.lock.
    method BeginOp(pid: Pid) returns (admitted: bool)
      requires Valid() && pid !in added && pid !in waiting
      modifies this`outstanding, this`added, this`waiting
      ensures Valid() && (admitted <==> !committing && n + (old(outstanding) + 1) * MAXOPBLOCKS <= LOGSIZE)
      ensures admitted ==>
                outstanding == old(outstanding) + 1 && added == old(added)[pid := 0] && waiting == old(waiting)
      ensures !admitted ==> outstanding == old(outstanding) && added == old(added) && waiting == old(waiting) + {pid}
      ensures Abs() == Protocol.Next(old(Abs()), Protocol.Begin(pid), Protocol.PEROP)
    {
      Protocol.InvStep(Abs(), Protocol.Begin(pid));
      admitted := !committing && n + (outstanding + 1) * MAXOPBLOCKS <= LOGSIZE;
      if admitted {
        outstanding, added := outstanding + 1, added[pid := 0];
      } else {
        waiting := waiting + {pid};
      }
    }

    // log_write's absorption loop: where blockno is logged, or n.
    method FindLogged(blockno: nat) returns (i: nat)
      requires n <= |block|
      ensures i <= n && (forall k :: 0 <= k < i ==> block[k] != blockno) && (i < n ==> block[i] == blockno)
    {
      i := 0;
      while i < n
        invariant 0 <= i <= n
        invariant forall k :: 0 <= k < i ==> block[k] != blockno
      {
        if block[i] == blockno { break; }
        i := i + 1;
      }
    }

    // log_write by an open operation, of a held buffer outside the log region. The asserts are
    // its two panics.
    method LogWrite(pid: Pid, b: nat)
      requires Valid() && pid in added
      requires b < NBUF && cache.bufs[b].holder == Some(pid) && cache.bufs[b].valid
      requires !InLog(Lay(), cache.bufs[b].blockno)
      requires cache.bufs[b].blockno in block[..n] || added[pid] < Protocol.PEROP
      modifies this`n, this`block, this`added, cache`bufs, cache`unsaved
      ensures Valid() && cache.unsaved == old(cache.unsaved) - {b}
      ensures cache.bufs == old(cache.bufs)[b := old(cache.bufs)[b].(dirty := true)]
      ensures var blockno := old(cache.bufs)[b].blockno;
              if blockno in old(block[..n]) then block[..n] == old(block[..n]) && Abs() == old(Abs())
              else block[..n] == old(block[..n]) + [blockno]
                   && Abs() == Protocol.Next(old(Abs()), Protocol.Append(pid), Protocol.PEROP)
    {
      Protocol.OpenOperation(Abs(), pid);
      Protocol.InvStep(Abs(), Protocol.Check(pid));
      assert !(n >= LOGSIZE || n >= NLOG - 1);
      assert !(outstanding < 1);
      var blockno := cache.bufs[b].blockno;
      var i := FindLogged(blockno);
      ghost var block', n' := block[i := blockno], if i == n then n + 1 else n;
      Recorded(Lay(), cache.disk, block, n, i, blockno, block', n', cache.bufs,
          cache.bufs[b := cache.bufs[b].(dirty := true)], b);
      Enter(pid, i, blockno);
      cache.Pin(b, pid);
    }

    // log_write's change of the header: blockno at entry i, which is new if it is the n-th.
    method Enter(pid: Pid, i: nat, blockno: nat)
      requires Protocol.Inv(Abs()) && pid in added && i <= n < |block| && (i < n || added[pid] < Protocol.PEROP)
      modifies this`n, this`block, this`added
      ensures block == old(block)[i := blockno] && n == if i == old(n) then old(n) + 1 else old(n)
      ensures Protocol.Inv(Abs())
      ensures Abs() == if i < old(n) then old(Abs())
                else Protocol.Next(old(Abs()), Protocol.Append(pid), Protocol.PEROP)
    {
      block := block[i := blockno];
      if i == n {
        Protocol.InvStep(Abs(), Protocol.Append(pid));
        added := added[pid := added[pid] + 1];
        n := n + 1;
      }
    }

    // bread's buffer changed in place by its holder, who logs it before release.
    method Modify(pid: Pid, b: nat, data: Block)
      requires Valid() && pid in added && b < NBUF && cache.bufs[b].holder == Some(pid) && cache.bufs[b].valid
      modifies cache`bufs, cache`unsaved
      ensures Valid() && cache.unsaved == old(cache.unsaved) + {b}
      ensures cache.bufs == old(cache.bufs)[b := old(cache.bufs)[b].(data := data)]
    {
      ghost var bufs := cache.bufs;
      Protocol.OpenOperation(Abs(), pid);
      cache.SetData(b, pid, data);
      forall k | 0 <= k < n ensures IsPinned(cache.bufs, block[..n][k]) {
        assert IsPinned(bufs, block[..n][k]);
        var i :| 0 <= i < NBUF && Pins(bufs[i], block[..n][k]);
        assert Pins(cache.bufs[i], block[..n][k]);
      }
    }

    // end_op's first section. The assert is its panic.
    method EndOp(pid: Pid) returns (doCommit: bool)
      requires Valid() && pid in added
      modifies this`outstanding, this`committing, this`added, this`waiting
      ensures Valid() && doCommit == committing
      ensures outstanding == old(outstanding) - 1 && added == old(added) - {pid}
      // The last operation commits; any other wakes everyone who waits for space.
      ensures if outstanding == 0 then committing && waiting == old(waiting) else !committing && waiting == {}
      ensures Abs() == Protocol.Next(old(Abs()), Protocol.End(pid), Protocol.PEROP)
    {
      Protocol.OpenOperation(Abs(), pid);
      Protocol.InvStep(Abs(), Protocol.End(pid));
      doCommit := false;
      outstanding := outstanding - 1;
      added := added - {pid};
      assert !committing;
      if outstanding == 0 {
        doCommit := true;
        committing := true;
      } else {
        waiting := {};
      }
    }

    // end_op's second section, after commit().
    method FinishCommit()
      requires Valid() && committing && !writing && n == 0
      modifies this`committing, this`waiting
      ensures Valid() && !committing && waiting == {}
      ensures Abs() == Protocol.Next(old(Abs()), Protocol.Finish, Protocol.PEROP)
    {
      Protocol.InvStep(Abs(), Protocol.Finish);
      committing := false;
      waiting := {};
    }

    // With the pins where they were, the log is as it was, in the middle of commit too.
    lemma StillThere(was: Image, writes0: seq<Write>, blocks: seq<nat>, data: seq<Block>,
                     disk: Image, writes: seq<Write>, bufs: seq<Buf>, done: nat, bufs': seq<Buf>)
      requires OneBufferPerBlock(bufs) && OneBufferPerBlock(bufs') && PinsStay(bufs, bufs')
      ensures Settled(Lay(), was, blocks, disk, bufs) ==> Settled(Lay(), was, blocks, disk, bufs')
      ensures InCommit(Lay(), was, writes0, blocks, data, disk, writes, bufs, done) ==>
                InCommit(Lay(), was, writes0, blocks, data, disk, writes, bufs', done)
    {
      if Settled(Lay(), was, blocks, disk, bufs) {
        PinsStayed(bufs, bufs', blocks);
      }
      if InCommit(Lay(), was, writes0, blocks, data, disk, writes, bufs, done) {
        StillInCommit(Lay(), was, writes0, blocks, data, disk, writes, bufs, done, bufs');
      }
    }

    // bread by any process, in the middle of commit too: no block that is not home yet loses its pinned buffer or
    // the contents in it.
    method Read(pid: Pid, blockno: nat) returns (r: Option<nat>)
      requires Valid() && blockno < |cache.disk|
      requires Unheld(cache.bufs, blockno)
      modifies cache
      ensures Valid() && cache.disk == old(cache.disk) && cache.writes == old(cache.writes)
      ensures PinsStay(old(cache.bufs), cache.bufs)
      ensures r.None? ==>
                !IsPinned(old(cache.bufs), blockno) && forall i :: 0 <= i < NBUF ==> !Eligible(old(cache.bufs)[i])
      ensures r.Some? ==>
                && r.value < NBUF && cache.bufs[r.value].holder == Some(pid)
                && Carries(cache.bufs[r.value], ROOTDEV, blockno) && cache.bufs[r.value].valid
                && cache.bufs[r.value].refcnt ==
                   (if Carries(old(cache.bufs)[r.value], ROOTDEV, blockno) then old(cache.bufs)[r.value].refcnt + 1
                       else 1)
                && forall i :: 0 <= i < NBUF && i != r.value ==> cache.bufs[i] == old(cache.bufs)[i]
      ensures r.None? ==> cache.bufs == old(cache.bufs)
      // What is read is the open transaction's version, or else the disk's.
      ensures r.Some? ==>
                cache.bufs[r.value].data ==
                if IsPinned(old(cache.bufs), blockno) then PinnedData(old(cache.bufs), blockno) else cache.disk[blockno]
    {
      ghost var bufs, disk, writes := cache.bufs, cache.disk, cache.writes;
      ghost var was, writes0, blocks, data, done := committed, before, block[..n], saved, Done();
      r := cache.Bread(pid, blockno);
      assert committed == was && before == writes0 && block[..n] == blocks && saved == data && Done() == done;
      StillThere(was, writes0, blocks, data, disk, writes, bufs, done, cache.bufs);
      if r.Some? { ReadIs(bufs, disk, blockno, r.value, pid, cache.bufs); }
    }

    // brelse by any process, likewise.
    method Release(pid: Pid, b: nat)
      requires Valid() && b < NBUF && cache.bufs[b].holder == Some(pid) && b !in cache.unsaved
      modifies cache
      ensures Valid() && cache.disk == old(cache.disk) && cache.writes == old(cache.writes)
      ensures PinsStay(old(cache.bufs), cache.bufs)
      ensures cache.bufs[b].holder == None && cache.bufs[b].refcnt == old(cache.bufs)[b].refcnt - 1
      ensures forall i :: 0 <= i < NBUF && i != b ==> cache.bufs[i] == old(cache.bufs)[i]
    {
      ghost var bufs, disk, writes := cache.bufs, cache.disk, cache.writes;
      ghost var was, writes0, blocks, data, done := committed, before, block[..n], saved, Done();
      cache.Brelse(b, pid);
      assert committed == was && before == writes0 && block[..n] == blocks && saved == data && Done() == done;
      StillThere(was, writes0, blocks, data, disk, writes, bufs, done, cache.bufs);
    }
  }

  // What bread leaves in the buffer b.
  lemma ReadIs(bufs: seq<Buf>, disk: Image, blockno: nat, b: nat, pid: Pid, bufs': seq<Buf>)
    requires |bufs| == NBUF && b < NBUF && OneBufferPerBlock(bufs) && blockno < |disk|
    requires Carries(bufs[b], ROOTDEV, blockno) || !bufs[b].dirty
    requires forall i :: 0 <= i < NBUF && Carries(bufs[i], ROOTDEV, blockno) ==> i == b
    requires bufs' == bufs[b := Loaded(Found(bufs[b], blockno), pid, disk)]
    requires (bufs[b].dirty ==> bufs[b].valid) && (!bufs'[b].dirty ==> bufs'[b].data == disk[blockno])
    ensures bufs'[b].holder == Some(pid) && Carries(bufs'[b], ROOTDEV, blockno) && bufs'[b].valid
    ensures bufs'[b].refcnt == if Carries(bufs[b], ROOTDEV, blockno) then bufs[b].refcnt + 1 else 1
    ensures bufs'[b].data == if IsPinned(bufs, blockno) then PinnedData(bufs, blockno) else disk[blockno]
  {
    if IsPinned(bufs, blockno) {
      var i := PinOf(bufs, blockno);
      PinIsUnique(bufs, i, blockno);
    } else if bufs'[b].dirty {
      assert Pins(bufs[b], blockno);
    }
  }

  // The two blocks of a turn of either loop are not held.
  lemma Free(bufs: seq<Buf>, lay: Layout, block: seq<nat>, n: nat, tail: nat)
    requires tail < n <= |block| && tail + 1 < lay.size && Undisturbed(bufs, lay, block[..n])
    ensures Unheld(bufs, lay.start + tail + 1) && Unheld(bufs, block[tail])
  {
    assert InLog(lay, lay.start + tail + 1) && block[..n][tail] == block[tail];
  }

  // At boot no buffer is held.
  lemma BootFree(bufs: seq<Buf>, disk: Image, unsaved: set<nat>)
    requires BufsOk(bufs, disk, unsaved) && AllSpare(bufs)
    ensures Spare(bufs) && (forall b :: Unheld(bufs, b)) && forall i :: 0 <= i < |bufs| ==> !bufs[i].dirty
  {
    assert Eligible(bufs[0]);
    assert forall i :: 0 <= i < |bufs| ==> Eligible(bufs[i]) && BufOk(bufs[i], disk, i in unsaved);
  }

  // The pins stay where they are, with the same contents.
  ghost predicate PinsStay(bufs: seq<Buf>, bufs': seq<Buf>) {
    |bufs'| == |bufs| && forall i :: 0 <= i < |bufs| ==> PinStays(bufs[i], bufs'[i])
  }

  predicate PinStays(b: Buf, b': Buf) {
    b'.dirty == b.dirty && (b.dirty ==>
        b'.dev == b.dev && b'.blockno == b.blockno && b'.data == b.data && b'.valid == b.valid)
  }

  lemma PinsStayed(bufs: seq<Buf>, bufs': seq<Buf>, blocks: seq<nat>)
    requires OneBufferPerBlock(bufs) && OneBufferPerBlock(bufs') && Pinned(bufs, blocks) && PinsStay(bufs, bufs')
    ensures Pinned(bufs', blocks) && Pending(bufs', blocks) == Pending(bufs, blocks)
  {
    forall k | 0 <= k < |blocks|
      ensures IsPinned(bufs', blocks[k])
      ensures PinnedData(bufs', blocks[k]) == PinnedData(bufs, blocks[k])
    {
      assert IsPinned(bufs, blocks[k]);
      var i :| 0 <= i < |bufs| && Pins(bufs[i], blocks[k]);
      assert PinStays(bufs[i], bufs'[i]);
      assert Pins(bufs'[i], blocks[k]);
      PinIsUnique(bufs, i, blocks[k]);
      PinIsUnique(bufs', i, blocks[k]);
    }
    forall i | 0 <= i < |bufs'| && bufs'[i].dirty ensures bufs'[i].blockno in blocks {
      assert PinStays(bufs[i], bufs'[i]);
    }
  }

  lemma StillInCommit(lay: Layout, was: Image, writes0: seq<Write>, blocks: seq<nat>, data: seq<Block>,
                      disk: Image, writes: seq<Write>, bufs: seq<Buf>, j: nat, bufs': seq<Buf>)
    requires InCommit(lay, was, writes0, blocks, data, disk, writes, bufs, j)
    requires OneBufferPerBlock(bufs) && OneBufferPerBlock(bufs') && PinsStay(bufs, bufs')
    ensures InCommit(lay, was, writes0, blocks, data, disk, writes, bufs', j)
  {
    assert Unfold(j);
    PinsStayed(bufs, bufs', blocks[Home(|blocks|, j)..]);
    Fold(lay, was, writes0, blocks, data, disk, writes, bufs', j, Home(|blocks|, j));
  }

  // Storing blockno where it is logged changes nothing; storing it at n appends it.
  lemma LogOne(block: seq<nat>, n: nat, i: nat, blockno: nat)
    requires i <= n < |block| && (forall k :: 0 <= k < i ==> block[k] != blockno) && (i < n ==> block[i] == blockno)
    ensures i < n <==> blockno in block[..n]
    ensures block[i := blockno][..if i < n then n else n + 1] == if i < n then block[..n] else block[..n] + [blockno]
  {
    if i < n { assert block[..n][i] == blockno; }
  }

  // A block logged once stays logged once; a new one joins the end.
  lemma OneMoreBlock(lay: Layout, disk: Image, blocks: seq<nat>, blockno: nat, blocks': seq<nat>)
    requires Loggable(lay, disk, blocks) && blockno < |disk| && !InLog(lay, blockno)
    requires blocks' == (if blockno in blocks then blocks else blocks + [blockno]) && |blocks'| <= LOGSIZE
    requires |blocks'| < lay.size
    ensures Loggable(lay, disk, blocks')
  {
  }

  // What log_write leaves in the header is loggable and pinned.
  lemma Recorded(lay: Layout, disk: Image, block: seq<nat>, n: nat, i: nat, blockno: nat, block': seq<nat>, n': nat,
                 bufs: seq<Buf>, bufs': seq<Buf>, b: nat)
    requires i <= n < |block| && (forall k :: 0 <= k < i ==> block[k] != blockno) && (i < n ==> block[i] == blockno)
    requires block' == block[i := blockno] && n' == (if i == n then n + 1 else n) && n' <= LOGSIZE && n' < lay.size
    requires Loggable(lay, disk, block[..n]) && Pinned(bufs, block[..n]) && blockno < |disk| && !InLog(lay, blockno)
    requires b < |bufs| && bufs[b].valid && bufs[b].dev == ROOTDEV && bufs[b].blockno == blockno
             && bufs' == bufs[b := bufs[b].(dirty := true)]
    ensures (i < n <==> blockno in block[..n]) && block'[..n'] == if i < n then block[..n] else block[..n] + [blockno]
    ensures Loggable(lay, disk, block'[..n']) && Pinned(bufs', block'[..n'])
  {
    LogOne(block, n, i, blockno);
    OneMoreBlock(lay, disk, block[..n], blockno, block'[..n']);
    PinOne(bufs, block[..n], b);
  }

  // A pin needs a buffer, and logged blocks are fewer than buffers: with no buffer in use, one
  // can be recycled.
  lemma PinsLeaveRoom(bufs: seq<Buf>, blocks: seq<nat>)
    requires |bufs| == NBUF && OneBufferPerBlock(bufs) && Pinned(bufs, blocks) && |blocks| < NBUF
    requires forall i :: 0 <= i < NBUF ==> bufs[i].refcnt == 0 && (bufs[i].dirty ==> bufs[i].dev == ROOTDEV)
    ensures Spare(bufs)
  {
    if forall i :: 0 <= i < NBUF ==> bufs[i].dirty {
      DistinctBlocks(bufs, NBUF);
      FewElements(blocks);
      SubsetSize(BlockSet(bufs, NBUF), Elements(blocks));
      assert false;
    }
    var i :| 0 <= i < NBUF && !bufs[i].dirty;
    assert Eligible(bufs[i]);
  }

  // The blocks the first k buffers carry.
  ghost function BlockSet(bufs: seq<Buf>, k: nat): (r: set<nat>)
    requires k <= |bufs|
    ensures forall b :: b in r ==> exists i :: 0 <= i < k && bufs[i].blockno == b
  {
    if k == 0 then {} else BlockSet(bufs, k - 1) + {bufs[k - 1].blockno}
  }

  ghost function Elements(s: seq<nat>): (r: set<nat>)
    ensures forall b :: b in s ==> b in r
  {
    if s == [] then {} else {s[0]} + Elements(s[1..])
  }

  lemma {:induction false} DistinctBlocks(bufs: seq<Buf>, k: nat)
    requires k <= |bufs| && OneBufferPerBlock(bufs) && forall i :: 0 <= i < |bufs| ==> bufs[i].dev == ROOTDEV
    ensures |BlockSet(bufs, k)| == k
    decreases k
  {
    if k > 0 {
      DistinctBlocks(bufs, k - 1);
      if bufs[k - 1].blockno in BlockSet(bufs, k - 1) {
        var i :| 0 <= i < k - 1 && bufs[i].blockno == bufs[k - 1].blockno;
        SameBlockSameBuffer(bufs, i, k - 1);
        assert false;
      }
    }
  }

  lemma {:induction false} FewElements(s: seq<nat>)
    ensures |Elements(s)| <= |s|
    decreases |s|
  {
    if s != [] { FewElements(s[1..]); }
  }

  lemma PinOne(bufs: seq<Buf>, blocks: seq<nat>, b: nat)
    requires Pinned(bufs, blocks) && b < |bufs| && bufs[b].valid && bufs[b].dev == ROOTDEV
    ensures var bufs' := bufs[b := bufs[b].(dirty := true)];
            var blockno := bufs[b].blockno;
            Pinned(bufs', if blockno in blocks then blocks else blocks + [blockno])
  {
    var bufs' := bufs[b := bufs[b].(dirty := true)];
    var blockno := bufs[b].blockno;
    var blocks' := if blockno in blocks then blocks else blocks + [blockno];
    forall k | 0 <= k < |blocks'| ensures IsPinned(bufs', blocks'[k]) {
      if k < |blocks| {
        assert IsPinned(bufs, blocks[k]);
        var i :| 0 <= i < |bufs| && Pins(bufs[i], blocks[k]);
        assert Pins(bufs'[i], blocks'[k]);
      } else {
        assert Pins(bufs'[b], blockno);
      }
    }
  }
}
