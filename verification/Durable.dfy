/** The file system over the log: what a crash in the commit of a file write leaves of the file. */
module Durable {
  import opened Param
  import opened Sets
  import opened FsFormat
  import opened Bitmap
  import opened Ownership
  import opened Content
  import opened InodeFormat
  import opened Disk
  import opened Crash
  import Fs
  import OpenFile

  // Where things are on the disk: the log, then the inodes, then the bitmap, then data from nmeta on.
  datatype Places = Places(lay: Layout, inodestart: nat, bmapstart: nat, nmeta: nat)

  // The block of inode n.
  function InodeBlock(p: Places, n: nat): nat { n / IPB + p.inodestart }

  ghost predicate InOrder(p: Places, size: nat, ninodes: nat) {
    && p.lay.start + p.lay.size <= p.inodestart <= p.bmapstart < p.nmeta <= size
    && forall n :: 0 <= n < ninodes ==> p.inodestart <= InodeBlock(p, n) < p.bmapstart
  }

  // What the blocks of the image say is what the file system has in its bitmap, on-disk inodes and data.
  ghost predicate Shows(img: Image, p: Places, bits: seq<Block>, dinodes: seq<Inode>, data: seq<Block>) {
    && |img| == |data| && p.nmeta <= |data| && p.nmeta <= p.bmapstart + |bits|
    && (forall k :: 0 <= k < |bits| && k + p.bmapstart < p.nmeta ==> img[k + p.bmapstart] == bits[k])
    && (forall b :: p.nmeta <= b < |data| ==> img[b] == data[b])
    && (forall n :: 0 <= n < |dinodes| ==> InodeShown(img, p, n, dinodes[n]))
  }

  ghost predicate InodeShown(img: Image, p: Places, n: nat, ip: Inode) {
    InodeBlock(p, n) < |img| && DinodeAt(img[InodeBlock(p, n)], n % IPB) == ip
  }

  // The image holds a file with these contents.
  ghost predicate HoldsFile(img: Image, p: Places, n: nat, file: seq<Byte>) {
    exists m: FileMap, ip: Inode :: HoldsAt(img, p, n, file, m, ip)
  }

  ghost predicate HoldsAt(img: Image, p: Places, n: nat, file: seq<Byte>, m: FileMap, ip: Inode) {
    && InodeShown(img, p, n, ip) && Represents(ip, img, m)
    && Dense(m.at, img, NBlocks(ip.size)) && Contents(m.at, img, ip.size) == file
  }

  // The log is not shown, so images with the same files show the same.
  lemma SameShown(img: Image, img': Image, p: Places, bits: seq<Block>, dinodes: seq<Inode>, data: seq<Block>)
    requires Shows(img, p, bits, dinodes, data) && InOrder(p, |data|, |dinodes|) && SameFiles(p.lay, img', img)
    ensures Shows(img', p, bits, dinodes, data)
  {
    forall n | 0 <= n < |dinodes| ensures InodeShown(img', p, n, dinodes[n]) {
      assert InodeShown(img, p, n, dinodes[n]);
      assert p.inodestart <= InodeBlock(p, n) < p.bmapstart;
    }
  }

  // An image that shows the file system holds its files.
  lemma ShownFile(img: Image, p: Places, bits: seq<Block>, dinodes: seq<Inode>, data: seq<Block>,
                  inodes: seq<Inode>, maps: seq<FileMap>, owner: Owners, n: nat)
    requires Shows(img, p, bits, dinodes, data) && AllRepresent(inodes, data, maps)
             && Linked(p.nmeta, |data|, maps, owner)
    requires n < |inodes| && n < |dinodes| && dinodes[n] == inodes[n]
             && Dense(maps[n].at, data, NBlocks(inodes[n].size))
    ensures HoldsFile(img, p, n, Contents(maps[n].at, data, inodes[n].size))
  {
    var m, ip := maps[n], inodes[n];
    assert Represents(ip, data, m) && Claims(m, n, owner);
    MapShown(img, p, data, m, n, owner, ip);
    var s, t := Contents(m.at, img, ip.size), Contents(m.at, data, ip.size);
    forall x | 0 <= x < ip.size ensures s[x] == t[x] {
      InRange(x, ip.size);
      assert Owns(owner, m.at[x / BSIZE], Holds(n, x / BSIZE));
    }
    assert s == t && InodeShown(img, p, n, dinodes[n]);
    assert HoldsAt(img, p, n, t, m, ip);
  }

  // Blocks in use by a file are data blocks, so its map is the same read off the image.
  lemma MapShown(img: Image, p: Places, data: seq<Block>, m: FileMap, n: nat, owner: Owners, ip: Inode)
    requires |img| == |data| && (forall b :: p.nmeta <= b < |data| ==> img[b] == data[b])
    requires Represents(ip, data, m) && Claims(m, n, owner)
    requires forall b :: b in owner ==> b < |data| && (!owner[b].Meta? ==> p.nmeta <= b)
    requires Dense(m.at, data, NBlocks(ip.size))
    ensures Represents(ip, img, m) && Dense(m.at, img, NBlocks(ip.size))
  {
    if m.ind != 0 {
      assert Owns(owner, m.ind, Indirect(n));
      assert img[m.ind] == data[m.ind];
    }
    forall bn | NDIRECT <= bn < MAXFILE ensures m.at[bn] == Entry(img, m.ind, bn - NDIRECT) {
      assert m.at[bn] == Entry(data, m.ind, bn - NDIRECT);
    }
  }

  // What the transaction gives to a logged block: the block of inode n, bitmap or data.
  ghost function Given(p: Places, bits: seq<Block>, data: seq<Block>, n: nat, ip: Inode, was: Block, b: nat): Block
    requires Storable(ip) && b < |data| && p.nmeta <= p.bmapstart + |bits|
  {
    if b >= p.nmeta then data[b]
    else if b >= p.bmapstart then bits[b - p.bmapstart]
    else PutInode(was, n % IPB, ip)
  }

  // The logged blocks in some order.
  ghost predicate Lists(blocks: seq<nat>, logged: set<nat>) {
    |blocks| == |logged| && Distinct(blocks) && forall x :: x in blocks <==> x in logged
  }

  // The contents that go with them.
  ghost function AllGiven(p: Places, bits: seq<Block>, data: seq<Block>, n: nat, ip: Inode, d: Image,
                          blocks: seq<nat>): (r: seq<Block>)
    requires Storable(ip) && |d| == |data| && p.nmeta <= p.bmapstart + |bits| && forall i :: 0 <= i < |blocks| ==>
               blocks[i] < |d|
    ensures |r| == |blocks| && forall i :: 0 <= i < |r| ==> r[i] == Given(p, bits, data, n, ip, d[blocks[i]], blocks[i])
  {
    seq(|blocks|, i requires 0 <= i < |blocks| => Given(p, bits, data, n, ip, d[blocks[i]], blocks[i]))
  }

  // The part of the disk a write of file n may log.
  ghost predicate Within(p: Places, n: nat, size: nat, logged: set<nat>) {
    forall x :: x in logged ==> x == InodeBlock(p, n) || p.bmapstart <= x < size
  }

  // The transaction's contents, put in place, show the file system after it.
  lemma ShownAfter(d: Image, p: Places, bits: seq<Block>, dinodes: seq<Inode>, data: seq<Block>,
                   bits': seq<Block>, dinodes': seq<Inode>, data': seq<Block>, logged: set<nat>, n: nat, e: Image)
    requires Shows(d, p, bits, dinodes, data) && InOrder(p, |data|, |dinodes|) && n < |dinodes| == |dinodes'|
    requires Covered(bits, data, {}, bits', data', logged, p.bmapstart) && Within(p, n, |data|, logged)
    requires dinodes' == dinodes[n := dinodes'[n]] && (dinodes'[n] != dinodes[n] ==> InodeBlock(p, n) in logged)
             && Storable(dinodes'[n])
    requires |e| == |d| && forall b :: 0 <= b < |d| ==>
               e[b] == if b in logged then Given(p, bits', data', n, dinodes'[n], d[b], b) else d[b]
    ensures Shows(e, p, bits', dinodes', data')
  {
    forall k | 0 <= k < |bits'| && k + p.bmapstart < p.nmeta ensures e[k + p.bmapstart] == bits'[k] {
      assert d[k + p.bmapstart] == bits[k];
      BitmapShownAfter(d, p, bits, bits', data', logged, n, dinodes'[n], e, k, k + p.bmapstart);
    }
    forall m | 0 <= m < |dinodes'| ensures InodeShown(e, p, m, dinodes'[m]) {
      InodeShownAfter(d, p, bits', data', dinodes, dinodes', logged, n, e, m);
    }
  }

  lemma BitmapShownAfter(d: Image, p: Places, bits: seq<Block>, bits': seq<Block>, data': seq<Block>, logged: set<nat>,
                         n: nat, ip: Inode, e: Image, k: nat, b: nat)
    requires k < |bits| == |bits'| && b == k + p.bmapstart < p.nmeta <= |d| == |e| == |data'|
             && p.nmeta <= p.bmapstart + |bits'|
    requires Storable(ip) && d[b] == bits[k] && (bits'[k] != bits[k] ==> b in logged)
    requires e[b] == if b in logged then Given(p, bits', data', n, ip, d[b], b) else d[b]
    ensures e[b] == bits'[k]
  {
  }

  lemma InodeShownAfter(d: Image, p: Places, bits': seq<Block>, data': seq<Block>, dinodes: seq<Inode>,
                        dinodes': seq<Inode>,
                        logged: set<nat>, n: nat, e: Image, m: nat)
    requires m < |dinodes| == |dinodes'| && n < |dinodes| && InodeShown(d, p, m, dinodes[m])
             && InodeShown(d, p, n, dinodes[n])
    requires |data'| == |d| == |e| && p.nmeta <= p.bmapstart + |bits'| && InodeBlock(p, m) < p.bmapstart < p.nmeta
    requires Within(p, n, |d|, logged) && Storable(dinodes'[n])
    requires dinodes' == dinodes[n := dinodes'[n]] && (dinodes'[n] != dinodes[n] ==> InodeBlock(p, n) in logged)
    requires forall b :: 0 <= b < |d| ==>
               e[b] == if b in logged then Given(p, bits', data', n, dinodes'[n], d[b], b) else d[b]
    ensures InodeShown(e, p, m, dinodes'[m])
  {
    var b := InodeBlock(p, m);
    if b in logged {
      assert b == InodeBlock(p, n);
      InodeStored(d[b], n % IPB, dinodes'[n], m % IPB);
      SameSlot(m, n);
    }
  }

  lemma SameSlot(m: nat, n: nat)
    ensures m / IPB == n / IPB && m % IPB == n % IPB ==> m == n
  {
  }

  // A state of the file system, as far as it is on the disk or says what is there.
  datatype State = State(bits: seq<Block>, dinodes: seq<Inode>, data: seq<Block>, inodes: seq<Inode>,
                         maps: seq<FileMap>, owner: Owners)

  ghost predicate Good(s: State, p: Places) {
    && AllRepresent(s.inodes, s.data, s.maps) && Linked(p.nmeta, |s.data|, s.maps, s.owner) && |s.dinodes| == |s.inodes|
    && |s.data| < 0x1_0000_0000
  }

  // File m has no holes and its inode is on the disk.
  ghost predicate Settled(s: State, m: nat) {
    && m < |s.inodes| && m < |s.dinodes| && m < |s.maps| && s.dinodes[m] == s.inodes[m]
    && Dense(s.maps[m].at, s.data, NBlocks(s.inodes[m].size))
  }

  ghost function FileOf(s: State, m: nat): seq<Byte>
    requires Settled(s, m)
  {
    Contents(s.maps[m].at, s.data, s.inodes[m].size)
  }

  // A crash after j writes of the commit, then any crashes in recovery: file m is as before or as after.
  ghost predicate Survives(p: Places, d: Image, blocks: seq<nat>, data: seq<Block>, m: nat, before: seq<Byte>,
                           after: seq<Byte>,
                           j: nat, crashes: seq<nat>)
    requires Loggable(p.lay, d, blocks) && |data| == |blocks|
  {
    var ws := CommitWrites(p.lay, d[p.lay.start], blocks, data);
    j <= |ws| ==>
      && ValidHeader(p.lay, Apply(d, ws[..j]))
      && HoldsFile(Recovered(p.lay, Apply(d, ws[..j]), crashes), p, m, if j <= |blocks| then before else after)
  }

  lemma FileSurvives(p: Places, d: Image, blocks: seq<nat>, data: seq<Block>, s: State, s': State, m: nat, j: nat,
                     crashes: seq<nat>)
    requires Loggable(p.lay, d, blocks) && |data| == |blocks| && ValidHeader(p.lay, d)
             && HeaderCount(d[p.lay.start]) == 0
    requires Good(s, p) && Good(s', p) && Settled(s, m) && Settled(s', m)
    requires InOrder(p, |s.data|, |s.dinodes|) && InOrder(p, |s'.data|, |s'.dinodes|)
    requires Shows(d, p, s.bits, s.dinodes, s.data) && Shows(Updated(d, blocks, data), p, s'.bits, s'.dinodes, s'.data)
    ensures Survives(p, d, blocks, data, m, FileOf(s, m), FileOf(s', m), j, crashes)
  {
    var ws := CommitWrites(p.lay, d[p.lay.start], blocks, data);
    if j <= |ws| {
      CommitIsCrashAtomic(p.lay, d, blocks, data, j, crashes);
      var img := Recovered(p.lay, Apply(d, ws[..j]), crashes);
      if j <= |blocks| {
        SameShown(d, img, p, s.bits, s.dinodes, s.data);
        ShownFile(img, p, s.bits, s.dinodes, s.data, s.inodes, s.maps, s.owner, m);
      } else {
        SameShown(Updated(d, blocks, data), img, p, s'.bits, s'.dinodes, s'.data);
        ShownFile(img, p, s'.bits, s'.dinodes, s'.data, s'.inodes, s'.maps, s'.owner, m);
      }
    }
  }

  // An inode of a sound file system fits its place on the disk.
  lemma InodeFits(p: Places, s: State, n: nat)
    requires Good(s, p) && n < |s.inodes| && 0 <= s.inodes[n].kind < 0x1_0000 && s.inodes[n].size < 0x1_0000_0000
    ensures Storable(s.inodes[n])
  {
    var m, ip := s.maps[n], s.inodes[n];
    assert Represents(ip, s.data, m) && Claims(m, n, s.owner);
    forall i | 0 <= i <= NDIRECT ensures ip.addrs[i] < 0x1_0000_0000 {
      if i < NDIRECT && m.at[i] != 0 { assert Owns(s.owner, m.at[i], Holds(n, i)); }
    }
  }

  // The blocks a write of file n has logged, as a transaction.
  lemma LoggedBlocks(p: Places, d: Image, n: nat, logged: set<nat>, blocks: seq<nat>)
    requires Within(p, n, |d|, logged) && p.lay.start + p.lay.size <= InodeBlock(p, n) < |d| <= 0x1_0000_0000
    requires p.lay.start + p.lay.size <= p.bmapstart && |logged| < p.lay.size && |logged| <= LOGSIZE
    requires Lists(blocks, logged)
    ensures Loggable(p.lay, d, blocks)
  {
    forall i | 0 <= i < |blocks| ensures blocks[i] < |d| && !InLog(p.lay, blocks[i]) {
      assert blocks[i] in blocks;
    }
  }

  // Put in place, they show what the transaction did.
  lemma TransactionShown(p: Places, d: Image, s: State, s': State, logged: set<nat>, n: nat, blocks: seq<nat>,
                         data: seq<Block>)
    requires Shows(d, p, s.bits, s.dinodes, s.data) && InOrder(p, |s.data|, |s.dinodes|)
             && n < |s.dinodes| == |s'.dinodes|
    requires Covered(s.bits, s.data, {}, s'.bits, s'.data, logged, p.bmapstart) && Within(p, n, |s.data|, logged)
    requires s'.dinodes == s.dinodes[n := s'.dinodes[n]]
             && (s'.dinodes[n] != s.dinodes[n] ==> InodeBlock(p, n) in logged)
    requires Storable(s'.dinodes[n]) && Lists(blocks, logged) && Loggable(p.lay, d, blocks)
    requires data == AllGiven(p, s'.bits, s'.data, n, s'.dinodes[n], d, blocks)
    ensures Shows(Updated(d, blocks, data), p, s'.bits, s'.dinodes, s'.data)
  {
    var e := Updated(d, blocks, data);
    forall b | 0 <= b < |d|
      ensures e[b] == if b in logged then Given(p, s'.bits, s'.data, n, s'.dinodes[n], d[b], b) else d[b] {
      if b in logged {
        assert b in blocks;
        var i :| 0 <= i < |blocks| && blocks[i] == b;
      }
    }
    ShownAfter(d, p, s.bits, s.dinodes, s.data, s'.bits, s'.dinodes, s'.data, logged, n, e);
  }

  ghost function StateOf(fs: Fs.FileSystem): State
    reads fs
  {
    State(fs.bits, fs.dinodes, fs.data, fs.inodes, fs.maps, fs.owner)
  }

  ghost function PlacesOf(fs: Fs.FileSystem, lay: Layout): Places {
    Places(lay, fs.inodestart, fs.bmapstart, fs.Nmeta())
  }

  // The logged blocks, committed with the contents they have in s' while the disk is d: what a crash leaves of file m.
  ghost predicate Endures(p: Places, d: Image, n: nat, blocks: seq<nat>, m: nat, s: State, s': State, j: nat,
                          crashes: seq<nat>) {
    && Settled(s, m) && Settled(s', m) && n < |s'.dinodes| && Storable(s'.dinodes[n])
    && Loggable(p.lay, d, blocks) && |d| == |s'.data| && p.nmeta <= p.bmapstart + |s'.bits|
    && Survives(p, d, blocks, AllGiven(p, s'.bits, s'.data, n, s'.dinodes[n], d, blocks), m, FileOf(s, m),
        FileOf(s', m), j, crashes)
  }

  // Whatever the order of the log, every file that is on the disk before and after survives any crash.
  ghost predicate Atomic(p: Places, d: Image, n: nat, logged: set<nat>, s: State, s': State) {
    forall blocks: seq<nat>, m: nat, j: nat, crashes: seq<nat> ::
        Lists(blocks, logged) && Settled(s, m) && Settled(s', m) ==>
      Endures(p, d, n, blocks, m, s, s', j, crashes)
  }

  // The file system before and after a write of file n.
  ghost predicate Changed(p: Places, s: State, s': State, logged: set<nat>, n: nat) {
    && Good(s, p) && Good(s', p) && n < |s.dinodes| == |s'.dinodes| && |s'.data| == |s.data|
    && Covered(s.bits, s.data, {}, s'.bits, s'.data, logged, p.bmapstart) && Within(p, n, |s.data|, logged)
    && s'.dinodes == s.dinodes[n := s'.dinodes[n]] && (s'.dinodes[n] != s.dinodes[n] ==> InodeBlock(p, n) in logged)
    && s'.dinodes[n] == s'.inodes[n] && s'.inodes[n].kind == s.dinodes[n].kind && s'.inodes[n].size < 0x1_0000_0000
  }

  lemma Endured(p: Places, d: Image, s: State, s': State, logged: set<nat>, n: nat, blocks: seq<nat>, m: nat, j: nat,
                crashes: seq<nat>)
    requires Shows(d, p, s.bits, s.dinodes, s.data) && InOrder(p, |s.data|, |s.dinodes|) && Changed(p, s, s', logged, n)
    requires ValidHeader(p.lay, d) && HeaderCount(d[p.lay.start]) == 0 && |logged| < p.lay.size <= LOGSIZE
    requires Lists(blocks, logged) && Settled(s, m) && Settled(s', m)
    ensures Endures(p, d, n, blocks, m, s, s', j, crashes)
  {
    assert InodeShown(d, p, n, s.dinodes[n]) && p.inodestart <= InodeBlock(p, n) < p.bmapstart;
    InodeFits(p, s', n);
    LoggedBlocks(p, d, n, logged, blocks);
    var data := AllGiven(p, s'.bits, s'.data, n, s'.dinodes[n], d, blocks);
    TransactionShown(p, d, s, s', logged, n, blocks, data);
    FileSurvives(p, d, blocks, data, s, s', m, j, crashes);
  }

  lemma AtomicWrite(p: Places, d: Image, s: State, s': State, logged: set<nat>, n: nat)
    requires Shows(d, p, s.bits, s.dinodes, s.data) && InOrder(p, |s.data|, |s.dinodes|) && Changed(p, s, s', logged, n)
    requires ValidHeader(p.lay, d) && HeaderCount(d[p.lay.start]) == 0 && |logged| < p.lay.size <= LOGSIZE
    ensures Atomic(p, d, n, logged, s, s')
  {
    forall blocks: seq<nat>, m: nat, j: nat, crashes: seq<nat> | Lists(blocks, logged) && Settled(s, m)
        && Settled(s', m)
      ensures Endures(p, d, n, blocks, m, s, s', j, crashes)
    {
      Endured(p, d, s, s', logged, n, blocks, m, j, crashes);
    }
  }

  lemma ValidIsGood(fs: Fs.FileSystem, lay: Layout)
    requires fs.Valid()
    ensures Good(StateOf(fs), PlacesOf(fs, lay)) && fs.bmapstart < fs.Nmeta() <= fs.size == |fs.data|
  {
  }

  lemma WithinDisk(fs: Fs.FileSystem, lay: Layout, n: nat)
    requires fs.LogsFile(n, {}) && fs.bitmapBlocks <= {fs.bmapstart} && fs.bmapstart < fs.Nmeta() <= fs.size
    ensures Within(PlacesOf(fs, lay), n, fs.size, fs.logged) && |fs.bitmapBlocks| <= 1
  {
    SubsetSize(fs.bitmapBlocks, {fs.bmapstart});
  }

  // One transaction of filewrite and what it changed.
  method Write(f: OpenFile.File, piece: seq<Byte>, ghost lay: Layout) returns (r: Option<int>)
    requires f.Usable() && |piece| <= OpenFile.MAXWRITE && f.fs.logged == {} && f.fs.size <= BPB
    requires Settled(StateOf(f.fs), f.inum)
    modifies f.fs
    ensures r.Some? && r.value != -1 ==>
              && |f.fs.logged| < NLOG && old(f.off) <= |old(f.fs.File(f.inum))|
              && f.fs.FileWritten(f.inum, piece, old(f.off))
              && Changed(PlacesOf(f.fs, lay), old(StateOf(f.fs)), StateOf(f.fs), f.fs.logged, f.inum)
  {
    ValidIsGood(f.fs, lay);
    ghost var n;
    r, n := f.Transaction(piece);
    if r.Some? && r.value != -1 {
      ValidIsGood(f.fs, lay);
      WithinDisk(f.fs, lay, f.inum);
    }
  }

  /** One transaction of filewrite, on a disk d that shows the file system. Wherever its commit is cut short and
      however often recovery is, every file is as it was before or as it is after, and after exactly when the
      header was written. */
  method DurableWrite(f: OpenFile.File, piece: seq<Byte>, ghost lay: Layout, ghost d: Image) returns (r: Option<int>)
    requires f.Usable() && |piece| <= OpenFile.MAXWRITE && f.fs.logged == {} && f.fs.size <= BPB
    requires InOrder(PlacesOf(f.fs, lay), f.fs.size, |f.fs.dinodes|) && lay.size == NLOG
    requires Shows(d, PlacesOf(f.fs, lay), f.fs.bits, f.fs.dinodes, f.fs.data)
    requires ValidHeader(lay, d) && HeaderCount(d[lay.start]) == 0 && Settled(StateOf(f.fs), f.inum)
    modifies f.fs
    ensures r.Some? && r.value != -1 ==>
              && old(f.off) <= |old(f.fs.File(f.inum))|
              && f.fs.NoHoles(f.inum) && f.fs.File(f.inum) == Overwrite(old(f.fs.File(f.inum)), old(f.off), piece)
              && (forall m: nat :: old(f.fs.NoHoles(m) && Settled(StateOf(f.fs), m)) ==> Settled(StateOf(f.fs), m))
              && Atomic(PlacesOf(f.fs, lay), d, f.inum, f.fs.logged, old(StateOf(f.fs)), StateOf(f.fs))
  {
    ghost var s := StateOf(f.fs);
    r := Write(f, piece, lay);
    if r.Some? && r.value != -1 {
      AtomicWrite(PlacesOf(f.fs, lay), d, s, StateOf(f.fs), f.fs.logged, f.inum);
    }
  }

  // itrunc and what it changed.
  method Truncate(fs: Fs.FileSystem, inum: nat, ghost lay: Layout)
    requires fs.Valid() && inum < |fs.inodes| && fs.logged == {} && fs.size <= BPB && Settled(StateOf(fs), inum)
    modifies fs
    ensures fs.Valid() && |fs.logged| <= 2 && fs.NoHoles(inum) && fs.File(inum) == []
    ensures forall m: nat :: m != inum && old(fs.NoHoles(m)) ==> fs.NoHoles(m) && fs.File(m) == old(fs.File(m))
    ensures |fs.inodes| == |old(fs.inodes)| && fs.inodes == old(fs.inodes)[inum := fs.inodes[inum]]
    ensures Changed(PlacesOf(fs, lay), old(StateOf(fs)), StateOf(fs), fs.logged, inum)
  {
    ValidIsGood(fs, lay);
    fs.Itrunc(inum);
    ValidIsGood(fs, lay);
    WithinDisk(fs, lay, inum);
    TwoLogged(fs.logged, fs.bitmapBlocks, fs.bmapstart, fs.InodeBlock(inum));
  }

  lemma TwoLogged(logged: set<nat>, bitmap: set<nat>, start: nat, inode: nat)
    requires logged <= bitmap + {inode} && bitmap <= {start}
    ensures |logged| <= 2
  {
    SubsetSize(logged, {start, inode});
  }

  /** itrunc in a transaction of its own: wherever its commit is cut short, the file is as it was or empty, and every
      other file is as it was. */
  method DurableTruncate(fs: Fs.FileSystem, inum: nat, ghost lay: Layout, ghost d: Image)
    requires fs.Valid() && inum < |fs.inodes| && fs.logged == {} && fs.size <= BPB
    requires InOrder(PlacesOf(fs, lay), fs.size, |fs.dinodes|) && lay.size == NLOG
    requires Shows(d, PlacesOf(fs, lay), fs.bits, fs.dinodes, fs.data)
    requires ValidHeader(lay, d) && HeaderCount(d[lay.start]) == 0 && Settled(StateOf(fs), inum)
    modifies fs
    ensures fs.NoHoles(inum) && fs.File(inum) == []
    ensures forall m: nat :: old(fs.NoHoles(m) && Settled(StateOf(fs), m)) ==> Settled(StateOf(fs), m)
    ensures forall m: nat :: m != inum && old(fs.NoHoles(m)) ==> fs.NoHoles(m) && fs.File(m) == old(fs.File(m))
    ensures Atomic(PlacesOf(fs, lay), d, inum, fs.logged, old(StateOf(fs)), StateOf(fs))
  {
    ghost var s := StateOf(fs);
    Truncate(fs, inum, lay);
    AtomicWrite(PlacesOf(fs, lay), d, s, StateOf(fs), fs.logged, inum);
  }
}
