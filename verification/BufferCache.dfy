/** The buffer cache of xv6-public/bio.c over the in-memory disk of xv6-public/memide.c. */
module BufferCache {
  import opened Param
  import opened FsFormat
  import opened Disk

  const HEAD := NBUF   // &bcache.head

  datatype Buf = Buf(dev: nat, blockno: nat, valid: bool, dirty: bool, refcnt: nat, holder: Option<Pid>, data: Block)

  predicate Carries(b: Buf, dev: nat, blockno: nat) {
    b.dev == dev && b.blockno == blockno
  }

  // bget may recycle the buffer.
  predicate Eligible(b: Buf) {
    b.refcnt == 0 && !b.dirty
  }

  // The ring in MRU order; the sentinel stands before its first and after its last element.
  ghost function At(order: seq<nat>, i: int): nat {
    if 0 <= i < |order| then order[i] else HEAD
  }

  ghost predicate Linked(next: seq<nat>, prev: seq<nat>, order: seq<nat>) {
    && |next| == NBUF + 1 && |prev| == NBUF + 1
    && (forall i :: 0 <= i < |order| ==> order[i] < NBUF)
    && (forall i, j :: 0 <= i < j < |order| ==> order[i] != order[j])
    && (forall i {:trigger next[At(order, i)]} :: -1 <= i < |order| ==> next[At(order, i)] == At(order, i + 1))
    && (forall i {:trigger prev[At(order, i)]} :: 0 <= i <= |order| ==> prev[At(order, i)] == At(order, i - 1))
  }

  lemma PushFront(next: seq<nat>, prev: seq<nat>, order: seq<nat>, b: nat)
    requires Linked(next, prev, order) && b < NBUF && b !in order
    ensures next[HEAD] <= NBUF
    ensures Linked(next[b := next[HEAD]][HEAD := b], prev[b := HEAD][next[HEAD] := b], [b] + order)
  {
    var order' := [b] + order;
    assert next[At(order, -1)] == At(order, 0);
    var next' := next[b := next[HEAD]][HEAD := b];
    var prev' := prev[b := HEAD][next[HEAD] := b];
    forall i | -1 <= i < |order'| ensures next'[At(order', i)] == At(order', i + 1) {
      if i > 0 { assert next[At(order, i - 1)] == At(order, i); }
    }
    forall i | 0 <= i <= |order'| ensures prev'[At(order', i)] == At(order', i - 1) {
      if i > 0 { assert prev[At(order, i - 1)] == At(order, i - 2); }
    }
  }

  lemma Unlink(next: seq<nat>, prev: seq<nat>, order: seq<nat>, k: nat)
    requires Linked(next, prev, order) && k < |order|
    ensures var b := order[k];
            && prev[b] <= NBUF && next[b] <= NBUF
            && Linked(next[prev[b] := next[b]], prev[next[b] := prev[b]], order[..k] + order[k + 1..])
  {
    var b := order[k];
    var order' := order[..k] + order[k + 1..];
    assert next[At(order, k)] == At(order, k + 1) && prev[At(order, k)] == At(order, k - 1);
    var next' := next[prev[b] := next[b]];
    var prev' := prev[next[b] := prev[b]];
    UnlinkNext(next, prev, order, k, b, order', next');
    UnlinkPrev(next, prev, order, k, b, order', prev');
  }

  lemma UnlinkNext(next: seq<nat>, prev: seq<nat>, order: seq<nat>, k: nat, b: nat, order': seq<nat>, next': seq<nat>)
    requires Linked(next, prev, order) && k < |order| && b == order[k] && order' == order[..k] + order[k + 1..]
    requires prev[b] == At(order, k - 1) && next[b] == At(order, k + 1) && next' == next[prev[b] := next[b]]
    ensures forall i {:trigger next'[At(order', i)]} :: -1 <= i < |order'| ==> next'[At(order', i)] == At(order', i + 1)
  {
    forall i | -1 <= i < |order'| ensures next'[At(order', i)] == At(order', i + 1) {
      var j := if i < k then i else i + 1;
      assert next[At(order, j)] == At(order, j + 1);
    }
  }

  lemma UnlinkPrev(next: seq<nat>, prev: seq<nat>, order: seq<nat>, k: nat, b: nat, order': seq<nat>, prev': seq<nat>)
    requires Linked(next, prev, order) && k < |order| && b == order[k] && order' == order[..k] + order[k + 1..]
    requires prev[b] == At(order, k - 1) && next[b] == At(order, k + 1) && prev' == prev[next[b] := prev[b]]
    ensures forall i {:trigger prev'[At(order', i)]} :: 0 <= i <= |order'| ==> prev'[At(order', i)] == At(order', i - 1)
  {
    forall i | 0 <= i <= |order'| ensures prev'[At(order', i)] == At(order', i - 1) {
      var j := if i < k then i else i + 1;
      assert prev[At(order, j)] == At(order, j - 1);
    }
  }

  // Every buffer is on the ring exactly once.
  ghost predicate Permutation(order: seq<nat>) {
    && |order| == NBUF
    && (forall b :: 0 <= b < NBUF ==> b in order)
  }

  lemma AllOnRing(order: seq<nat>, bufs: seq<Buf>, p: Buf -> bool)
    requires Permutation(order) && |bufs| == NBUF
    requires forall i :: 0 <= i < |order| ==> order[i] < NBUF && p(bufs[order[i]])
    ensures forall i :: 0 <= i < NBUF ==> p(bufs[i])
  {
    forall i | 0 <= i < NBUF ensures p(bufs[i]) { assert i in order; }
  }

  function Without(order: seq<nat>, b: nat): seq<nat> {
    if order == [] then []
    else if order[0] == b then order[1..]
    else [order[0]] + Without(order[1..], b)
  }

  lemma {:induction false} WithoutAt(order: seq<nat>, k: nat)
    requires k < |order| && forall i :: 0 <= i < k ==> order[i] != order[k]
    ensures Without(order, order[k]) == order[..k] + order[k + 1..]
  {
    if k > 0 {
      WithoutAt(order[1..], k - 1);
      assert order[1..][..k - 1] == order[1..k] && order[1..][k..] == order[k + 1..];
      assert order[..k] == [order[0]] + order[1..k];
    }
  }

  // Moving one buffer to the front keeps every buffer on the ring.
  lemma MoveToFront(order: seq<nat>, k: nat)
    requires Permutation(order) && k < NBUF
    requires forall i, j :: 0 <= i < j < |order| ==> order[i] != order[j]
    ensures Permutation([order[k]] + (order[..k] + order[k + 1..]))
    ensures order[k] !in order[..k] + order[k + 1..]
  {
    var order' := [order[k]] + (order[..k] + order[k + 1..]);
    forall b | 0 <= b < NBUF ensures b in order' {
      assert b in order;
      var i :| 0 <= i < NBUF && order[i] == b;
      assert order'[if i < k then i + 1 else if i == k then 0 else i] == b;
    }
  }

  // No block is cached twice. binit leaves every buffer at device 0, block 0.
  ghost predicate OneBufferPerBlock(bufs: seq<Buf>) {
    forall i, j {:trigger Key(bufs[i]), Key(bufs[j])} ::
      0 <= i < j < |bufs| && Key(bufs[i]) == Key(bufs[j]) ==> Key(bufs[i]) == (0, 0)
  }

  function Key(b: Buf): (nat, nat) { (b.dev, b.blockno) }

  lemma SameBlockSameBuffer(bufs: seq<Buf>, i: nat, j: nat)
    requires OneBufferPerBlock(bufs) && i < |bufs| && j < |bufs|
    requires bufs[i].dev == bufs[j].dev != 0 && bufs[i].blockno == bufs[j].blockno
    ensures i == j
  {
    assert Key(bufs[i]) == Key(bufs[j]);
  }

  // One buffer: a clean valid buffer that no holder is changing shows what is on disk, and a
  // held buffer is counted.
  predicate BufOk(b: Buf, disk: Image, unsaved: bool) {
    && (b.valid ==> b.dev == ROOTDEV && b.blockno < |disk|)
    && (b.dirty ==> b.valid)
    && (b.valid && !b.dirty && !unsaved ==> b.data == disk[b.blockno])
    && (b.holder.Some? ==> b.refcnt > 0)
    && (unsaved ==> b.holder.Some? && b.valid)
  }

  ghost predicate BufsOk(bufs: seq<Buf>, disk: Image, unsaved: set<nat>) {
    && |bufs| == NBUF
    && OneBufferPerBlock(bufs)
    && (forall i :: 0 <= i < NBUF ==> BufOk(bufs[i], disk, i in unsaved))
    && (forall i :: i in unsaved ==> i < NBUF)
  }

  // Changing one buffer, without giving it a block another one carries, keeps the cache sound.
  lemma Replace(bufs: seq<Buf>, disk: Image, unsaved: set<nat>, b: nat, x: Buf, unsaved': set<nat>)
    requires BufsOk(bufs, disk, unsaved) && b < NBUF
    requires unsaved' == unsaved + {b} || unsaved' == unsaved - {b} || unsaved' == unsaved
    requires BufOk(x, disk, b in unsaved')
    requires (x.dev == bufs[b].dev && x.blockno == bufs[b].blockno)
          || forall i :: 0 <= i < NBUF ==> !Carries(bufs[i], x.dev, x.blockno)
    ensures BufsOk(bufs[b := x], disk, unsaved')
  {
    var bufs' := bufs[b := x];
    forall i | 0 <= i < NBUF ensures BufOk(bufs'[i], disk, i in unsaved') {
      assert BufOk(bufs[i], disk, i in unsaved);
    }
    forall i, j | 0 <= i < j < NBUF && Key(bufs'[i]) == Key(bufs'[j]) ensures Key(bufs'[i]) == (0, 0) {
      assert Carries(bufs[i], bufs'[i].dev, bufs'[i].blockno) || Carries(bufs[j], bufs'[i].dev, bufs'[i].blockno);
      assert Key(bufs[i]) == Key(bufs[j]);
    }
  }

  // Writing a buffer's block changes what no other buffer shows.
  lemma WriteThrough(bufs: seq<Buf>, disk: Image, unsaved: set<nat>, b: nat)
    requires BufsOk(bufs, disk, unsaved) && b < NBUF && bufs[b].valid
    ensures bufs[b].blockno < |disk|
    ensures BufsOk(bufs[b := bufs[b].(dirty := false)], disk[bufs[b].blockno := bufs[b].data], unsaved - {b})
  {
    var x := bufs[b];
    assert BufOk(x, disk, b in unsaved);
    var bufs' := bufs[b := x.(dirty := false)];
    var disk' := disk[x.blockno := x.data];
    forall i | 0 <= i < NBUF ensures BufOk(bufs'[i], disk', i in unsaved - {b}) {
      assert BufOk(bufs[i], disk, i in unsaved);
      if bufs[i].valid && bufs[i].blockno == x.blockno { SameBlockSameBuffer(bufs, i, b); }
    }
    forall i, j | 0 <= i < j < NBUF && Key(bufs'[i]) == Key(bufs'[j]) ensures Key(bufs'[i]) == (0, 0) {
      assert Key(bufs[i]) == Key(bufs[j]);
    }
  }

  // Two of the pointer assignments of brelse: buffer b, at index k, leaves the ring.
  method OffRing(next0: seq<nat>, prev0: seq<nat>, b: nat, ghost order: seq<nat>, ghost k: nat)
    returns (next: seq<nat>, prev: seq<nat>)
    requires Linked(next0, prev0, order) && k < |order| && order[k] == b
    ensures Linked(next, prev, order[..k] + order[k + 1..])
  {
    Unlink(next0, prev0, order, k);
    prev := prev0[next0[b] := prev0[b]];
    assert prev[b] == prev0[b] by { assert next0[At(order, k)] == At(order, k + 1); }
    next := next0[prev[b] := next0[b]];
  }

  // The other four: b enters the ring at its head.
  method OntoRing(next0: seq<nat>, prev0: seq<nat>, b: nat, ghost order: seq<nat>)
    returns (next: seq<nat>, prev: seq<nat>)
    requires Linked(next0, prev0, order) && b < NBUF && b !in order
    ensures Linked(next, prev, [b] + order)
  {
    PushFront(next0, prev0, order, b);
    next := next0[b := next0[HEAD]];
    prev := prev0[b := HEAD];
    assert next[HEAD] == next0[HEAD];
    prev := prev[next[HEAD] := b];
    next := next[HEAD := b];
  }

  // The six pointer assignments of brelse.
  method Relink(next0: seq<nat>, prev0: seq<nat>, b: nat, ghost order0: seq<nat>)
    returns (next: seq<nat>, prev: seq<nat>, ghost order: seq<nat>)
    requires Linked(next0, prev0, order0) && Permutation(order0) && b < NBUF
    ensures Linked(next, prev, order) && Permutation(order) && order == [b] + Without(order0, b)
  {
    assert b in order0;
    ghost var k :| 0 <= k < NBUF && order0[k] == b;
    MoveToFront(order0, k);
    WithoutAt(order0, k);
    next, prev := OffRing(next0, prev0, b, order0, k);
    ghost var rest := order0[..k] + order0[k + 1..];
    next, prev := OntoRing(next, prev, b, rest);
    order := [b] + rest;
  }

  class Cache {
    var disk: Image
    var next: seq<nat>
    var prev: seq<nat>
    var bufs: seq<Buf>
    ghost var order: seq<nat>
    ghost var unsaved: set<nat>      // held buffers changed since they were last logged or written
    ghost var image: Image           // the disk at boot
    ghost var writes: seq<Write>     // every block write since boot

    ghost predicate Valid()
      reads this
    {
      && Linked(next, prev, order) && Permutation(order)
      && BufsOk(bufs, disk, unsaved)
      && disk == Apply(image, writes)
    }

    // binit
    constructor (disk: Image)
      ensures Valid() && this.disk == disk && image == disk && writes == []
      ensures forall i :: 0 <= i < NBUF ==>
                bufs[i].refcnt == 0 && !bufs[i].dirty && !bufs[i].valid && bufs[i].holder.None?
                && bufs[i].dev == 0 && bufs[i].blockno == 0
    {
      this.disk := disk;
      this.image := disk;
      this.writes := [];
      this.unsaved := {};
      var zero := ZeroBlock;
      this.bufs := seq(NBUF, _ => Buf(0, 0, false, false, 0, None, zero));
      var nx: seq<nat> := seq(NBUF + 1, _ => HEAD);
      var pv: seq<nat> := seq(NBUF + 1, _ => HEAD);
      ghost var ord: seq<nat> := [];
      for b := 0 to NBUF
        invariant Linked(nx, pv, ord)
        invariant |ord| == b && forall i :: 0 <= i < NBUF ==> (i in ord <==> i < b)
      {
        PushFront(nx, pv, ord, b);
        nx := nx[b := nx[HEAD]];
        pv := pv[b := HEAD];
        pv := pv[nx[HEAD] := b];
        nx := nx[HEAD := b];
        ord := [b] + ord;
      }
      this.next := nx;
      this.prev := pv;
      this.order := ord;
    }

    // bget's first loop: from the most recently used end.
    method Lookup(dev: nat, blockno: nat) returns (r: Option<nat>)
      requires Linked(next, prev, order) && Permutation(order) && |bufs| == NBUF
      ensures r.None? ==> forall i :: 0 <= i < NBUF ==> !Carries(bufs[i], dev, blockno)
      ensures r.Some? ==> r.value < NBUF && Carries(bufs[r.value], dev, blockno)
    {
      var b := next[HEAD];
      assert next[At(order, -1)] == At(order, 0);
      ghost var i := 0;
      while b != HEAD
        invariant 0 <= i <= NBUF && b == At(order, i)
        invariant forall k :: 0 <= k < i ==> !Carries(bufs[order[k]], dev, blockno)
        decreases NBUF - i
      {
        if bufs[b].dev == dev && bufs[b].blockno == blockno {
          return Some(b);
        }
        assert next[At(order, i)] == At(order, i + 1);
        b := next[b];
        i := i + 1;
      }
      AllOnRing(order, bufs, (x: Buf) => !Carries(x, dev, blockno));
      return None;
    }

    // bget's second loop: from the least recently used end.
    method Victim() returns (r: Option<nat>)
      requires Linked(next, prev, order) && Permutation(order) && |bufs| == NBUF
      ensures r.None? ==> forall i :: 0 <= i < NBUF ==> !Eligible(bufs[i])
      ensures r.Some? ==> Recycled(order, bufs, r.value)
    {
      var b := prev[HEAD];
      assert prev[At(order, NBUF)] == At(order, NBUF - 1);
      ghost var i := NBUF - 1;
      while b != HEAD
        invariant -1 <= i < NBUF && b == At(order, i)
        invariant forall k :: i < k < NBUF ==> !Eligible(bufs[order[k]])
        decreases i
      {
        if bufs[b].refcnt == 0 && !bufs[b].dirty {
          return Some(b);
        }
        assert prev[At(order, i)] == At(order, i - 1);
        b := prev[b];
        i := i - 1;
      }
      AllOnRing(order, bufs, (x: Buf) => !Eligible(x));
      return None;
    }

    // The section of bget under bcache.lock. None is the panic "bget: no buffers".
    method Bget(dev: nat, blockno: nat) returns (r: Option<nat>)
      requires Valid()
      modifies this`bufs
      ensures Valid()
      ensures r.Some? ==> r.value < NBUF
      // A cached block is found where it is.
      ensures (exists i :: 0 <= i < NBUF && Carries(old(bufs)[i], dev, blockno)) ==>
                && r.Some? && Carries(old(bufs)[r.value], dev, blockno)
                && bufs == old(bufs)[r.value := old(bufs)[r.value].(refcnt := old(bufs)[r.value].refcnt + 1)]
      // Otherwise the eligible buffer nearest the least recently released end is recycled.
      ensures (forall i :: 0 <= i < NBUF ==> !Carries(old(bufs)[i], dev, blockno)) ==>
                match r
                case None => bufs == old(bufs) && forall i :: 0 <= i < NBUF ==> !Eligible(bufs[i])
                case Some(b) =>
                  && Recycled(order, old(bufs), b)
                  && bufs == old(bufs)[b := old(bufs)[b].(dev := dev, blockno := blockno, valid := false, refcnt := 1)]
    {
      r := Lookup(dev, blockno);
      var x: Buf;
      if r.Some? {
        x := bufs[r.value].(refcnt := bufs[r.value].refcnt + 1);
      } else {
        r := Victim();
        if r.None? { return; }
        x := bufs[r.value].(dev := dev, blockno := blockno, valid := false, dirty := false, refcnt := 1);
      }
      Replace(bufs, disk, unsaved, r.value, x, unsaved);
      bufs := bufs[r.value := x];
    }

    // acquiresleep(&b->lock), once the lock is free.
    method Lock(b: nat, pid: Pid)
      requires Valid() && b < NBUF && bufs[b].holder.None? && bufs[b].refcnt > 0
      modifies this`bufs
      ensures Valid()
      ensures bufs == old(bufs)[b := old(bufs)[b].(holder := Some(pid))]
    {
      Replace(bufs, disk, unsaved, b, bufs[b].(holder := Some(pid)), unsaved);
      bufs := bufs[b := bufs[b].(holder := Some(pid))];
    }

    // iderw; its panics are excluded by the requires.
    method Iderw(b: nat, pid: Pid)
      requires Valid() && b < NBUF
      requires bufs[b].holder == Some(pid)
      requires !(bufs[b].valid && !bufs[b].dirty)
      requires bufs[b].dev == ROOTDEV && bufs[b].blockno < |disk|
      modifies this`bufs, this`disk, this`writes, this`unsaved
      ensures Valid() && image == old(image)
      ensures old(bufs)[b].dirty ==>
                && disk == old(disk)[old(bufs)[b].blockno := old(bufs)[b].data]
                && writes == old(writes) + [Write(old(bufs)[b].blockno, old(bufs)[b].data)]
                && bufs == old(bufs)[b := old(bufs)[b].(dirty := false)]
                && unsaved == old(unsaved) - {b}
      ensures !old(bufs)[b].dirty ==>
                && disk == old(disk) && writes == old(writes) && unsaved == old(unsaved)
                && bufs == old(bufs)[b := old(bufs)[b].(valid := true, data := disk[old(bufs)[b].blockno])]
    {
      var x := bufs[b];
      if x.dirty {
        WriteThrough(bufs, disk, unsaved, b);
        ApplySnoc(image, writes, Write(x.blockno, x.data));
        disk, writes := disk[x.blockno := x.data], writes + [Write(x.blockno, x.data)];
        x := x.(dirty := false);
        unsaved := unsaved - {b};
      } else {
        x := x.(data := disk[x.blockno]);
        Replace(bufs, disk, unsaved, b, x.(valid := true), unsaved);
      }
      bufs := bufs[b := x.(valid := true)];
    }

    // bread after bget: lock the buffer, and read it from disk if it is not valid.
    method Load(b: nat, pid: Pid)
      requires Valid() && b < NBUF && bufs[b].holder.None? && bufs[b].refcnt > 0
      requires bufs[b].dev == ROOTDEV && bufs[b].blockno < |disk|
      modifies this`bufs, this`disk, this`writes, this`unsaved
      ensures Valid() && disk == old(disk) && writes == old(writes) && unsaved == old(unsaved) && b !in unsaved
      ensures bufs == old(bufs)[b := Loaded(old(bufs)[b], pid, disk)]
      ensures !bufs[b].dirty ==> bufs[b].data == disk[bufs[b].blockno]
    {
      Lock(b, pid);
      if !bufs[b].valid {
        Iderw(b, pid);
      }
    }

    // bread, when the buffer's sleep lock is free.
    method Bread(pid: Pid, blockno: nat) returns (r: Option<nat>)
      requires Valid() && blockno < |disk|
      requires forall i :: 0 <= i < NBUF && Carries(bufs[i], ROOTDEV, blockno) ==> bufs[i].holder.None?
      modifies this`bufs, this`disk, this`writes, this`unsaved
      ensures Valid() && disk == old(disk) && writes == old(writes) && unsaved == old(unsaved)
      ensures forall i :: 0 <= i < NBUF && Carries(old(bufs)[i], ROOTDEV, blockno) ==> r == Some(i)
      ensures r.None? ==> bufs == old(bufs) && forall i :: 0 <= i < NBUF ==> !Eligible(bufs[i])
      ensures r.Some? ==>
                var b := r.value;
                && b < NBUF && b !in unsaved
                && (Carries(old(bufs)[b], ROOTDEV, blockno) || Recycled(order, old(bufs), b))
                && bufs == old(bufs)[b := Loaded(Found(old(bufs)[b], blockno), pid, disk)]
                && (!bufs[b].dirty ==> bufs[b].data == disk[blockno])
    {
      r := Bget(ROOTDEV, blockno);
      if r.Some? {
        forall i | 0 <= i < NBUF && Carries(old(bufs)[i], ROOTDEV, blockno) ensures r == Some(i) {
          SameBlockSameBuffer(old(bufs), i, r.value);
        }
        Load(r.value, pid);
      }
    }

    method SetData(b: nat, pid: Pid, data: Block)
      requires Valid() && b < NBUF && bufs[b].holder == Some(pid) && bufs[b].valid
      modifies this`bufs, this`unsaved
      ensures Valid()
      ensures bufs == old(bufs)[b := old(bufs)[b].(data := data)]
      ensures unsaved == old(unsaved) + {b}
    {
      Replace(bufs, disk, unsaved, b, bufs[b].(data := data), unsaved + {b});
      bufs := bufs[b := bufs[b].(data := data)];
      unsaved := unsaved + {b};
    }

    // b->flags |= B_DIRTY, as log_write does.
    method Pin(b: nat, pid: Pid)
      requires Valid() && b < NBUF && bufs[b].holder == Some(pid) && bufs[b].valid
      modifies this`bufs, this`unsaved
      ensures Valid()
      ensures bufs == old(bufs)[b := old(bufs)[b].(dirty := true)]
      ensures unsaved == old(unsaved) - {b}
    {
      Replace(bufs, disk, unsaved, b, bufs[b].(dirty := true), unsaved - {b});
      bufs := bufs[b := bufs[b].(dirty := true)];
      unsaved := unsaved - {b};
    }

    method Bwrite(b: nat, pid: Pid)
      requires Valid() && b < NBUF && bufs[b].holder == Some(pid) && bufs[b].valid
      modifies this`bufs, this`disk, this`writes, this`unsaved
      ensures Valid() && old(bufs)[b].blockno < |disk|
      ensures disk == old(disk)[old(bufs)[b].blockno := old(bufs)[b].data]
      ensures writes == old(writes) + [Write(old(bufs)[b].blockno, old(bufs)[b].data)]
      ensures bufs == old(bufs)[b := old(bufs)[b].(dirty := false)]
      ensures unsaved == old(unsaved) - {b}
    {
      Replace(bufs, disk, unsaved, b, bufs[b].(dirty := true), unsaved);
      bufs := bufs[b := bufs[b].(dirty := true)];
      Iderw(b, pid);
    }

    // memmove into a held buffer, then bwrite it.
    method Overwrite(b: nat, pid: Pid, data: Block)
      requires Valid() && b < NBUF && bufs[b].holder == Some(pid) && bufs[b].valid
      modifies this`bufs, this`disk, this`writes, this`unsaved
      ensures Valid() && old(bufs)[b].blockno < |disk|
      ensures disk == old(disk)[old(bufs)[b].blockno := data]
      ensures writes == old(writes) + [Write(old(bufs)[b].blockno, data)]
      ensures bufs == old(bufs)[b := old(bufs)[b].(data := data, dirty := false)]
      ensures unsaved == old(unsaved) - {b}
    {
      SetData(b, pid, data);
      Bwrite(b, pid);
    }

    method MoveToHead(b: nat)
      requires Linked(next, prev, order) && Permutation(order) && b < NBUF
      modifies this`next, this`prev, this`order
      ensures Linked(next, prev, order) && Permutation(order)
      ensures order == [b] + Without(old(order), b)
    {
      var next', prev';
      ghost var order';
      next', prev', order' := Relink(next, prev, b, order);
      next, prev, order := next', prev', order';
    }

    method Brelse(b: nat, pid: Pid)
      requires Valid() && b < NBUF && bufs[b].holder == Some(pid)
      requires b !in unsaved   // clients log or write what they changed
      modifies this`bufs, this`next, this`prev, this`order
      ensures Valid()
      ensures bufs == old(bufs)[b := old(bufs)[b].(holder := None, refcnt := old(bufs)[b].refcnt - 1)]
      // The last user's release moves the buffer to the most recently used end.
      ensures order == if bufs[b].refcnt == 0 then [b] + Without(old(order), b) else old(order)
    {
      Replace(bufs, disk, unsaved, b, bufs[b].(holder := None, refcnt := bufs[b].refcnt - 1), unsaved);
      bufs := bufs[b := bufs[b].(holder := None)];
      bufs := bufs[b := bufs[b].(refcnt := bufs[b].refcnt - 1)];
      if bufs[b].refcnt == 0 {
        MoveToHead(b);
      }
    }
  }

  // b is eligible and nothing nearer the least recently released end is.
  ghost predicate Recycled(order: seq<nat>, bufs: seq<Buf>, b: nat)
  {
    && |bufs| == NBUF && b < NBUF && Eligible(bufs[b])
    && exists k :: 0 <= k < |order| && order[k] == b &&
         forall j :: k < j < |order| ==> order[j] < NBUF && !Eligible(bufs[order[j]])
  }

  // The buffer as bget leaves it.
  function Found(b: Buf, blockno: nat): (r: Buf)
    ensures Carries(r, ROOTDEV, blockno) && r.refcnt > 0
  {
    if Carries(b, ROOTDEV, blockno) then b.(refcnt := b.refcnt + 1)
    else b.(dev := ROOTDEV, blockno := blockno, valid := false, refcnt := 1)
  }

  // The buffer as bread returns it: a valid one keeps its data, any other is read from disk.
  function Loaded(b: Buf, pid: Pid, disk: Image): Buf
    requires b.blockno < |disk|
  {
    b.(holder := Some(pid), valid := true, data := if b.valid then b.data else disk[b.blockno])
  }
}
