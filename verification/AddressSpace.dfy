/** Whole address spaces: setupkvm, freevm and copyuvm of xv6-public/vm.c. */
module AddressSpace {
  import opened Param
  import opened Pages
  import opened PageCount
  import opened Sets
  import opened Vm

  const KERNPAGE := USERDIRS * NENTRIES

  // freevm has freed the page tables of directory entries below i.
  ghost function FreedTo(owner: Owners, d: Page, i: nat): Owners {
    map p | p in owner :: if owner[p].Table? && owner[p].d == d && owner[p].i < i then Free
                          else if Belongs(p, owner[p], d) then Held else owner[p]
  }

  // Every page of directory d is free, every other use is as it was.
  ghost function Freed(owner: Owners, d: Page): Owners {
    map p | p in owner :: if Belongs(p, owner[p], d) then Free else owner[p]
  }

  lemma DroppedFree(free: seq<Page>, owner: Owners, d: Page)
    requires FreeList(free, owner)
    ensures FreeList(free, Dropped(owner, d))
  {
  }

  // Contents and translations of everything that is not d's.
  ghost predicate OthersKept(phys: Phys, phys': Phys, owner: Owners, d: Page) {
    && (forall p :: p in owner && owner[p] != Free && !Belongs(p, owner[p], d) ==>
         p in phys && p in phys' && phys'[p] == phys[p])
    && (forall e, a, b :: Is(owner, e, Dir) && e != d && 0 <= a < NENTRIES && 0 <= b < NENTRIES ==>
         At(phys', e, a, b) == At(phys, e, a, b))
  }

  lemma TableFreed(phys: Phys, owner: Owners, d: Page, i: nat, t: Page)
    requires Uses(phys, owner) && Is(owner, d, Dir) && i < NENTRIES && HasTable(phys, d, i, t)
    ensures FreedTo(owner, d, i + 1) == FreedTo(owner, d, i)[t := Free] && Is(FreedTo(owner, d, i), t, Held)
  {
    assert Ok(d, owner[d], phys, owner);
    forall p | p in owner && owner[p] == Table(d, i) ensures p == t {
      assert Ok(p, owner[p], phys, owner);
    }
  }

  lemma NoTableFreed(phys: Phys, owner: Owners, d: Page, i: nat)
    requires Uses(phys, owner) && !exists t :: HasTable(phys, d, i, t)
    ensures FreedTo(owner, d, i + 1) == FreedTo(owner, d, i)
  {
    forall p | p in owner ensures owner[p] != Table(d, i) {
      assert Ok(p, owner[p], phys, owner);
    }
  }

  lemma AllTablesFreed(phys: Phys, owner: Owners, d: Page)
    requires Uses(phys, owner) && Is(owner, d, Dir)
    requires forall p :: p in owner && owner[p].User? ==> owner[p].d != d
    ensures Is(FreedTo(owner, d, NENTRIES), d, Held) && FreedTo(owner, d, NENTRIES)[d := Free] == Freed(owner, d)
  {
    forall p | p in owner ensures owner[p].Table? && owner[p].d == d ==> owner[p].i < NENTRIES {
      assert Ok(p, owner[p], phys, owner);
    }
  }

  // Freeing a page of d's that is in no use any more.
  lemma OthersKeptStep(phys0: Phys, phys: Phys, phys': Phys, owner: Owners, owner1: Owners, d: Page, t: Page)
    requires OthersKept(phys0, phys, owner, d) && t in owner && Belongs(t, owner[t], d) && phys' == phys[t := Raw(JUNK)]
    requires SameView(phys, phys', owner1) && forall e :: Is(owner, e, Dir) && e != d ==> Is(owner1, e, Dir)
    ensures OthersKept(phys0, phys', owner, d)
  {
    forall e, a, b | Is(owner, e, Dir) && e != d && 0 <= a < NENTRIES && 0 <= b < NENTRIES
      ensures At(phys', e, a, b) == At(phys0, e, a, b) {
      assert Is(owner1, e, Dir);
    }
  }

  // freevm's loop has reached directory entry i.
  ghost predicate Freeing(m0: Ram, owner: Owners, m: Ram, owner': Owners, d: Page, i: nat) {
    && owner' == FreedTo(owner, d, i) && Inv(m, owner') && OthersKept(m0.phys, m.phys, owner, d)
    && d in m0.phys && d in m.phys && m.phys[d] == m0.phys[d]
  }

  lemma FreeingNext(m0: Ram, owner: Owners, m1: Ram, owner1: Owners, m: Ram, owner': Owners, d: Page, i: nat, t: Page)
    requires Uses(m0.phys, owner) && Is(owner, d, Dir) && i < NENTRIES && Freeing(m0, owner, m1, owner1, d, i)
             && HasTable(m0.phys, d, i, t)
    requires owner' == owner1[t := Free] && Inv(m, owner') && m.phys == m1.phys[t := Raw(JUNK)]
             && SameView(m1.phys, m.phys, owner1)
    ensures Freeing(m0, owner, m, owner', d, i + 1)
  {
    TableFreed(m0.phys, owner, d, i, t);
    DirOf(m0.phys, owner, d);
    assert Is(owner, t, Table(d, i));
    OthersKeptStep(m0.phys, m1.phys, m.phys, owner, owner1, d, t);
  }

  method FreeTable(m1: Ram, d: Page, i: nat, ghost m0: Ram, ghost owner: Owners, ghost owner1: Owners)
    returns (m: Ram, i': nat, ghost owner': Owners)
    requires Uses(m0.phys, owner) && Is(owner, d, Dir) && i < NENTRIES && Freeing(m0, owner, m1, owner1, d, i)
    ensures i' == i + 1 && Freeing(m0, owner, m, owner', d, i')
  {
    m, owner', i' := m1, owner1, i + 1;
    DirOf(m0.phys, owner, d);
    if m.phys[d].pdes[i].Present? {
      var t := m.phys[d].pdes[i].table;
      TableFreed(m0.phys, owner, d, i, t);
      m, owner' := Kfree(m, t, owner');
      FreeingNext(m0, owner, m1, owner1, m, owner', d, i, t);
    } else {
      NoTableFreed(m0.phys, owner, d, i);
    }
  }

  // freevm's loop over the directory.
  method FreeTables(m0: Ram, d: Page, ghost owner: Owners) returns (m: Ram, ghost owner': Owners)
    requires Inv(m0, FreedTo(owner, d, 0)) && Uses(m0.phys, owner) && Is(owner, d, Dir)
    ensures owner' == FreedTo(owner, d, NENTRIES) && Inv(m, owner') && OthersKept(m0.phys, m.phys, owner, d)
  {
    m, owner' := m0, FreedTo(owner, d, 0);
    DirOf(m0.phys, owner, d);
    var i := 0;
    while i < NENTRIES
      invariant 0 <= i <= NENTRIES && Freeing(m0, owner, m, owner', d, i)
    {
      m, i, owner' := FreeTable(m, d, i, m0, owner, owner');
    }
  }

  // The user pages are unmapped and freed, then the page tables, then the directory.
  method Freevm(m0: Ram, d: Page, ghost owner: Owners) returns (m: Ram, ghost owner': Owners)
    requires Inv(m0, owner) && Is(owner, d, Dir)
    ensures owner' == Freed(owner, d) && Inv(m, owner') && OthersKept(m0.phys, m.phys, owner, d)
  {
    var r;
    m, r, owner' := Deallocuvm(m0, d, KERNBASE, 0, owner);
    ghost var m1, owner1 := m, owner';
    UserGone(m0, owner, m1, owner1, d);
    m, owner' := FreeTables(m, d, owner');
    ghost var m2 := m;
    AllTablesFreed(m1.phys, owner1, d);
    m, owner' := Kfree(m, d, owner');
    FreedAll(m0, owner, m1, owner1, m2, m, d);
  }

  lemma UserGone(m0: Ram, owner: Owners, m1: Ram, owner1: Owners, d: Page)
    requires Inv(m0, owner) && Is(owner, d, Dir) && Is(owner1, d, Dir)
             && Unmapped(m0, owner, m1, owner1, d, Up(0), Up(KERNBASE))
    ensures Inv(m1, FreedTo(owner1, d, 0)) && Freed(owner1, d) == Freed(owner, d)
    ensures forall p :: p in owner1 && owner1[p].User? ==> owner1[p].d != d
  {
    assert Up(0) == 0 && Up(KERNBASE) == KERNPAGE;
    assert FreedTo(owner1, d, 0) == Dropped(owner1, d);
    assert Is(owner, d, Dir);
    DropDir(m1.phys, owner1, d);
    DroppedFree(m1.free, owner1, d);
    UserFreed(m0, owner, d, owner1);
  }

  lemma UserFreed(m0: Ram, owner: Owners, d: Page, owner1: Owners)
    requires Uses(m0.phys, owner) && owner1 == Shrunk(owner, d, 0, KERNPAGE)
    ensures Freed(owner1, d) == Freed(owner, d) && forall p :: p in owner1 && owner1[p].User? ==> owner1[p].d != d
  {
    forall p | p in owner && owner[p].User? && owner[p].d == d ensures owner1[p] == Free {
      assert Ok(p, owner[p], m0.phys, owner);
    }
  }

  lemma FreedAll(m0: Ram, owner: Owners, m1: Ram, owner1: Owners, m2: Ram, m3: Ram, d: Page)
    requires Inv(m0, owner) && Is(owner, d, Dir) && Is(owner1, d, Dir)
             && Unmapped(m0, owner, m1, owner1, d, Up(0), Up(KERNBASE))
    requires OthersKept(m1.phys, m2.phys, owner1, d) && m3.phys == m2.phys[d := Raw(JUNK)]
    requires SameView(m2.phys, m3.phys, FreedTo(owner1, d, NENTRIES))
    ensures OthersKept(m0.phys, m3.phys, owner, d)
  {
    OthersKeptStep(m1.phys, m2.phys, m3.phys, owner1, FreedTo(owner1, d, NENTRIES), d, d);
    forall e, a, b | Is(owner, e, Dir) && e != d && 0 <= a < NENTRIES && 0 <= b < NENTRIES
      ensures At(m3.phys, e, a, b) == At(m0.phys, e, a, b) {
      assert Is(owner1, e, Dir);
    }
    forall p | p in owner && owner[p] != Free && !Belongs(p, owner[p], d)
      ensures p in m0.phys && p in m3.phys && m3.phys[p] == m0.phys[p] {
      assert owner1[p] == owner[p] && Keeps(owner[p], owner1[p], p, d);
    }
  }

  // A row of kmap[], in pages.
  datatype Kmap = Kmap(virt: nat, end: nat, phys: nat, perm: nat)

  predicate Covers(r: Kmap, v: nat) { r.virt <= v < r.end }

  predicate KernelRange(r: Kmap) { KERNPAGE <= r.virt < r.end <= 2 * KERNPAGE }

  // The rows are kernel ranges and no page is in two of them.
  ghost predicate KmapOk(kmap: seq<Kmap>) {
    && (forall k :: 0 <= k < |kmap| ==> KernelRange(kmap[k]))
    && (forall k, l, v :: 0 <= k < l < |kmap| && Covers(kmap[k], v) ==> !Covers(kmap[l], v))
  }

  const EXTMEM := 0x10_0000
  const PHYSTOP := 0xE00_0000
  const DEVSPACE := 0xFE00_0000
  const KERNLINK := KERNBASE + EXTMEM

  // The pages mappages visits for a row given in bytes; the size is computed in 32 bits.
  function RowPages(virt: nat, physStart: nat, physEnd: nat, perm: nat): Kmap
    requires physStart != physEnd
  {
    var size := (physEnd - physStart) % 0x1_0000_0000;
    Kmap(virt / PGSIZE, (virt + size - 1) / PGSIZE + 1, physStart / PGSIZE, perm)
  }

  // The kernel linked with its data at this virtual address.
  function KernelMap(data: nat): seq<Kmap>
    requires KERNLINK < data < KERNBASE + PHYSTOP
  {
    [RowPages(KERNBASE, 0, EXTMEM, PTE_W), RowPages(KERNLINK, EXTMEM, data - KERNBASE, 0),
     RowPages(data, data - KERNBASE, PHYSTOP, PTE_W), RowPages(DEVSPACE, DEVSPACE, 0, PTE_W)]
  }

  // Its rows are kernel ranges that do not meet, wherever a linker puts the data.
  lemma KernelMapOk(data: nat)
    requires KERNLINK < data < KERNBASE + PHYSTOP && data % PGSIZE == 0
    ensures KmapOk(KernelMap(data))
  {
    RowsAre(data);
  }

  // The rows in pages.
  lemma RowsAre(data: nat)
    requires KERNLINK < data < KERNBASE + PHYSTOP && data % PGSIZE == 0
    ensures KernelMap(data) == [Kmap(KERNPAGE, KERNPAGE + 0x100, 0, PTE_W),
                                Kmap(KERNPAGE + 0x100, data / PGSIZE, 0x100, 0),
                                Kmap(data / PGSIZE, KERNPAGE + 0xE000, data / PGSIZE - KERNPAGE, PTE_W),
                                Kmap(0xF_E000, 0x10_0000, 0xF_E000, PTE_W)]
  {
  }

  /** Physical memory is at KERNBASE in the kernel's half, all of it, and read only exactly from KERNLINK to data. */
  lemma PhysicalMemoryMapped(data: nat, v: nat)
    requires KERNLINK < data < KERNBASE + PHYSTOP && data % PGSIZE == 0 && KERNBASE <= v * PGSIZE < KERNBASE + PHYSTOP
    ensures KernelPte(KernelMap(data), 4, v) == Mapped(v - KERNPAGE, if KERNLINK <= v * PGSIZE < data then 0 else PTE_W)
  {
    KernelMapOk(data);
    var kmap := KernelMap(data);
    assert KernelPte(kmap, 4, v) == KernelPte(kmap, 3, v);
    if !Covers(kmap[2], v) {
      assert KernelPte(kmap, 3, v) == KernelPte(kmap, 2, v);
      assert !Covers(kmap[1], v) ==> KernelPte(kmap, 2, v) == KernelPte(kmap, 1, v);
    }
  }

  /** The whole kernel half: physical memory at KERNBASE, nothing between it and the devices, and the devices at
      their own addresses, writable. Below KERNBASE there is nothing. */
  lemma KernelMapIs(data: nat, v: nat)
    requires KERNLINK < data < KERNBASE + PHYSTOP && data % PGSIZE == 0 && v * PGSIZE < 0x1_0000_0000
    ensures var pte, a := KernelPte(KernelMap(data), 4, v), v * PGSIZE;
            && (a < KERNBASE ==> pte == NotPresent)
            && (KERNBASE <= a < KERNBASE + PHYSTOP ==>
                  pte == Mapped(v - KERNPAGE, if KERNLINK <= a < data then 0 else PTE_W))
            && (KERNBASE + PHYSTOP <= a < DEVSPACE ==> pte == NotPresent)
            && (DEVSPACE <= a ==> pte == Mapped(v, PTE_W))
  {
    if KERNBASE <= v * PGSIZE < KERNBASE + PHYSTOP {
      PhysicalMemoryMapped(data, v);
    } else {
      var kmap := KernelMap(data);
      RowsAre(data);
      assert !Covers(kmap[0], v) && !Covers(kmap[1], v) && !Covers(kmap[2], v);
      assert KernelPte(kmap, 3, v) == KernelPte(kmap, 2, v) == KernelPte(kmap, 1, v) == NotPresent;
      assert Covers(kmap[3], v) <==> DEVSPACE <= v * PGSIZE;
    }
  }

  // What the first k rows map virtual page v to.
  ghost function KernelPte(kmap: seq<Kmap>, k: nat, v: nat): Pte
    requires k <= |kmap|
  {
    if k == 0 then NotPresent
    else if Covers(kmap[k - 1], v) then Mapped(kmap[k - 1].phys + (v - kmap[k - 1].virt), kmap[k - 1].perm)
    else KernelPte(kmap, k - 1, v)
  }

  // The pages of r below v are mapped in d, and nothing else is mapped differently.
  ghost predicate RangeMapped(phys: Phys, phys': Phys, owner: Owners, d: Page, r: Kmap, v: nat) {
    forall e, a, b :: Is(owner, e, Dir) && 0 <= a < NENTRIES && 0 <= b < NENTRIES ==>
      At(phys', e, a, b) == if e == d && r.virt <= Vpn(a, b) < v then Mapped(r.phys + (Vpn(a, b) - r.virt), r.perm)
          else At(phys, e, a, b)
  }

  ghost predicate Mapping(m0: Ram, owner: Owners, m: Ram, owner': Owners, d: Page, r: Kmap, v: nat) {
    && Inv(m, owner') && Is(owner', d, Dir) && OnlyGrew(owner, owner', d) && DataKept(m0.phys, owner, m.phys, owner', d)
    && RangeMapped(m0.phys, m.phys, owner, d, r, v)
  }

  // One turn of mappages for a kernel page.
  method MapKernelPage(m0: Ram, d: Page, v: nat, frame: nat, perm: nat, ghost owner: Owners)
    returns (m: Ram, ok: bool, ghost owner': Owners)
    requires Inv(m0, owner) && Is(owner, d, Dir) && KERNPAGE <= v < 2 * KERNPAGE
             && At(m0.phys, d, v / NENTRIES, v % NENTRIES) == NotPresent
    ensures Inv(m, owner') && OnlyGrew(owner, owner', d) && DataKept(m0.phys, owner, m.phys, owner', d)
    ensures !ok ==> m == m0 && owner' == owner && Short(m0, d, 0, v / NENTRIES)
    ensures ok ==>
              ViewBut(m0.phys, m.phys, owner, d, v / NENTRIES, v % NENTRIES, Mapped(frame, perm))
                  && Took(m0, m, d, 0, v / NENTRIES)
  {
    var i, j := v / NENTRIES, v % NENTRIES;
    var t;
    m, t, owner' := Walkpgdir(m0, d, i, true, owner);
    ok := t.Some?;
    if ok {
      ghost var m1 := m;
      m := m.(phys := m.phys[t.value := PageTable(m.phys[t.value].ptes[j := Mapped(frame, perm)])]);
      MapKernel(m1.phys, owner', d, i, j, t.value, Mapped(frame, perm), m.phys);
      SameTables(m0, m1, m, d, 0, i);
    }
  }

  lemma RangeNext(m0: Ram, owner: Owners, m: Ram, owner1: Owners, m': Ram, owner': Owners, d: Page, r: Kmap, v: nat)
    requires Mapping(m0, owner, m, owner1, d, r, v) && r.virt <= v && Inv(m', owner') && Is(owner, d, Dir)
             && Uses(m0.phys, owner)
    requires OnlyGrew(owner1, owner', d) && DataKept(m.phys, owner1, m'.phys, owner', d)
    requires ViewBut(m.phys, m'.phys, owner1, d, v / NENTRIES, v % NENTRIES, Mapped(r.phys + (v - r.virt), r.perm))
    ensures Mapping(m0, owner, m', owner', d, r, v + 1)
  {
    KeptTwice(m0.phys, owner, m.phys, owner1, m'.phys, owner', d);
    SplitVpn(v);
    forall e, a, b | Is(owner, e, Dir) && 0 <= a < NENTRIES && 0 <= b < NENTRIES
      ensures At(m'.phys, e, a, b) == if e == d && r.virt <= Vpn(a, b) < v + 1
                then Mapped(r.phys + (Vpn(a, b) - r.virt), r.perm) else At(m0.phys, e, a, b)
    {
      assert Is(owner1, e, Dir);
    }
  }

  // mappages over a kernel range. The requires excludes the panic "remap".
  method Mappages(m0: Ram, d: Page, r: Kmap, ghost owner: Owners)
    returns (m: Ram, ok: bool, ghost c: nat, ghost owner': Owners)
    requires Inv(m0, owner) && Is(owner, d, Dir) && KernelRange(r) && Vacant(m0.phys, d, r.virt, r.end)
    ensures r.virt <= c <= r.end && Mapping(m0, owner, m, owner', d, r, c)
    ensures ok ==> c == r.end && Spent(m0, m, d, 0, r.virt, r.end)
    ensures !ok ==> Lacks(m0, d, 0, r.virt, r.end)
  {
    m, owner', c, ok := m0, owner, r.virt, true;
    var v, frame := r.virt, r.phys;
    SpentNothing(m0, d, r.virt);
    while true
      invariant ok && c == v && r.virt <= v < r.end && frame == r.phys + (v - r.virt)
      invariant Mapping(m0, owner, m, owner', d, r, v) && Spent(m0, m, d, 0, r.virt, v)
      decreases r.end - v
    {
      var v', frame';
      m, ok, v', frame', c, owner' := MapTurn(m, d, r, v, frame, m0, owner, owner');
      if !ok { return; }
      if v == r.end - 1 { return; }
      v, frame := v', frame';
    }
  }

  // One turn of the loop.
  method MapNext(m1: Ram, d: Page, r: Kmap, v: nat, frame: nat, ghost m0: Ram, ghost owner: Owners,
                 ghost owner1: Owners)
    returns (m: Ram, ok: bool, ghost owner': Owners)
    requires Uses(m0.phys, owner) && Is(owner, d, Dir) && KernelRange(r) && Vacant(m0.phys, d, r.virt, r.end)
    requires r.virt <= v < r.end && frame == r.phys + (v - r.virt) && Mapping(m0, owner, m1, owner1, d, r, v)
    ensures ok ==> Mapping(m0, owner, m, owner', d, r, v + 1) && Took(m1, m, d, 0, v / NENTRIES)
    ensures !ok ==> m == m1 && owner' == owner1 && Short(m1, d, 0, v / NENTRIES)
  {
    SplitVpn(v);
    m, ok, owner' := MapKernelPage(m1, d, v, frame, r.perm, owner1);
    if ok { RangeNext(m0, owner, m1, owner1, m, owner', d, r, v); }
  }

  // The same, with what has been taken off the free list since m0.
  method MapTurn(m1: Ram, d: Page, r: Kmap, v: nat, frame: nat, ghost m0: Ram, ghost owner: Owners,
                 ghost owner1: Owners)
    returns (m: Ram, ok: bool, v': nat, frame': nat, ghost c: nat, ghost owner': Owners)
    requires Uses(m0.phys, owner) && Is(owner, d, Dir) && KernelRange(r) && Vacant(m0.phys, d, r.virt, r.end)
    requires r.virt <= v < r.end && frame == r.phys + (v - r.virt) && Mapping(m0, owner, m1, owner1, d, r, v)
             && Spent(m0, m1, d, 0, r.virt, v)
    ensures v' == v + 1 && frame' == frame + 1
    ensures ok ==> c == v' && Mapping(m0, owner, m, owner', d, r, v') && Spent(m0, m, d, 0, r.virt, v')
    ensures !ok ==> c == v && Mapping(m0, owner, m, owner', d, r, v) && Lacks(m0, d, 0, r.virt, r.end)
  {
    v', frame', c := v + 1, frame + 1, v;
    m, ok, owner' := MapNext(m1, d, r, v, frame, m0, owner, owner1);
    if ok {
      c := v';
      PageSpent(m0, m1, m, d, r.virt, v, v', 0, 0, 0);
    } else {
      PageLacking(m0, m1, d, r.virt, v, r.end, 0, 0, 0);
    }
  }

  // d is a new directory; everything that was in use before is as it was.
  ghost predicate Started(m0: Ram, owner: Owners, m: Ram, owner': Owners, d: Page) {
    && Inv(m, owner') && Is(owner, d, Free) && Is(owner', d, Dir) && OnlyGrew(owner, owner', d)
    && DataKept(m0.phys, owner, m.phys, owner', d) && SameView(m0.phys, m.phys, owner)
  }

  // The new directory maps what the first k rows say and nothing else.
  ghost predicate KernelOnly(phys: Phys, d: Page, kmap: seq<Kmap>, k: nat)
    requires k <= |kmap|
  {
    forall a, b :: 0 <= a < NENTRIES && 0 <= b < NENTRIES ==> At(phys, d, a, b) == KernelPte(kmap, k, Vpn(a, b))
  }

  lemma StartedNext(m0: Ram, owner: Owners, m: Ram, owner1: Owners, m': Ram, owner': Owners, d: Page, r: Kmap, c: nat)
    requires Uses(m0.phys, owner) && Started(m0, owner, m, owner1, d) && Mapping(m, owner1, m', owner', d, r, c)
    ensures Started(m0, owner, m', owner', d)
  {
    KeptTwice(m0.phys, owner, m.phys, owner1, m'.phys, owner', d);
    forall e, a, b | Is(owner, e, Dir) && 0 <= a < NENTRIES && 0 <= b < NENTRIES
      ensures At(m'.phys, e, a, b) == At(m0.phys, e, a, b) {
      assert Is(owner1, e, Dir);
    }
  }

  lemma RowVacant(phys: Phys, d: Page, kmap: seq<Kmap>, k: nat)
    requires KmapOk(kmap) && k < |kmap| && KernelOnly(phys, d, kmap, k)
    ensures Vacant(phys, d, kmap[k].virt, kmap[k].end)
  {
    forall a, b | 0 <= a < NENTRIES && 0 <= b < NENTRIES && Covers(kmap[k], Vpn(a, b))
      ensures KernelPte(kmap, k, Vpn(a, b)) == NotPresent {
      NotCovered(kmap, k, k, Vpn(a, b));
    }
    forall a, b | 0 <= a < NENTRIES && 0 <= b < NENTRIES && kmap[k].virt <= Vpn(a, b) < kmap[k].end
      ensures At(phys, d, a, b) == NotPresent {
      assert Covers(kmap[k], Vpn(a, b));
    }
  }

  lemma {:induction false} NotCovered(kmap: seq<Kmap>, k: nat, l: nat, v: nat)
    requires KmapOk(kmap) && k <= l < |kmap| && Covers(kmap[l], v)
    ensures KernelPte(kmap, k, v) == NotPresent
  {
    if k > 0 {
      assert !Covers(kmap[k - 1], v);
      NotCovered(kmap, k - 1, l, v);
    }
  }

  lemma KernelNext(phys: Phys, phys': Phys, owner: Owners, d: Page, kmap: seq<Kmap>, k: nat)
    requires k < |kmap| && KernelOnly(phys, d, kmap, k) && Is(owner, d, Dir)
             && RangeMapped(phys, phys', owner, d, kmap[k], kmap[k].end)
    ensures KernelOnly(phys', d, kmap, k + 1)
  {
    forall a, b | 0 <= a < NENTRIES && 0 <= b < NENTRIES
      ensures At(phys', d, a, b) == KernelPte(kmap, k + 1, Vpn(a, b)) {
      assert At(phys, d, a, b) == KernelPte(kmap, k, Vpn(a, b));
    }
  }

  // Giving up a directory that was new puts every page back to its use.
  lemma FreedBack(m0: Ram, owner: Owners, m1: Ram, owner1: Owners, m2: Ram, d: Page)
    requires Uses(m0.phys, owner) && Started(m0, owner, m1, owner1, d) && OthersKept(m1.phys, m2.phys, owner1, d)
    ensures Freed(owner1, d) == owner && AsBefore(m0, owner, m2)
  {
    forall p | p in owner ensures !Belongs(p, owner[p], d) { assert Ok(p, owner[p], m0.phys, owner); }
    forall e, a, b | Is(owner, e, Dir) && 0 <= a < NENTRIES && 0 <= b < NENTRIES
      ensures At(m2.phys, e, a, b) == At(m0.phys, e, a, b) {
      assert Is(owner1, e, Dir);
    }
    forall p | p in owner && owner[p] != Free ensures p in m0.phys && p in m2.phys && m2.phys[p] == m0.phys[p] {
      assert Keeps(owner[p], owner1[p], p, d);
    }
  }

  // Every page in use holds what it held, and every directory translates as it did.
  ghost predicate AsBefore(m0: Ram, owner: Owners, m: Ram) {
    && (forall p :: p in owner && owner[p] != Free ==> p in m0.phys && p in m.phys && m.phys[p] == m0.phys[p])
    && SameView(m0.phys, m.phys, owner)
  }

  method NewDirectory(m0: Ram, kmap: seq<Kmap>, ghost owner: Owners)
    returns (m: Ram, d: Option<Page>, ghost owner': Owners)
    requires Inv(m0, owner)
    ensures d.None? ==> m == m0 && owner' == owner && m0.free == []
    ensures d.Some? ==> Started(m0, owner, m, owner', d.value) && KernelOnly(m.phys, d.value, kmap, 0)
    ensures d.Some? ==> |m0.free| == |m.free| + 1 && Tables(m.phys, d.value) == {}
  {
    m, d, owner' := Kalloc(m0, owner);
    if d.Some? {
      ghost var owner1 := owner';
      m := m.(phys := m.phys[d.value := EmptyDir]);
      owner' := owner'[d.value := Dir];
      NewDir(m0.phys, owner1, d.value, m.phys, owner');
      KeepFree(m.free, owner1, d.value, Dir);
      forall e | Is(owner, e, Dir) ensures Is(owner1, e, Dir) { }
    }
  }

  // The directory entries under which the first k rows lie.
  ghost function KernelEntries(kmap: seq<Kmap>, k: nat): set<nat>
    requires k <= |kmap|
  {
    if k == 0 then {} else KernelEntries(kmap, k - 1) + Touched(kmap[k - 1].virt, kmap[k - 1].end)
  }

  // The number of page tables that takes.
  ghost function KernelTables(kmap: seq<Kmap>, k: nat): nat
    requires k <= |kmap|
  {
    |KernelEntries(kmap, k)|
  }

  lemma MissingAdds(has: set<nat>, lo: nat, hi: nat)
    ensures |has + Touched(lo, hi)| == |has| + Missing(has, lo, hi)
  {
    MissingIs(has, lo, hi);
    UnionSize(has, Touched(lo, hi));
  }

  // A row needs as many page tables as the entries it touches that no row before it does.
  lemma RowTables(kmap: seq<Kmap>, k: nat)
    requires k < |kmap|
    ensures KernelTables(kmap, k + 1) == KernelTables(kmap, k) + Missing(KernelEntries(kmap, k), kmap[k].virt,
              kmap[k].end)
  {
    MissingAdds(KernelEntries(kmap, k), kmap[k].virt, kmap[k].end);
  }

  lemma {:induction false} EntriesGrow(kmap: seq<Kmap>, k: nat, l: nat)
    requires k <= l <= |kmap|
    ensures KernelEntries(kmap, k) <= KernelEntries(kmap, l)
    decreases l
  {
    if k < l { EntriesGrow(kmap, k, l - 1); }
  }

  // The directory after k rows, and the pages it has cost.
  ghost predicate SetUp(m0: Ram, owner: Owners, m: Ram, owner': Owners, d: Page, kmap: seq<Kmap>, k: nat)
    requires k <= |kmap|
  {
    && Started(m0, owner, m, owner', d) && KernelOnly(m.phys, d, kmap, k)
    && Tables(m.phys, d) == KernelEntries(kmap, k) && |m0.free| == |m.free| + 1 + KernelTables(kmap, k)
  }

  lemma RowSpent(free: nat, m1: Ram, m: Ram, d: Page, kmap: seq<Kmap>, k: nat)
    requires k < |kmap| && Tables(m1.phys, d) == KernelEntries(kmap, k) && free == |m1.free| + 1 + KernelTables(kmap, k)
    requires Spent(m1, m, d, 0, kmap[k].virt, kmap[k].end)
    ensures Tables(m.phys, d) == KernelEntries(kmap, k + 1) && free == |m.free| + 1 + KernelTables(kmap, k + 1)
  {
    RowTables(kmap, k);
  }

  lemma RowLacking(free: nat, m1: Ram, d: Page, kmap: seq<Kmap>, k: nat)
    requires k < |kmap| && Tables(m1.phys, d) == KernelEntries(kmap, k) && free == |m1.free| + 1 + KernelTables(kmap, k)
    requires Lacks(m1, d, 0, kmap[k].virt, kmap[k].end)
    ensures free < 1 + KernelTables(kmap, |kmap|)
  {
    RowTables(kmap, k);
    EntriesGrow(kmap, k + 1, |kmap|);
    SubsetSize(KernelEntries(kmap, k + 1), KernelEntries(kmap, |kmap|));
  }

  // One row.
  method MapRow(m1: Ram, d: Page, kmap: seq<Kmap>, k: nat, ghost m0: Ram, ghost owner: Owners, ghost owner1: Owners)
    returns (m: Ram, k': nat, ok: bool, ghost owner': Owners)
    requires Uses(m0.phys, owner) && KmapOk(kmap) && k < |kmap| && SetUp(m0, owner, m1, owner1, d, kmap, k)
    ensures k' == k + 1 && (ok ==> SetUp(m0, owner, m, owner', d, kmap, k'))
    ensures !ok ==> Started(m0, owner, m, owner', d) && |m0.free| < 1 + KernelTables(kmap, |kmap|)
  {
    ghost var c;
    k' := k + 1;
    RowVacant(m1.phys, d, kmap, k);
    m, ok, c, owner' := Mappages(m1, d, kmap[k], owner1);
    StartedNext(m0, owner, m1, owner1, m, owner', d, kmap[k], c);
    if ok {
      KernelNext(m1.phys, m.phys, owner1, d, kmap, k);
      RowSpent(|m0.free|, m1, m, d, kmap, k);
    } else {
      RowLacking(|m0.free|, m1, d, kmap, k);
    }
  }

  // A new directory is given up.
  method DropNew(m1: Ram, d: Page, ghost m0: Ram, ghost owner: Owners, ghost owner1: Owners)
    returns (m: Ram, ghost owner': Owners)
    requires Uses(m0.phys, owner) && Started(m0, owner, m1, owner1, d)
    ensures owner' == owner && Inv(m, owner) && AsBefore(m0, owner, m)
  {
    m, owner' := Freevm(m1, d, owner1);
    FreedBack(m0, owner, m1, owner1, m, d);
  }

  // The loop of setupkvm.
  method MapRows(m1: Ram, d: Page, kmap: seq<Kmap>, ghost m0: Ram, ghost owner: Owners, ghost owner1: Owners)
    returns (m: Ram, ok: bool, ghost owner': Owners)
    requires Uses(m0.phys, owner) && KmapOk(kmap) && SetUp(m0, owner, m1, owner1, d, kmap, 0)
    ensures ok ==> SetUp(m0, owner, m, owner', d, kmap, |kmap|)
    ensures !ok ==> Started(m0, owner, m, owner', d) && |m0.free| < 1 + KernelTables(kmap, |kmap|)
  {
    m, ok, owner' := m1, true, owner1;
    var k := 0;
    while k < |kmap|
      invariant ok && 0 <= k <= |kmap| && SetUp(m0, owner, m, owner', d, kmap, k)
    {
      m, k, ok, owner' := MapRow(m, d, kmap, k, m0, owner, owner');
      if !ok { return; }
    }
  }

  method Setupkvm(m0: Ram, kmap: seq<Kmap>, ghost owner: Owners) returns (m: Ram, d: Option<Page>, ghost owner': Owners)
    requires Inv(m0, owner) && KmapOk(kmap)
    ensures d.None? ==> owner' == owner && Inv(m, owner) && AsBefore(m0, owner, m)
    ensures d.Some? ==> SetUp(m0, owner, m, owner', d.value, kmap, |kmap|)
    // It fails exactly when the free list is too short for the directory and its page tables.
    ensures d.None? <==> |m0.free| < 1 + KernelTables(kmap, |kmap|)
  {
    m, d, owner' := NewDirectory(m0, kmap, owner);
    if d.None? { return; }
    var ok;
    m, ok, owner' := MapRows(m, d.value, kmap, m0, owner, owner');
    if !ok {
      m, owner' := DropNew(m, d.value, m0, owner, owner');
      d := None;
    }
  }

  // The pages of d below virtual page n are all mapped.
  ghost predicate AllMapped(phys: Phys, d: Page, n: nat) {
    forall a, b :: 0 <= a < NENTRIES && 0 <= b < NENTRIES && Vpn(a, b) < n ==> At(phys, d, a, b).Mapped?
  }

  // pte' maps a page with the contents and permissions of the page that pte maps.
  ghost predicate Copy(phys: Phys, pte: Pte, phys': Phys, pte': Pte) {
    && pte.Mapped? && pte'.Mapped? && pte'.perm == pte.perm
    && pte.frame in phys && pte'.frame in phys' && phys'[pte'.frame] == phys[pte.frame]
  }

  // copyuvm has copied the pages of d below v to the new directory d2.
  ghost predicate Copied(phys: Phys, phys': Phys, d: Page, d2: Page, v: nat, kmap: seq<Kmap>) {
    forall a, b :: 0 <= a < NENTRIES && 0 <= b < NENTRIES ==>
      if Vpn(a, b) < v then Copy(phys, At(phys, d, a, b), phys', At(phys', d2, a, b))
          else At(phys', d2, a, b) == KernelPte(kmap, |kmap|, Vpn(a, b))
  }

  // The entry for virtual page v, when its page is mapped; the panics of copyuvm do not happen.
  method ReadPte(m: Ram, d: Page, v: nat, ghost owner: Owners) returns (pte: Pte, data: nat)
    requires Inv(m, owner) && Is(owner, d, Dir) && v < KERNPAGE && At(m.phys, d, v / NENTRIES, v % NENTRIES).Mapped?
    ensures pte == At(m.phys, d, v / NENTRIES, v % NENTRIES)
            && Is(owner, pte.frame, User(d, v / NENTRIES, v % NENTRIES))
    ensures pte.frame in m.phys && m.phys[pte.frame] == Raw(data)
  {
    SplitVpn(v);
    var m', t;
    ghost var owner';
    m', t, owner' := Walkpgdir(m, d, v / NENTRIES, false, owner);
    DirOf(m.phys, owner, d);
    assert HasTable(m.phys, d, v / NENTRIES, m.phys[d].pdes[v / NENTRIES].table);
    pte := m.phys[t.value].ptes[v % NENTRIES];
    assert Ok(pte.frame, owner[pte.frame], m.phys, owner);
    data := m.phys[pte.frame].data;
  }

  lemma StartedAdd(m0: Ram, owner: Owners, m: Ram, owner1: Owners, m': Ram, owner': Owners, d: Page, v: nat, pte: Pte)
    requires Uses(m0.phys, owner) && Started(m0, owner, m, owner1, d) && Inv(m', owner')
    requires OnlyGrew(owner1, owner', d) && DataKept(m.phys, owner1, m'.phys, owner', d)
             && ViewBut(m.phys, m'.phys, owner1, d, v / NENTRIES, v % NENTRIES, pte)
    ensures Started(m0, owner, m', owner', d)
  {
    KeptTwice(m0.phys, owner, m.phys, owner1, m'.phys, owner', d);
    forall e, a, b | Is(owner, e, Dir) && 0 <= a < NENTRIES && 0 <= b < NENTRIES
      ensures At(m'.phys, e, a, b) == At(m0.phys, e, a, b) {
      assert Is(owner1, e, Dir);
    }
  }

  lemma StillCopy(phys0: Phys, pte: Pte, phys: Phys, owner: Owners, phys': Phys, owner': Owners, d: Page, a: nat,
                  b: nat)
    requires Uses(phys, owner) && OnlyGrew(owner, owner', d) && DataKept(phys, owner, phys', owner', d)
             && Is(owner, d, Dir)
    requires a < USERDIRS && b < NENTRIES && Copy(phys0, pte, phys, At(phys, d, a, b))
    ensures Copy(phys0, pte, phys', At(phys, d, a, b))
  {
    DirOf(phys, owner, d);
    TableAt(phys, owner, d, a);
  }

  lemma CopiedNext(m0: Ram, m: Ram, owner1: Owners, m': Ram, owner': Owners, d: Page, d2: Page, v: nat, p: Page,
                   kmap: seq<Kmap>)
    requires Inv(m, owner1) && Is(owner1, d2, Dir) && v < KERNPAGE && Copied(m0.phys, m.phys, d, d2, v, kmap)
    requires OnlyGrew(owner1, owner', d2) && DataKept(m.phys, owner1, m'.phys, owner', d2)
    requires At(m0.phys, d, v / NENTRIES, v % NENTRIES).Mapped?
    requires var pte := At(m0.phys, d, v / NENTRIES, v % NENTRIES);
             && ViewBut(m.phys, m'.phys, owner1, d2, v / NENTRIES, v % NENTRIES, Mapped(p, pte.perm))
             && Copy(m0.phys, pte, m'.phys, Mapped(p, pte.perm))
    ensures Copied(m0.phys, m'.phys, d, d2, v + 1, kmap)
  {
    SplitVpn(v);
    forall a, b | 0 <= a < NENTRIES && 0 <= b < NENTRIES
      ensures if Vpn(a, b) < v + 1 then Copy(m0.phys, At(m0.phys, d, a, b), m'.phys, At(m'.phys, d2, a, b))
              else At(m'.phys, d2, a, b) == KernelPte(kmap, |kmap|, Vpn(a, b))
    {
      if Vpn(a, b) < v {
        StillCopy(m0.phys, At(m0.phys, d, a, b), m.phys, owner1, m'.phys, owner', d2, a, b);
      }
    }
  }

  // Kernel rows map nothing below KERNBASE.
  lemma {:induction false} UserVacant(kmap: seq<Kmap>, k: nat, v: nat)
    requires KmapOk(kmap) && k <= |kmap| && v < KERNPAGE
    ensures KernelPte(kmap, k, v) == NotPresent
  {
    if k > 0 { UserVacant(kmap, k - 1, v); }
  }

  // Freeing a page in hand leaves a new directory as it is.
  lemma StartedHeld(m0: Ram, owner: Owners, m: Ram, owner1: Owners, mh: Ram, m': Ram, owner': Owners, d: Page, p: Page)
    requires Uses(m0.phys, owner) && Started(m0, owner, m, owner1, d) && Is(owner1, p, Free) && Inv(m', owner')
    requires SameView(m.phys, mh.phys, owner1) && SameView(mh.phys, m'.phys, owner1[p := Held])
             && owner' == owner1[p := Held][p := Free]
    requires forall q :: q in m.phys && q != p ==> q in m'.phys && m'.phys[q] == m.phys[q]
    ensures owner' == owner1 && Started(m0, owner, m', owner1, d)
  {
    assert owner' == owner1;
    forall e, a, b | Is(owner, e, Dir) && 0 <= a < NENTRIES && 0 <= b < NENTRIES
      ensures At(m'.phys, e, a, b) == At(m0.phys, e, a, b) {
      assert Is(owner1, e, Dir) && Is(owner1[p := Held], e, Dir);
    }
    forall q | q in owner && q in owner1 && Keeps(owner[q], owner1[q], q, d)
      ensures q in m0.phys && q in m'.phys && m'.phys[q] == m0.phys[q] { }
  }

  // One turn of copyuvm's loop. When memory runs out, everything taken so far is given back.
  method CopyPage(m1: Ram, d: Page, d2: Page, v: nat, ghost kmap: seq<Kmap>, ghost m0: Ram, ghost owner: Owners,
                  ghost owner1: Owners)
    returns (m: Ram, ok: bool, ghost owner': Owners)
    requires Uses(m0.phys, owner) && Is(owner, d, Dir) && KmapOk(kmap) && v < KERNPAGE
             && At(m0.phys, d, v / NENTRIES, v % NENTRIES).Mapped?
    requires Started(m0, owner, m1, owner1, d2) && Copied(m0.phys, m1.phys, d, d2, v, kmap)
    ensures ok ==>
              Started(m0, owner, m, owner', d2) && Copied(m0.phys, m.phys, d, d2, v + 1, kmap)
                  && Took(m1, m, d2, 1, v / NENTRIES)
    ensures !ok ==> owner' == owner && Inv(m, owner) && AsBefore(m0, owner, m) && Short(m1, d2, 1, v / NENTRIES)
  {
    SplitVpn(v);
    var pte, data, s;
    pte, data := ReadPte(m1, d, v, owner1);
    SourceKept(m0, owner, m1, owner1, d, d2, v, pte, data);
    UserVacant(kmap, |kmap|, v);
    m, s, owner' := AddPage(m1, d2, v, data, pte.perm, owner1);
    ok := s.Added?;
    if ok {
      StartedAdd(m0, owner, m1, owner1, m, owner', d2, v, Mapped(s.page, pte.perm));
      CopiedNext(m0, m1, owner1, m, owner', d, d2, v, s.page, kmap);
    } else {
      m, owner' := GiveUp(m, s, d2, m0, owner, m1, owner1, owner', data);
    }
  }

  lemma SourceKept(m0: Ram, owner: Owners, m: Ram, owner1: Owners, d: Page, d2: Page, v: nat, pte: Pte, data: nat)
    requires Uses(m0.phys, owner) && Is(owner, d, Dir) && v < KERNPAGE && Started(m0, owner, m, owner1, d2)
    requires pte == At(m.phys, d, v / NENTRIES, v % NENTRIES) && pte.Mapped? && pte.frame in m.phys
             && m.phys[pte.frame] == Raw(data)
    ensures pte == At(m0.phys, d, v / NENTRIES, v % NENTRIES) && pte.frame in m0.phys && m0.phys[pte.frame] == Raw(data)
  {
    SplitVpn(v);
    DirOf(m0.phys, owner, d);
    TableAt(m0.phys, owner, d, v / NENTRIES);
    assert Keeps(owner[pte.frame], owner1[pte.frame], pte.frame, d2);
  }

  // copyuvm's failure exit: the page in hand, if any, and the new directory are freed.
  method GiveUp(mh: Ram, s: Step, d2: Page, ghost m0: Ram, ghost owner: Owners, ghost m1: Ram, ghost owner1: Owners,
                ghost ownerh: Owners, ghost data: nat)
    returns (m: Ram, ghost owner': Owners)
    requires Uses(m0.phys, owner) && Started(m0, owner, m1, owner1, d2) && !s.Added? && Inv(mh, ownerh)
    requires s.NoPage? ==> mh == m1 && ownerh == owner1
    requires s.NoTable? ==>
               Is(owner1, s.held, Free) && ownerh == owner1[s.held := Held] && mh.phys == m1.phys[s.held := Raw(data)]
                   && SameView(m1.phys, mh.phys, owner1)
    ensures owner' == owner && Inv(m, owner) && AsBefore(m0, owner, m)
  {
    m, owner' := mh, ownerh;
    if s.NoTable? {
      m, owner' := Kfree(m, s.held, owner');
      StartedHeld(m0, owner, m1, owner1, mh, m, owner', d2, s.held);
    }
    m, owner' := DropNew(m, d2, m0, owner, owner');
  }

  method Copyuvm(m0: Ram, d: Page, sz: nat, kmap: seq<Kmap>, ghost owner: Owners)
    returns (m: Ram, r: Option<Page>, ghost owner': Owners)
    requires Inv(m0, owner) && Is(owner, d, Dir) && KmapOk(kmap) && sz <= KERNBASE && AllMapped(m0.phys, d, Up(sz))
    ensures r.None? ==> owner' == owner && Inv(m, owner) && AsBefore(m0, owner, m)
    ensures r.Some? ==> Started(m0, owner, m, owner', r.value) && Copied(m0.phys, m.phys, d, r.value, Up(sz), kmap)
    // It fails exactly when the free list is too short for the directory, its page tables and the copies.
    ensures r.None? <==> |m0.free| < ForkCost(kmap, Up(sz))
    ensures r.Some? ==> |m.free| == |m0.free| - ForkCost(kmap, Up(sz))
  {
    m, r, owner' := Setupkvm(m0, kmap, owner);
    if r.None? { return; }
    var ok;
    m, ok, owner' := CopyAll(m, d, r.value, sz, kmap, m0, owner, owner');
    if !ok { r := None; }
  }

  // The pages a child of n pages takes: its directory, its page tables and the copies.
  ghost function ForkCost(kmap: seq<Kmap>, n: nat): nat {
    1 + KernelTables(kmap, |kmap|) + n + Missing(KernelEntries(kmap, |kmap|), 0, n)
  }

  // CopyPage, with what has been taken off the free list since mk.
  method CopyTurn(m1: Ram, d: Page, d2: Page, v: nat, ghost n: nat, ghost kmap: seq<Kmap>, ghost mk: Ram,
                  ghost m0: Ram, ghost owner: Owners, ghost owner1: Owners)
    returns (m: Ram, v': nat, ok: bool, ghost owner': Owners)
    requires Uses(m0.phys, owner) && Is(owner, d, Dir) && KmapOk(kmap) && v < n <= KERNPAGE && AllMapped(m0.phys, d, n)
    requires Started(m0, owner, m1, owner1, d2) && Copied(m0.phys, m1.phys, d, d2, v, kmap)
             && Spent(mk, m1, d2, v, 0, v)
    ensures v' == v + 1
    ensures ok ==>
              Started(m0, owner, m, owner', d2) && Copied(m0.phys, m.phys, d, d2, v', kmap)
                  && Spent(mk, m, d2, v', 0, v')
    ensures !ok ==> owner' == owner && Inv(m, owner) && AsBefore(m0, owner, m) && Lacks(mk, d2, n, 0, n)
  {
    v' := v + 1;
    SplitVpn(v);
    m, ok, owner' := CopyPage(m1, d, d2, v, kmap, m0, owner, owner1);
    if ok {
      PageSpent(mk, m1, m, d2, 0, v, v', v, 1, v');
    } else {
      PageLacking(mk, m1, d2, 0, v, n, v, 1, n);
    }
  }

  // The loop of copyuvm.
  method CopyAll(mk: Ram, d: Page, d2: Page, sz: nat, ghost kmap: seq<Kmap>, ghost m0: Ram, ghost owner: Owners,
                 ghost ownerk: Owners)
    returns (m: Ram, ok: bool, ghost owner': Owners)
    requires Uses(m0.phys, owner) && Is(owner, d, Dir) && KmapOk(kmap) && sz <= KERNBASE
             && AllMapped(m0.phys, d, Up(sz))
    requires Started(m0, owner, mk, ownerk, d2) && KernelOnly(mk.phys, d2, kmap, |kmap|)
    ensures ok ==> Started(m0, owner, m, owner', d2) && Copied(m0.phys, m.phys, d, d2, Up(sz), kmap)
    ensures !ok ==> owner' == owner && Inv(m, owner) && AsBefore(m0, owner, m)
    ensures !ok <==> Lacks(mk, d2, Up(sz), 0, Up(sz))
    ensures ok ==> Spent(mk, m, d2, Up(sz), 0, Up(sz))
  {
    m, ok, owner' := mk, true, ownerk;
    var v := 0;
    SpentNothing(mk, d2, 0);
    while v * PGSIZE < sz
      invariant ok && v <= Up(sz) && Started(m0, owner, m, owner', d2) && Copied(m0.phys, m.phys, d, d2, v, kmap)
      invariant Spent(mk, m, d2, v, 0, v)
    {
      m, v, ok, owner' := CopyTurn(m, d, d2, v, Up(sz), kmap, mk, m0, owner, owner');
      if !ok { return; }
    }
    assert v == Up(sz);
    SpentEnough(mk, m, d2, Up(sz), 0, Up(sz));
  }

  // The machine's memory, which the calls above update.
  class Memory {
    const kmap: seq<Kmap>
    var ram: Ram
    ghost var owner: Owners

    constructor (kmap: seq<Kmap>, ram: Ram, ghost owner: Owners)
      requires KmapOk(kmap) && Inv(ram, owner)
      ensures Valid() && this.kmap == kmap && this.ram == ram && this.owner == owner
    {
      this.kmap, this.ram, this.owner := kmap, ram, owner;
    }

    // The pages of the machine each have one use; the set of pages never changes.
    ghost predicate Valid()
      reads this
    {
      KmapOk(kmap) && Inv(ram, owner)
    }

    method Store(ram': Ram, ghost owner': Owners)
      requires Valid() && Inv(ram', owner')
      modifies this
      ensures Valid() && ram == ram' && owner == owner'
    {
      ram, owner := ram', owner';
    }

    method Fork(d: Page, sz: nat) returns (r: Option<Page>)
      requires Valid() && Is(owner, d, Dir) && sz <= KERNBASE && AllMapped(ram.phys, d, Up(sz))
      modifies this
      ensures Valid() && owner.Keys == old(owner).Keys
      ensures r.None? ==> owner == old(owner) && AsBefore(old(ram), old(owner), ram)
      ensures r.Some? ==>
                Started(old(ram), old(owner), ram, owner, r.value)
                    && Copied(old(ram).phys, ram.phys, d, r.value, Up(sz), kmap)
      ensures r.None? <==> |old(ram).free| < ForkCost(kmap, Up(sz))
      ensures r.Some? ==> |ram.free| == |old(ram).free| - ForkCost(kmap, Up(sz))
    {
      var ram';
      ghost var owner';
      ram', r, owner' := Copyuvm(ram, d, sz, kmap, owner);
      Store(ram', owner');
    }

    method Grow(d: Page, oldsz: nat, newsz: nat) returns (r: nat, failed: bool)
      requires Valid() && Is(owner, d, Dir) && (newsz < KERNBASE ==> Vacant(ram.phys, d, Up(oldsz), Up(newsz)))
      modifies this
      ensures Valid() && owner.Keys == old(owner).Keys
      ensures newsz >= KERNBASE || oldsz > newsz ==> ram == old(ram) && owner == old(owner)
      ensures r == if failed then 0 else if oldsz > newsz then oldsz else newsz
      ensures newsz >= KERNBASE ==> failed
      ensures oldsz > newsz && newsz < KERNBASE ==> !failed
      ensures oldsz <= newsz < KERNBASE ==>
                (failed <==> Lacks(old(ram), d, Up(newsz) - Up(oldsz), Up(oldsz), Up(newsz)))
      ensures oldsz <= newsz < KERNBASE ==> if failed then Restored(old(ram), old(owner), ram, owner, d)
                                            else Grown(old(ram), old(owner), ram, owner, d, Up(oldsz), Up(newsz))
      ensures oldsz <= newsz < KERNBASE && !failed ==>
                Spent(old(ram), ram, d, Up(newsz) - Up(oldsz), Up(oldsz), Up(newsz))
    {
      var ram';
      ghost var owner';
      ram', r, failed, owner' := Allocuvm(ram, d, oldsz, newsz, owner);
      Store(ram', owner');
    }

    method Shrink(d: Page, oldsz: nat, newsz: nat) returns (r: nat)
      requires Valid() && Is(owner, d, Dir) && oldsz <= KERNBASE
      modifies this
      ensures Valid() && owner.Keys == old(owner).Keys
      ensures newsz >= oldsz ==> r == oldsz && ram == old(ram) && owner == old(owner)
      ensures newsz < oldsz ==> r == newsz && Unmapped(old(ram), old(owner), ram, owner, d, Up(newsz), Up(oldsz))
    {
      var ram';
      ghost var owner';
      ram', r, owner' := Deallocuvm(ram, d, oldsz, newsz, owner);
      Store(ram', owner');
    }

    method Release(d: Page)
      requires Valid() && Is(owner, d, Dir)
      modifies this
      ensures Valid() && owner.Keys == old(owner).Keys
      ensures owner == Freed(old(owner), d) && OthersKept(old(ram).phys, ram.phys, old(owner), d)
    {
      var ram';
      ghost var owner';
      ram', owner' := Freevm(ram, d, owner);
      Store(ram', owner');
    }
  }
}
