/** walkpgdir, mappages, allocuvm and deallocuvm of xv6-public/vm.c and the page allocator of kalloc.c.
    Virtual addresses are kept as page numbers; entry (i, j) of a directory is virtual page i * 1024 + j. */
module Vm {
  import opened Param
  import opened Pages
  import opened PageCount

  const PGSIZE := 4096
  const KERNBASE := 0x8000_0000
  const JUNK := 1
  const PTE_W := 2
  const PTE_U := 4

  // The number of pages that sz bytes take.
  function Up(sz: nat): (n: nat)
    ensures (n - 1) * PGSIZE < sz <= n * PGSIZE
  {
    (sz + PGSIZE - 1) / PGSIZE
  }

  function Vpn(i: nat, j: nat): nat { i * NENTRIES + j }

  lemma SplitVpn(v: nat)
    ensures v == Vpn(v / NENTRIES, v % NENTRIES)
    ensures forall i, j :: 0 <= i && 0 <= j < NENTRIES && Vpn(i, j) == v ==> i == v / NENTRIES && j == v % NENTRIES
    ensures v < USERDIRS * NENTRIES ==> v / NENTRIES < USERDIRS
  {
  }

  // Pages of d that hold its translation.
  predicate TableOf(p: Page, o: Owner, d: Page) {
    match o
    case Dir => p == d
    case Table(e, _) => e == d
    case Free => false
    case Held => false
    case User(_, _, _) => false
  }

  // The contents of every page whose use has not changed, tables of d aside, are as before.
  ghost predicate DataKept(phys: Phys, owner: Owners, phys': Phys, owner': Owners, d: Page) {
    forall p :: p in owner && p in owner' && Keeps(owner[p], owner'[p], p, d) ==>
        p in phys && p in phys' && phys'[p] == phys[p]
  }

  predicate Keeps(o: Owner, o': Owner, p: Page, d: Page) {
    o != Free && o' == o && !TableOf(p, o, d)
  }

  // No page lost its use, and free pages went to directory d only.
  ghost predicate OnlyGrew(owner: Owners, owner': Owners, d: Page) {
    && owner'.Keys == owner.Keys
    && forall p :: p in owner ==>
         if owner[p] != Free then owner'[p] == owner[p] else owner'[p] == Free || Belongs(p, owner'[p], d)
  }

  lemma KeptTwice(phys: Phys, owner: Owners, phys1: Phys, owner1: Owners, phys2: Phys, owner2: Owners, d: Page)
    requires OnlyGrew(owner, owner1, d) && OnlyGrew(owner1, owner2, d) && phys1.Keys == owner.Keys
    requires DataKept(phys, owner, phys1, owner1, d) && DataKept(phys1, owner1, phys2, owner2, d)
    ensures OnlyGrew(owner, owner2, d) && DataKept(phys, owner, phys2, owner2, d)
  {
  }

  method Kalloc(m0: Ram, ghost owner: Owners) returns (m: Ram, p: Option<Page>, ghost owner': Owners)
    requires Inv(m0, owner)
    ensures p.None? ==> m0.free == [] && m == m0 && owner' == owner
    ensures p.Some? ==>
              Is(owner, p.value, Free) && owner' == owner[p.value := Held] && Inv(m, owner') && m.phys == m0.phys
    ensures p.Some? ==> |m.free| == |m0.free| - 1 && m0.free == [p.value] + m.free
  {
    m, p, owner' := m0, None, owner;
    if m.free != [] {
      p := Some(m.free[0]);
      m := m.(free := m.free[1..]);
      owner' := owner[p.value := Held];
      Take(m0.free, owner);
      Relabel(m0.phys, owner, p.value, Held, m0.phys[p.value], m.phys, owner');
    }
  }

  // kfree fills the page with junk.
  method Kfree(m0: Ram, p: Page, ghost owner: Owners) returns (m: Ram, ghost owner': Owners)
    requires Inv(m0, owner) && Is(owner, p, Held)
    ensures owner' == owner[p := Free] && Inv(m, owner') && m == Ram([p] + m0.free, m0.phys[p := Raw(JUNK)])
    ensures SameView(m0.phys, m.phys, owner)
  {
    m, owner' := Ram([p] + m0.free, m0.phys[p := Raw(JUNK)]), owner[p := Free];
    Give(m0.free, owner, p);
    Relabel(m0.phys, owner, p, Free, Raw(JUNK), m.phys, owner');
  }

  lemma DirOf(phys: Phys, owner: Owners, d: Page)
    requires Uses(phys, owner) && Is(owner, d, Dir)
    ensures DirOk(d, phys, owner)
  {
    assert Ok(d, owner[d], phys, owner);
  }

  lemma TableAt(phys: Phys, owner: Owners, d: Page, i: nat)
    requires Uses(phys, owner) && Is(owner, d, Dir) && i < NENTRIES && DirOk(d, phys, owner) && phys[d].pdes[i].Present?
    ensures var t := phys[d].pdes[i].table; Is(owner, t, Table(d, i)) && TableOk(t, d, i, phys, owner)
    ensures forall j :: 0 <= j < NENTRIES ==> At(phys, d, i, j) == phys[phys[d].pdes[i].table].ptes[j]
  {
    assert Ok(phys[d].pdes[i].table, owner[phys[d].pdes[i].table], phys, owner);
  }

  // An empty page table for entry i, if a page is free.
  method AddTable(m0: Ram, d: Page, i: nat, ghost owner: Owners) returns (m: Ram, t: Option<Page>, ghost owner': Owners)
    requires Inv(m0, owner) && Is(owner, d, Dir) && i < NENTRIES && DirOk(d, m0.phys, owner)
             && m0.phys[d].pdes[i].Absent?
    ensures Inv(m, owner') && SameView(m0.phys, m.phys, owner) && OnlyGrew(owner, owner', d)
            && DataKept(m0.phys, owner, m.phys, owner', d)
    ensures t.None? ==> m == m0 && owner' == owner && m0.free == []
    ensures t.Some? ==> Is(owner', d, Dir) && HasTable(m.phys, d, i, t.value) && Took(m0, m, d, 0, i)
  {
    m, t, owner' := Kalloc(m0, owner);
    if t.Some? {
      ghost var owner1 := owner';
      m := m.(phys := m.phys[t.value := EmptyTable]);
      m := m.(phys := m.phys[d := Directory(m.phys[d].pdes[i := Present(t.value)])]);
      owner' := owner'[t.value := Table(d, i)];
      DirOf(m0.phys, owner1, d);
      NewTable(m0.phys, owner1, d, i, t.value, m.phys, owner');
      KeepFree(m.free, owner1, t.value, Table(d, i));
      TableAdded(m0, m, d, i, t.value);
    }
  }

  // walkpgdir up to the page table of entry i; None when there is none and none may or can be added.
  method Walkpgdir(m0: Ram, d: Page, i: nat, alloc: bool, ghost owner: Owners)
    returns (m: Ram, t: Option<Page>, ghost owner': Owners)
    requires Inv(m0, owner) && Is(owner, d, Dir) && i < NENTRIES
    ensures Inv(m, owner') && SameView(m0.phys, m.phys, owner) && OnlyGrew(owner, owner', d)
            && DataKept(m0.phys, owner, m.phys, owner', d)
    ensures t.None? ==>
              m == m0 && owner' == owner && (!alloc || m0.free == []) && !exists p :: HasTable(m0.phys, d, i, p)
    ensures t.Some? ==> Is(owner', d, Dir) && Is(owner', t.value, Table(d, i)) && TableOk(t.value, d, i, m.phys, owner')
    ensures t.Some? ==> forall j :: 0 <= j < NENTRIES ==> At(m.phys, d, i, j) == m.phys[t.value].ptes[j]
    ensures !alloc ==> m == m0 && owner' == owner
    ensures if t.Some? then Took(m0, m, d, 0, i) else i !in Tables(m0.phys, d)
  {
    m, owner', t := m0, owner, None;
    DirOf(m.phys, owner, d);
    if m.phys[d].pdes[i].Present? {
      t := Some(m.phys[d].pdes[i].table);
      TablePresent(m, d, i);
    } else if alloc {
      m, t, owner' := AddTable(m, d, i, owner');
    }
    if t.Some? {
      DirOf(m.phys, owner', d);
      TableAt(m.phys, owner', d, i);
    }
  }

  datatype Step = NoPage | NoTable(held: Page) | Added(page: Page)

  // kalloc and memset or memmove.
  method NewPage(m0: Ram, data: nat, ghost owner: Owners) returns (m: Ram, p: Option<Page>, ghost owner': Owners)
    requires Inv(m0, owner)
    ensures p.None? ==> m == m0 && owner' == owner && m0.free == []
    ensures p.Some? ==>
              Is(owner, p.value, Free) && owner' == owner[p.value := Held] && Inv(m, owner')
                  && |m.free| == |m0.free| - 1
                        && m.phys == m0.phys[p.value := Raw(data)] && SameView(m0.phys, m.phys, owner)
  {
    m, p, owner' := Kalloc(m0, owner);
    if p.Some? {
      m := m.(phys := m.phys[p.value := Raw(data)]);
      Relabel(m0.phys, owner', p.value, Held, Raw(data), m.phys, owner');
    }
  }

  // mappages of the one held page p at entry (i, j) of the user part of d.
  method MapHeld(m0: Ram, d: Page, i: nat, j: nat, p: Page, perm: nat, ghost owner: Owners)
    returns (m: Ram, ok: bool, ghost owner': Owners)
    requires Inv(m0, owner) && Is(owner, d, Dir) && i < USERDIRS && j < NENTRIES && At(m0.phys, d, i, j) == NotPresent
    requires Is(owner, p, Held) && p in m0.phys && m0.phys[p].Raw?
    ensures !ok ==> m == m0 && owner' == owner && m0.free == [] && i !in Tables(m0.phys, d)
    ensures ok ==> Inv(m, owner') && ViewBut(m0.phys, m.phys, owner, d, i, j, Mapped(p, perm)) && Took(m0, m, d, 0, i)
    ensures ok ==>
              OnlyGrew(owner[p := Free], owner', d) && DataKept(m0.phys, owner, m.phys, owner', d) && p in m.phys
                  && m.phys[p] == m0.phys[p]
  {
    var t;
    m, t, owner' := Walkpgdir(m0, d, i, true, owner);
    ok := t.Some?;
    if ok {
      ghost var m1, owner1 := m, owner';
      m := m.(phys := m.phys[t.value := PageTable(m.phys[t.value].ptes[j := Mapped(p, perm)])]);
      owner' := owner'[p := User(d, i, j)];
      MapUser(m1.phys, owner1, d, i, j, t.value, p, perm, m.phys, owner');
      KeepFree(m.free, owner1, p, User(d, i, j));
      MapKept(m0.phys, owner, m1.phys, owner1, m.phys, owner', d, i, j, t.value, p, Mapped(p, perm));
      SameTables(m0, m1, m, d, 0, i);
    }
  }

  lemma MapKept(phys: Phys, owner: Owners, phys1: Phys, owner1: Owners, phys2: Phys, owner2: Owners, d: Page, i: nat,
                j: nat, t: Page, p: Page, pte: Pte)
    requires Is(owner, p, Held) && Is(owner1, t, Table(d, i)) && owner.Keys == phys.Keys
    requires OnlyGrew(owner, owner1, d) && DataKept(phys, owner, phys1, owner1, d) && SameView(phys, phys1, owner)
    requires owner2 == owner1[p := User(d, i, j)] && ViewBut(phys1, phys2, owner1, d, i, j, pte)
    requires forall q :: q in phys1 && q != t ==> q in phys2 && phys2[q] == phys1[q]
    ensures OnlyGrew(owner[p := Free], owner2, d) && DataKept(phys, owner, phys2, owner2, d)
            && ViewBut(phys, phys2, owner, d, i, j, pte)
    ensures p in phys2 && phys2[p] == phys[p]
  {
    assert Keeps(owner[p], owner1[p], p, d);
    forall e, a, b | Is(owner, e, Dir) && 0 <= a < NENTRIES && 0 <= b < NENTRIES
      ensures At(phys2, e, a, b) == if e == d && a == i && b == j then pte else At(phys, e, a, b)
    {
      assert Is(owner1, e, Dir);
    }
    forall q | q in owner && q in owner2 && Keeps(owner[q], owner2[q], q, d)
      ensures q in phys && q in phys2 && phys2[q] == phys[q] {
      assert Keeps(owner[q], owner1[q], q, d);
    }
  }

  // Allocate a page, fill it, and map it at virtual page v of the user part of d.
  method AddPage(m0: Ram, d: Page, v: nat, data: nat, perm: nat, ghost owner: Owners)
    returns (m: Ram, s: Step, ghost owner': Owners)
    requires Inv(m0, owner) && Is(owner, d, Dir) && v < USERDIRS * NENTRIES
    requires At(m0.phys, d, v / NENTRIES, v % NENTRIES) == NotPresent
    ensures Inv(m, owner')
    ensures s.NoPage? ==> m == m0 && owner' == owner
    ensures s.NoTable? ==>
              Is(owner, s.held, Free) && owner' == owner[s.held := Held] && m.phys == m0.phys[s.held := Raw(data)]
                           && SameView(m0.phys, m.phys, owner)
    ensures s.Added? ==> OnlyGrew(owner, owner', d) && DataKept(m0.phys, owner, m.phys, owner', d)
                         && ViewBut(m0.phys, m.phys, owner, d, v / NENTRIES, v % NENTRIES, Mapped(s.page, perm))
                         && s.page in m.phys && m.phys[s.page] == Raw(data)
    ensures if s.Added? then Took(m0, m, d, 1, v / NENTRIES) else Short(m0, d, 1, v / NENTRIES)
  {
    SplitVpn(v);
    var i, j := v / NENTRIES, v % NENTRIES;
    var p, ok;
    m, p, owner' := NewPage(m0, data, owner);
    if p.None? { return m, NoPage, owner'; }
    ghost var m1, owner1 := m, owner';
    DirOf(m0.phys, owner, d);
    m, ok, owner' := MapHeld(m, d, i, j, p.value, perm, owner');
    if !ok {
      PageNoTable(m0, m1, d, i);
      return m, NoTable(p.value), owner';
    }
    s := Added(p.value);
    PageThenTable(m0, m1, m, d, i);
    PageAdded(m0.phys, owner, m1.phys, owner1, m.phys, owner', d, i, j, p.value, Mapped(p.value, perm));
  }

  lemma PageAdded(phys: Phys, owner: Owners, phys1: Phys, owner1: Owners, phys2: Phys, owner2: Owners, d: Page, i: nat,
                  j: nat, p: Page, pte: Pte)
    requires Is(owner, p, Free) && owner1 == owner[p := Held] && phys.Keys == owner.Keys
             && SameView(phys, phys1, owner) && Is(owner, d, Dir)
    requires (forall q :: q in phys && q != p ==> q in phys1 && phys1[q] == phys[q])
    requires OnlyGrew(owner1[p := Free], owner2, d) && DataKept(phys1, owner1, phys2, owner2, d)
             && ViewBut(phys1, phys2, owner1, d, i, j, pte)
    ensures OnlyGrew(owner, owner2, d) && DataKept(phys, owner, phys2, owner2, d)
            && ViewBut(phys, phys2, owner, d, i, j, pte)
  {
    assert owner1[p := Free] == owner;
    PageSeen(phys, owner, phys1, owner1, phys2, d, i, j, p, pte);
  }

  lemma PageSeen(phys: Phys, owner: Owners, phys1: Phys, owner1: Owners, phys2: Phys, d: Page, i: nat, j: nat, p: Page,
                 pte: Pte)
    requires Is(owner, p, Free) && owner1 == owner[p := Held] && SameView(phys, phys1, owner)
             && ViewBut(phys1, phys2, owner1, d, i, j, pte)
    ensures ViewBut(phys, phys2, owner, d, i, j, pte)
  {
    forall e, a, b | Is(owner, e, Dir) && 0 <= a < NENTRIES && 0 <= b < NENTRIES
      ensures At(phys2, e, a, b) == if e == d && a == i && b == j then pte else At(phys, e, a, b)
    {
      assert Is(owner1, e, Dir);
    }
  }

  // Exactly virtual pages lo .. hi - 1 of d are unmapped.
  ghost predicate Cleared(phys: Phys, phys': Phys, owner: Owners, d: Page, lo: nat, hi: nat) {
    forall e, a, b :: Is(owner, e, Dir) && 0 <= a < NENTRIES && 0 <= b < NENTRIES ==>
      At(phys', e, a, b) == if e == d && lo <= Vpn(a, b) < hi then NotPresent else At(phys, e, a, b)
  }

  predicate MappedIn(o: Owner, d: Page, lo: nat, hi: nat) {
    o.User? && o.d == d && lo <= Vpn(o.i, o.j) < hi
  }

  // Exactly the pages mapped there became free.
  ghost function Shrunk(owner: Owners, d: Page, lo: nat, hi: nat): Owners {
    map p | p in owner :: if MappedIn(owner[p], d, lo, hi) then Free else owner[p]
  }

  lemma ShrunkNone(phys: Phys, owner: Owners, d: Page, lo: nat, hi: nat)
    requires Uses(phys, owner) && forall a, b :: 0 <= a < NENTRIES && 0 <= b < NENTRIES && lo <= Vpn(a, b) < hi ==>
               At(phys, d, a, b) == NotPresent
    ensures Shrunk(owner, d, lo, hi) == owner
  {
    forall p | p in owner ensures !MappedIn(owner[p], d, lo, hi) {
      assert Ok(p, owner[p], phys, owner);
    }
  }

  lemma ShrunkOne(phys: Phys, owner: Owners, d: Page, v: nat, p: Page)
    requires Uses(phys, owner) && Is(owner, p, User(d, v / NENTRIES, v % NENTRIES))
    ensures Shrunk(owner, d, v, v + 1) == owner[p := Free]
  {
    SplitVpn(v);
    forall q | q in owner && MappedIn(owner[q], d, v, v + 1) ensures q == p {
      assert Ok(q, owner[q], phys, owner);
      assert Ok(p, owner[p], phys, owner);
    }
  }

  lemma ShrunkTwice(owner: Owners, d: Page, lo: nat, v: nat, hi: nat)
    requires lo <= v <= hi
    ensures Shrunk(Shrunk(owner, d, lo, v), d, v, hi) == Shrunk(owner, d, lo, hi)
  {
  }

  // One turn of deallocuvm's loop. skip: there is no page table for v's directory entry.
  method ClearPage(m0: Ram, d: Page, v: nat, ghost owner: Owners) returns (m: Ram, skip: bool, ghost owner': Owners)
    requires Inv(m0, owner) && Is(owner, d, Dir) && v < USERDIRS * NENTRIES
    ensures skip ==>
              m == m0 && owner' == owner && forall b :: 0 <= b < NENTRIES ==>
                  At(m0.phys, d, v / NENTRIES, b) == NotPresent
    ensures !skip ==>
              Inv(m, owner') && owner' == Shrunk(owner, d, v, v + 1) && DataKept(m0.phys, owner, m.phys, owner', d)
                      && ViewBut(m0.phys, m.phys, owner, d, v / NENTRIES, v % NENTRIES, NotPresent)
  {
    SplitVpn(v);
    var i, j := v / NENTRIES, v % NENTRIES;
    var t;
    m, t, owner' := Walkpgdir(m0, d, i, false, owner);
    skip := t.None?;
    if !skip {
      var pte := m.phys[t.value].ptes[j];
      if pte.Mapped? {
        m, owner' := UnmapPage(m, d, i, j, t.value, pte.frame, owner);
        ShrunkOne(m0.phys, owner, d, v, pte.frame);
      } else {
        forall a, b | 0 <= a < NENTRIES && 0 <= b < NENTRIES && v <= Vpn(a, b) < v + 1
          ensures At(m0.phys, d, a, b) == NotPresent { }
        ShrunkNone(m0.phys, owner, d, v, v + 1);
      }
    }
  }

  // The entry is cleared and the page freed; the two writes are independent of each other.
  method UnmapPage(m0: Ram, d: Page, i: nat, j: nat, t: Page, p: Page, ghost owner: Owners)
    returns (m: Ram, ghost owner': Owners)
    requires Inv(m0, owner) && Is(owner, t, Table(d, i)) && i < USERDIRS && j < NENTRIES
             && TableOk(t, d, i, m0.phys, owner)
    requires m0.phys[t].ptes[j].Mapped? && m0.phys[t].ptes[j].frame == p
    ensures Is(owner, p, User(d, i, j)) && owner' == owner[p := Free] && Inv(m, owner')
            && DataKept(m0.phys, owner, m.phys, owner', d)
    ensures ViewBut(m0.phys, m.phys, owner, d, i, j, NotPresent)
  {
    m := m0.(phys := m0.phys[t := PageTable(m0.phys[t].ptes[j := NotPresent])]);
    owner' := owner[p := Held];
    Unmap(m0.phys, owner, d, i, j, t, p, m.phys, owner');
    KeepFree(m.free, owner, p, Held);
    ghost var m1, owner1 := m, owner';
    m, owner' := Kfree(m, p, owner');
    UnmapKept(m0.phys, owner, m1.phys, owner1, m.phys, owner', d, i, j, t, p);
  }

  lemma UnmapKept(phys: Phys, owner: Owners, phys1: Phys, owner1: Owners, phys2: Phys, owner2: Owners, d: Page, i: nat,
                  j: nat, t: Page, p: Page)
    requires Is(owner, p, User(d, i, j)) && Is(owner, t, Table(d, i)) && owner.Keys == phys.Keys
    requires owner1 == owner[p := Held] && owner2 == owner1[p := Free]
    requires (forall q :: q in phys && q != t ==> q in phys1 && phys1[q] == phys[q]) && phys2 == phys1[p := Raw(JUNK)]
    requires ViewBut(phys, phys1, owner, d, i, j, NotPresent) && SameView(phys1, phys2, owner1)
    ensures owner2 == owner[p := Free] && DataKept(phys, owner, phys2, owner2, d)
            && ViewBut(phys, phys2, owner, d, i, j, NotPresent)
  {
    forall e, a, b | Is(owner, e, Dir) && 0 <= a < NENTRIES && 0 <= b < NENTRIES
      ensures At(phys2, e, a, b) == if e == d && a == i && b == j then NotPresent else At(phys, e, a, b)
    {
      assert Is(owner1, e, Dir);
    }
  }

  // deallocuvm has reached virtual page v.
  ghost predicate Unmapped(m0: Ram, owner: Owners, m: Ram, owner': Owners, d: Page, lo: nat, v: nat) {
    && Inv(m, owner') && owner' == Shrunk(owner, d, lo, v)
    && Cleared(m0.phys, m.phys, owner, d, lo, v) && DataKept(m0.phys, owner, m.phys, owner', d)
  }

  lemma UnmappedNext(m0: Ram, owner: Owners, m: Ram, owner1: Owners, m': Ram, owner': Owners, d: Page, lo: nat, v: nat)
    requires Uses(m0.phys, owner) && Unmapped(m0, owner, m, owner1, d, lo, v) && lo <= v && Inv(m', owner')
    requires owner' == Shrunk(owner1, d, v, v + 1) && DataKept(m.phys, owner1, m'.phys, owner', d)
    requires ViewBut(m.phys, m'.phys, owner1, d, v / NENTRIES, v % NENTRIES, NotPresent)
    ensures Unmapped(m0, owner, m', owner', d, lo, v + 1)
  {
    ShrunkTwice(owner, d, lo, v, v + 1);
    SplitVpn(v);
    forall e, a, b | Is(owner, e, Dir) && 0 <= a < NENTRIES && 0 <= b < NENTRIES
      ensures At(m'.phys, e, a, b) == if e == d && lo <= Vpn(a, b) < v + 1 then NotPresent else At(m0.phys, e, a, b)
    {
      assert Is(owner1, e, Dir);
    }
  }

  // A missing page table is as good as a page-by-page removal up to the next directory entry.
  lemma UnmappedSkip(m0: Ram, owner: Owners, m: Ram, owner1: Owners, d: Page, lo: nat, v: nat, v': nat)
    requires Unmapped(m0, owner, m, owner1, d, lo, v) && lo <= v <= v' <= (v / NENTRIES + 1) * NENTRIES
    requires forall b :: 0 <= b < NENTRIES ==> At(m.phys, d, v / NENTRIES, b) == NotPresent
    ensures Unmapped(m0, owner, m, owner1, d, lo, v')
  {
    forall a, b | 0 <= a < NENTRIES && 0 <= b < NENTRIES && v <= Vpn(a, b) < v'
      ensures a == v / NENTRIES && At(m.phys, d, a, b) == NotPresent { }
    ShrunkNone(m.phys, owner1, d, v, v');
    ShrunkTwice(owner, d, lo, v, v');
    forall e, a, b | Is(owner, e, Dir) && 0 <= a < NENTRIES && 0 <= b < NENTRIES
      ensures At(m.phys, e, a, b) == if e == d && lo <= Vpn(a, b) < v' then NotPresent else At(m0.phys, e, a, b)
    {
      assert e == d && v <= Vpn(a, b) < v' ==> At(m.phys, e, a, b) == NotPresent;
    }
  }

  // One turn of the loop; v' is the new v, and c' what it has reached of hi.
  method ClearNext(m1: Ram, d: Page, v: nat, ghost hi: nat, ghost m0: Ram, ghost owner: Owners, ghost owner1: Owners,
                   ghost lo: nat)
    returns (m: Ram, v': nat, ghost c': nat, ghost owner': Owners)
    requires Uses(m0.phys, owner) && lo <= v < hi <= USERDIRS * NENTRIES && Is(owner1, d, Dir)
             && Unmapped(m0, owner, m1, owner1, d, lo, v)
    ensures v < v' && c' == (if v' < hi then v' else hi) && Is(owner', d, Dir)
            && Unmapped(m0, owner, m, owner', d, lo, c')
  {
    var skip;
    m, skip, owner' := ClearPage(m1, d, v, owner1);
    v' := v;
    if skip {
      v' := (v / NENTRIES + 1) * NENTRIES - 1;
      c' := if v' + 1 < hi then v' + 1 else hi;
      UnmappedSkip(m0, owner, m, owner', d, lo, v, c');
    } else {
      c' := v + 1;
      UnmappedNext(m0, owner, m1, owner1, m, owner', d, lo, v);
    }
    v' := v' + 1;
  }

  method Deallocuvm(m0: Ram, d: Page, oldsz: nat, newsz: nat, ghost owner: Owners)
    returns (m: Ram, r: nat, ghost owner': Owners)
    requires Inv(m0, owner) && Is(owner, d, Dir) && oldsz <= KERNBASE
    ensures Inv(m, owner') && Is(owner', d, Dir)
    ensures newsz >= oldsz ==> r == oldsz && m == m0 && owner' == owner
    ensures newsz < oldsz ==> r == newsz && Unmapped(m0, owner, m, owner', d, Up(newsz), Up(oldsz))
  {
    m, owner' := m0, owner;
    if newsz >= oldsz { return m, oldsz, owner'; }
    var v := Up(newsz);
    ghost var lo, hi := Up(newsz), Up(oldsz);
    ghost var c := lo;
    assert Shrunk(owner, d, lo, lo) == owner;
    while v * PGSIZE < oldsz
      invariant lo <= v && c == (if v < hi then v else hi) && Is(owner', d, Dir)
                && Unmapped(m0, owner, m, owner', d, lo, c)
    {
      m, v, c, owner' := ClearNext(m, d, v, hi, m0, owner, owner', lo);
    }
    r := newsz;
  }

  // A writable user page of zeros.
  ghost predicate ZeroPage(phys: Phys, pte: Pte) {
    pte.Mapped? && pte.perm == PTE_W + PTE_U && pte.frame in phys && phys[pte.frame] == Raw(0)
  }

  // Virtual pages lo .. hi - 1 of d are new and zero, and nothing else is mapped differently.
  ghost predicate Extended(phys: Phys, phys': Phys, owner: Owners, d: Page, lo: nat, hi: nat) {
    forall e, a, b :: Is(owner, e, Dir) && 0 <= a < NENTRIES && 0 <= b < NENTRIES ==>
      if e == d && lo <= Vpn(a, b) < hi then ZeroPage(phys', At(phys', e, a, b))
          else At(phys', e, a, b) == At(phys, e, a, b)
  }

  // allocuvm has reached virtual page v.
  ghost predicate Grown(m0: Ram, owner: Owners, m: Ram, owner': Owners, d: Page, lo: nat, v: nat) {
    && Inv(m, owner') && OnlyGrew(owner, owner', d)
    && Extended(m0.phys, m.phys, owner, d, lo, v) && DataKept(m0.phys, owner, m.phys, owner', d)
  }

  lemma StillZero(phys: Phys, owner: Owners, phys': Phys, owner': Owners, d: Page, a: nat, b: nat)
    requires Uses(phys, owner) && OnlyGrew(owner, owner', d) && DataKept(phys, owner, phys', owner', d)
             && Is(owner, d, Dir)
    requires a < USERDIRS && b < NENTRIES && ZeroPage(phys, At(phys, d, a, b))
    ensures ZeroPage(phys', At(phys, d, a, b))
  {
    DirOf(phys, owner, d);
    TableAt(phys, owner, d, a);
  }

  lemma GrownNext(m0: Ram, owner: Owners, m: Ram, owner1: Owners, m': Ram, owner': Owners, d: Page, lo: nat, v: nat,
                  p: Page)
    requires Uses(m0.phys, owner) && Is(owner, d, Dir) && Grown(m0, owner, m, owner1, d, lo, v)
             && lo <= v < USERDIRS * NENTRIES && Inv(m', owner')
    requires OnlyGrew(owner1, owner', d) && DataKept(m.phys, owner1, m'.phys, owner', d)
    requires ViewBut(m.phys, m'.phys, owner1, d, v / NENTRIES, v % NENTRIES, Mapped(p, PTE_W + PTE_U)) && p in m'.phys
             && m'.phys[p] == Raw(0)
    ensures Grown(m0, owner, m', owner', d, lo, v + 1)
  {
    KeptTwice(m0.phys, owner, m.phys, owner1, m'.phys, owner', d);
    SplitVpn(v);
    forall e, a, b | Is(owner, e, Dir) && 0 <= a < NENTRIES && 0 <= b < NENTRIES
      ensures if e == d && lo <= Vpn(a, b) < v + 1 then ZeroPage(m'.phys, At(m'.phys, e, a, b))
                else At(m'.phys, e, a, b) == At(m0.phys, e, a, b)
    {
      assert Is(owner1, e, Dir);
      if e == d && lo <= Vpn(a, b) < v {
        StillZero(m.phys, owner1, m'.phys, owner', d, a, b);
      }
    }
  }

  // The pages of the range were not mapped before.
  ghost predicate Vacant(phys: Phys, d: Page, lo: nat, hi: nat) {
    forall a, b :: 0 <= a < NENTRIES && 0 <= b < NENTRIES && lo <= Vpn(a, b) < hi ==> At(phys, d, a, b) == NotPresent
  }

  // Nothing is mapped differently from before; free pages may have become page tables of d.
  ghost predicate Restored(m0: Ram, owner: Owners, m: Ram, owner': Owners, d: Page) {
    Inv(m, owner') && SameView(m0.phys, m.phys, owner) && OnlyGrew(owner, owner', d)
        && DataKept(m0.phys, owner, m.phys, owner', d)
  }

  // deallocuvm after a partial allocuvm.
  lemma Undone(m0: Ram, owner: Owners, m1: Ram, owner1: Owners, m2: Ram, owner2: Owners, d: Page, lo: nat, v: nat,
               hi: nat)
    requires Uses(m0.phys, owner) && Is(owner, d, Dir) && v <= hi && Vacant(m0.phys, d, lo, hi)
    requires Grown(m0, owner, m1, owner1, d, lo, v) && Unmapped(m1, owner1, m2, owner2, d, lo, hi)
    ensures Restored(m0, owner, m2, owner2, d)
  {
    forall e, a, b | Is(owner, e, Dir) && 0 <= a < NENTRIES && 0 <= b < NENTRIES
      ensures At(m2.phys, e, a, b) == At(m0.phys, e, a, b) {
      assert Is(owner1, e, Dir);
    }
    forall p | p in owner
      ensures if owner[p] != Free then owner2[p] == owner[p] else owner2[p] == Free || Belongs(p, owner2[p], d) {
      assert Ok(p, owner[p], m0.phys, owner);
    }
  }

  // The same when a page p was in hand and is freed last.
  lemma UndoneHeld(m0: Ram, owner: Owners, m1: Ram, owner1: Owners, mh: Ram, ownerh: Owners, m2: Ram, owner2: Owners,
                   m3: Ram, owner3: Owners,
                   d: Page, lo: nat, v: nat, hi: nat, p: Page)
    requires Uses(m0.phys, owner) && Is(owner, d, Dir) && v <= hi && Vacant(m0.phys, d, lo, hi)
    requires Grown(m0, owner, m1, owner1, d, lo, v)
    requires Is(owner1, p, Free) && ownerh == owner1[p := Held] && SameView(m1.phys, mh.phys, owner1)
             && DataKept(m1.phys, owner1, mh.phys, owner1, d)
    requires Unmapped(mh, ownerh, m2, owner2, d, lo, hi)
    requires owner3 == owner2[p := Free] && Inv(m3, owner3) && SameView(m2.phys, m3.phys, owner2)
             && DataKept(m2.phys, owner2, m3.phys, owner3, d)
    ensures Restored(m0, owner, m3, owner3, d)
  {
    UndoneOwners(m0, owner, owner1, ownerh, owner2, owner3, d, lo, v, hi, p);
    UndoneView(m0.phys, owner, m1.phys, owner1, mh.phys, ownerh, m2.phys, owner2, m3.phys, d, lo, v, hi);
    forall q | q in owner && q in owner3 && Keeps(owner[q], owner3[q], q, d)
      ensures q in m0.phys && q in m3.phys && m3.phys[q] == m0.phys[q] {
      assert Keeps(owner[q], owner1[q], q, d) && Keeps(ownerh[q], owner2[q], q, d) && Keeps(owner2[q], owner3[q], q, d);
    }
  }

  lemma UndoneView(phys: Phys, owner: Owners, phys1: Phys, owner1: Owners, physh: Phys, ownerh: Owners, phys2: Phys,
                   owner2: Owners,
                   phys3: Phys, d: Page, lo: nat, v: nat, hi: nat)
    requires Is(owner, d, Dir) && v <= hi && Vacant(phys, d, lo, hi) && Extended(phys, phys1, owner, d, lo, v)
    requires forall q :: q in owner && owner[q] != Free ==>
               q in owner1 && q in ownerh && q in owner2 && owner1[q] == ownerh[q] == owner2[q] == owner[q]
    requires SameView(phys1, physh, owner1) && Cleared(physh, phys2, ownerh, d, lo, hi)
             && SameView(phys2, phys3, owner2)
    ensures SameView(phys, phys3, owner)
  {
    forall e, a, b | Is(owner, e, Dir) && 0 <= a < NENTRIES && 0 <= b < NENTRIES
      ensures At(phys3, e, a, b) == At(phys, e, a, b) {
      assert Is(owner1, e, Dir) && Is(ownerh, e, Dir) && Is(owner2, e, Dir);
    }
  }

  lemma UndoneOwners(m0: Ram, owner: Owners, owner1: Owners, ownerh: Owners, owner2: Owners, owner3: Owners, d: Page,
                     lo: nat, v: nat, hi: nat, p: Page)
    requires Uses(m0.phys, owner) && Vacant(m0.phys, d, lo, hi) && OnlyGrew(owner, owner1, d)
    requires Is(owner1, p, Free) && ownerh == owner1[p := Held] && owner2 == Shrunk(ownerh, d, lo, hi)
             && owner3 == owner2[p := Free]
    ensures OnlyGrew(owner, owner3, d)
    ensures forall q :: q in owner && owner[q] != Free ==> owner1[q] == ownerh[q] == owner2[q] == owner3[q] == owner[q]
  {
    forall q | q in owner
      ensures if owner[q] != Free then owner3[q] == owner[q] else owner3[q] == Free || Belongs(q, owner3[q], d) {
      assert Ok(q, owner[q], m0.phys, owner);
    }
    forall q | q in owner && owner[q] != Free ensures owner1[q] == ownerh[q] == owner2[q] == owner3[q] == owner[q] {
      assert Ok(q, owner[q], m0.phys, owner);
    }
  }

  // One turn of allocuvm's loop; on failure everything is put back.
  method GrowNext(m1: Ram, d: Page, v: nat, oldsz: nat, newsz: nat, ghost m0: Ram, ghost owner: Owners,
                  ghost owner1: Owners)
    returns (m: Ram, ok: bool, ghost owner': Owners)
    requires Uses(m0.phys, owner) && Is(owner, d, Dir) && Is(owner1, d, Dir) && oldsz <= newsz < KERNBASE
             && Up(oldsz) <= v < Up(newsz)
    requires Vacant(m0.phys, d, Up(oldsz), Up(newsz)) && Grown(m0, owner, m1, owner1, d, Up(oldsz), v)
    ensures ok ==>
              Is(owner', d, Dir) && Grown(m0, owner, m, owner', d, Up(oldsz), v + 1) && Took(m1, m, d, 1, v / NENTRIES)
    ensures !ok ==> Restored(m0, owner, m, owner', d) && Short(m1, d, 1, v / NENTRIES)
  {
    ghost var lo := Up(oldsz);
    SplitVpn(v);
    var s;
    m, s, owner' := AddPage(m1, d, v, 0, PTE_W + PTE_U, owner1);
    ok := s.Added?;
    if ok {
      GrownNext(m0, owner, m1, owner1, m, owner', d, lo, v, s.page);
      return;
    }
    m, owner' := PutBack(m, s, d, v, oldsz, newsz, m0, owner, m1, owner1, owner');
  }

  // allocuvm's two failure exits.
  method PutBack(mh: Ram, s: Step, d: Page, ghost v: nat, oldsz: nat, newsz: nat,
                 ghost m0: Ram, ghost owner: Owners, ghost m1: Ram, ghost owner1: Owners, ghost ownerh: Owners)
    returns (m: Ram, ghost owner': Owners)
    requires Uses(m0.phys, owner) && Is(owner, d, Dir) && Is(ownerh, d, Dir) && oldsz <= newsz < KERNBASE
             && Up(oldsz) <= v < Up(newsz)
    requires Vacant(m0.phys, d, Up(oldsz), Up(newsz)) && Grown(m0, owner, m1, owner1, d, Up(oldsz), v)
             && Inv(mh, ownerh) && !s.Added?
    requires s.NoPage? ==> mh == m1 && ownerh == owner1
    requires s.NoTable? ==>
               Is(owner1, s.held, Free) && ownerh == owner1[s.held := Held] && SameView(m1.phys, mh.phys, owner1)
                            && DataKept(m1.phys, owner1, mh.phys, owner1, d)
    ensures Restored(m0, owner, m, owner', d)
  {
    ghost var lo, hi := Up(oldsz), Up(newsz);
    var r;
    m, r, owner' := Deallocuvm(mh, d, newsz, oldsz, ownerh);
    if s.NoPage? {
      Undone(m0, owner, m1, owner1, m, owner', d, lo, v, hi);
    } else {
      m, owner' := FreeHeld(m, s.held, d, v, lo, hi, m0, owner, m1, owner1, mh, ownerh, owner');
    }
  }

  // The page that was not mapped goes back, after deallocuvm.
  method FreeHeld(m2: Ram, p: Page, ghost d: Page, ghost v: nat, ghost lo: nat, ghost hi: nat, ghost m0: Ram,
                  ghost owner: Owners,
                  ghost m1: Ram, ghost owner1: Owners, ghost mh: Ram, ghost ownerh: Owners, ghost owner2: Owners)
    returns (m: Ram, ghost owner': Owners)
    requires Uses(m0.phys, owner) && Is(owner, d, Dir) && v <= hi && Vacant(m0.phys, d, lo, hi)
             && Grown(m0, owner, m1, owner1, d, lo, v)
    requires Is(owner1, p, Free) && ownerh == owner1[p := Held] && SameView(m1.phys, mh.phys, owner1)
             && DataKept(m1.phys, owner1, mh.phys, owner1, d)
    requires Unmapped(mh, ownerh, m2, owner2, d, lo, hi)
    ensures Restored(m0, owner, m, owner', d)
  {
    m, owner' := Kfree(m2, p, owner2);
    UndoneHeld(m0, owner, m1, owner1, mh, ownerh, m2, owner2, m, owner', d, lo, v, hi, p);
  }

  // GrowNext, with what has been taken off the free list since m0.
  method GrowTurn(m1: Ram, d: Page, v: nat, oldsz: nat, newsz: nat, ghost m0: Ram, ghost owner: Owners,
                  ghost owner1: Owners)
    returns (m: Ram, v': nat, ok: bool, ghost owner': Owners)
    requires Uses(m0.phys, owner) && Is(owner, d, Dir) && Is(owner1, d, Dir) && oldsz <= newsz < KERNBASE
             && Up(oldsz) <= v < Up(newsz)
    requires Vacant(m0.phys, d, Up(oldsz), Up(newsz)) && Grown(m0, owner, m1, owner1, d, Up(oldsz), v)
    requires Spent(m0, m1, d, v - Up(oldsz), Up(oldsz), v)
    ensures v' == v + 1
    ensures ok ==>
              Is(owner', d, Dir) && Grown(m0, owner, m, owner', d, Up(oldsz), v')
                  && Spent(m0, m, d, v' - Up(oldsz), Up(oldsz), v')
    ensures !ok ==> Restored(m0, owner, m, owner', d) && Lacks(m0, d, Up(newsz) - Up(oldsz), Up(oldsz), Up(newsz))
  {
    ghost var lo, hi := Up(oldsz), Up(newsz);
    v' := v + 1;
    m, ok, owner' := GrowNext(m1, d, v, oldsz, newsz, m0, owner, owner1);
    if ok {
      PageSpent(m0, m1, m, d, lo, v, v', v - lo, 1, v' - lo);
    } else {
      PageLacking(m0, m1, d, lo, v, hi, v - lo, 1, hi - lo);
    }
  }

  // The loop of allocuvm.
  method GrowAll(m0: Ram, d: Page, oldsz: nat, newsz: nat, ghost owner: Owners)
    returns (m: Ram, failed: bool, ghost owner': Owners)
    requires Inv(m0, owner) && Is(owner, d, Dir) && oldsz <= newsz < KERNBASE
             && Vacant(m0.phys, d, Up(oldsz), Up(newsz))
    ensures if failed then Restored(m0, owner, m, owner', d) else Grown(m0, owner, m, owner', d, Up(oldsz), Up(newsz))
    ensures failed <==> Lacks(m0, d, Up(newsz) - Up(oldsz), Up(oldsz), Up(newsz))
    ensures !failed ==> Spent(m0, m, d, Up(newsz) - Up(oldsz), Up(oldsz), Up(newsz))
  {
    m, owner', failed := m0, owner, false;
    var v, ok := Up(oldsz), true;
    SpentNothing(m0, d, Up(oldsz));
    while v * PGSIZE < newsz
      invariant !failed && Up(oldsz) <= v <= Up(newsz) && Is(owner', d, Dir)
                && Grown(m0, owner, m, owner', d, Up(oldsz), v)
      invariant Spent(m0, m, d, v - Up(oldsz), Up(oldsz), v)
    {
      m, v, ok, owner' := GrowTurn(m, d, v, oldsz, newsz, m0, owner, owner');
      if !ok { return m, true, owner'; }
    }
    assert v == Up(newsz);
    SpentEnough(m0, m, d, Up(newsz) - Up(oldsz), Up(oldsz), Up(newsz));
  }

  method Allocuvm(m0: Ram, d: Page, oldsz: nat, newsz: nat, ghost owner: Owners)
    returns (m: Ram, r: nat, failed: bool, ghost owner': Owners)
    requires Inv(m0, owner) && Is(owner, d, Dir) && (newsz < KERNBASE ==> Vacant(m0.phys, d, Up(oldsz), Up(newsz)))
    ensures newsz >= KERNBASE ==> r == 0 && failed && m == m0 && owner' == owner
    ensures oldsz > newsz && newsz < KERNBASE ==> r == oldsz && !failed && m == m0 && owner' == owner
    ensures oldsz <= newsz < KERNBASE ==> if failed then r == 0 && Restored(m0, owner, m, owner', d)
                                          else r == newsz && Grown(m0, owner, m, owner', d, Up(oldsz), Up(newsz))
    // It fails exactly when the free list is too short for the pages and the page tables that are missing.
    ensures oldsz <= newsz < KERNBASE ==> (failed <==> Lacks(m0, d, Up(newsz) - Up(oldsz), Up(oldsz), Up(newsz)))
    // Otherwise it takes exactly those.
    ensures oldsz <= newsz < KERNBASE && !failed ==> Spent(m0, m, d, Up(newsz) - Up(oldsz), Up(oldsz), Up(newsz))
  {
    m, owner', failed := m0, owner, false;
    if newsz >= KERNBASE { return m, 0, true, owner'; }
    if newsz < oldsz { return m, oldsz, false, owner'; }
    m, failed, owner' := GrowAll(m, d, oldsz, newsz, owner);
    r := if failed then 0 else newsz;
  }
}
