/** Physical pages, page directories and page tables, as xv6-public/vm.c and kalloc.c use them, and
    the record of what every page is used for. */
module Pages {
  type Page = nat

  const NENTRIES := 1024          // NPDENTRIES and NPTENTRIES
  const USERDIRS := 512           // directory entries below KERNBASE

  datatype Pde = Absent | Present(table: Page)
  datatype Pte = NotPresent | Mapped(frame: Page, perm: nat)
  datatype Frame = Raw(data: nat) | Directory(pdes: seq<Pde>) | PageTable(ptes: seq<Pte>)

  type Phys = map<Page, Frame>

  // The allocatable pages: the list kalloc takes from, and what each page holds.
  datatype Ram = Ram(free: seq<Page>, phys: Phys)

  datatype Owner =
    | Free
    | Held                             // handed out by kalloc and in no page table
    | Dir
    | Table(d: Page, i: nat)           // the page table of entry i of directory d
    | User(d: Page, i: nat, j: nat)    // mapped by entry j of that table, below KERNBASE

  type Owners = map<Page, Owner>

  // The flat view of directory d: the entry that translation through i and j finds.
  ghost function At(phys: Phys, d: Page, i: nat, j: nat): Pte {
    if d in phys && phys[d].Directory? && i < |phys[d].pdes| && phys[d].pdes[i].Present?
    then Entry(phys, phys[d].pdes[i].table, j) else NotPresent
  }

  ghost function Entry(phys: Phys, t: Page, j: nat): Pte {
    if t in phys && phys[t].PageTable? && j < |phys[t].ptes| then phys[t].ptes[j] else NotPresent
  }

  ghost predicate DirOk(p: Page, phys: Phys, owner: Owners) {
    && p in phys && phys[p].Directory? && |phys[p].pdes| == NENTRIES
    && forall i :: 0 <= i < NENTRIES && phys[p].pdes[i].Present? ==> Is(owner, phys[p].pdes[i].table, Table(p, i))
  }

  ghost predicate TableOk(p: Page, d: Page, i: nat, phys: Phys, owner: Owners) {
    && i < NENTRIES && Is(owner, d, Dir) && HasTable(phys, d, i, p)
    && p in phys && phys[p].PageTable? && |phys[p].ptes| == NENTRIES
    && (i < USERDIRS ==>
        forall j :: 0 <= j < NENTRIES && phys[p].ptes[j].Mapped? ==> Is(owner, phys[p].ptes[j].frame, User(d, i, j)))
  }

  ghost predicate UserOk(p: Page, d: Page, i: nat, j: nat, phys: Phys, owner: Owners) {
    && i < USERDIRS && j < NENTRIES && Is(owner, d, Dir)
    && At(phys, d, i, j).Mapped? && At(phys, d, i, j).frame == p && p in phys && phys[p].Raw?
  }

  ghost predicate HasTable(phys: Phys, d: Page, i: nat, p: Page) {
    d in phys && phys[d].Directory? && i < |phys[d].pdes| && phys[d].pdes[i] == Present(p)
  }

  // The entries of directory d that have a page table.
  ghost function Tables(phys: Phys, d: Page): set<nat> {
    set i | 0 <= i < NENTRIES && HasSome(phys, d, i)
  }

  ghost predicate HasSome(phys: Phys, d: Page, i: nat) {
    d in phys && phys[d].Directory? && i < |phys[d].pdes| && phys[d].pdes[i].Present?
  }

  ghost predicate Is(owner: Owners, p: Page, o: Owner) {
    p in owner && owner[p] == o
  }

  ghost predicate Ok(p: Page, o: Owner, phys: Phys, owner: Owners) {
    match o
    case Free => true
    case Held => true
    case Dir => DirOk(p, phys, owner)
    case Table(d, i) => TableOk(p, d, i, phys, owner)
    case User(d, i, j) => UserOk(p, d, i, j, phys, owner)
  }

  // Every page has exactly one use, and the page tables agree with it.
  ghost predicate Uses(phys: Phys, owner: Owners) {
    owner.Keys == phys.Keys && forall p :: p in owner ==> Ok(p, owner[p], phys, owner)
  }

  ghost predicate FreeList(free: seq<Page>, owner: Owners) {
    && (forall k, l :: 0 <= k < l < |free| ==> free[k] != free[l])
    && (forall k :: 0 <= k < |free| ==> Is(owner, free[k], Free))
    && (forall p :: p in owner && owner[p] == Free ==> p in free)
  }

  ghost predicate Inv(m: Ram, owner: Owners) {
    Uses(m.phys, owner) && FreeList(m.free, owner)
  }

  // A page of directory d.
  predicate Belongs(p: Page, o: Owner, d: Page) {
    match o
    case Free => false
    case Held => false
    case Dir => p == d
    case Table(e, _) => e == d
    case User(e, _, _) => e == d
  }

  lemma Take(free: seq<Page>, owner: Owners)
    requires FreeList(free, owner) && |free| > 0
    ensures Is(owner, free[0], Free) && FreeList(free[1..], owner[free[0] := Held])
  {
    var owner' := owner[free[0] := Held];
    forall p | p in owner' && owner'[p] == Free ensures p in free[1..] {
      var k :| 0 <= k < |free| && free[k] == p;
      assert free[1..][k - 1] == p;
    }
  }

  lemma Give(free: seq<Page>, owner: Owners, p: Page)
    requires FreeList(free, owner) && p in owner && owner[p] != Free
    ensures FreeList([p] + free, owner[p := Free])
  {
    var free', owner' := [p] + free, owner[p := Free];
    forall k | 0 <= k < |free'| ensures Is(owner', free'[k], Free) {
      if k > 0 { assert free'[k] == free[k - 1]; }
    }
    forall k, l | 0 <= k < l < |free'| ensures free'[k] != free'[l] {
      assert free'[l] == free[l - 1];
      if k > 0 { assert free'[k] == free[k - 1]; }
    }
    forall q | q in owner' && owner'[q] == Free ensures q in free' {
      if q != p {
        var k :| 0 <= k < |free| && free[k] == q;
        assert free'[k + 1] == q;
      }
    }
  }

  lemma KeepFree(free: seq<Page>, owner: Owners, p: Page, o: Owner)
    requires FreeList(free, owner) && p in owner && owner[p] != Free && o != Free
    ensures FreeList(free, owner[p := o])
  {
  }

  // phys' translates as phys does in every directory, except that entry (i, j) of d is now pte.
  ghost predicate ViewBut(phys: Phys, phys': Phys, owner: Owners, d: Page, i: nat, j: nat, pte: Pte) {
    forall e, a, b :: Is(owner, e, Dir) && 0 <= a < NENTRIES && 0 <= b < NENTRIES ==>
      At(phys', e, a, b) == if e == d && a == i && b == j then pte else At(phys, e, a, b)
  }

  ghost predicate SameView(phys: Phys, phys': Phys, owner: Owners) {
    forall e, a, b :: Is(owner, e, Dir) && 0 <= a < NENTRIES && 0 <= b < NENTRIES ==>
        At(phys', e, a, b) == At(phys, e, a, b)
  }

  // Relabelling a page that no table uses, and writing to it.
  lemma Relabel(phys: Phys, owner: Owners, p: Page, o: Owner, f: Frame, phys': Phys, owner': Owners)
    requires Uses(phys, owner) && p in owner && (owner[p] == Free || owner[p] == Held) && (o == Free || o == Held)
    requires phys' == phys[p := f] && owner' == owner[p := o]
    ensures Uses(phys', owner') && SameView(phys, phys', owner)
  {
    forall e, a, b | Is(owner, e, Dir) && 0 <= a < NENTRIES && 0 <= b < NENTRIES
      ensures At(phys', e, a, b) == At(phys, e, a, b) {
      assert Ok(e, owner[e], phys, owner);
    }
    forall q | q in owner' ensures Ok(q, owner'[q], phys', owner') {
      if q != p { assert Ok(q, owner[q], phys, owner); }
    }
  }

  const EmptyDir := Directory(seq(NENTRIES, _ => Absent))
  const EmptyTable := PageTable(seq(NENTRIES, _ => NotPresent))

  lemma NewDir(phys: Phys, owner: Owners, p: Page, phys': Phys, owner': Owners)
    requires Uses(phys, owner) && Is(owner, p, Held) && phys' == phys[p := EmptyDir] && owner' == owner[p := Dir]
    ensures Uses(phys', owner') && SameView(phys, phys', owner)
    ensures forall i, j :: At(phys', p, i, j) == NotPresent
  {
    forall e, a, b | Is(owner, e, Dir) && 0 <= a < NENTRIES && 0 <= b < NENTRIES
      ensures At(phys', e, a, b) == At(phys, e, a, b) {
      assert Ok(e, owner[e], phys, owner);
    }
    forall q | q in owner' ensures Ok(q, owner'[q], phys', owner') {
      if q != p { assert Ok(q, owner[q], phys, owner); }
    }
  }

  // walkpgdir adds an empty page table.
  lemma NewTable(phys: Phys, owner: Owners, d: Page, i: nat, p: Page, phys': Phys, owner': Owners)
    requires Uses(phys, owner) && Is(owner, d, Dir) && i < NENTRIES && Is(owner, p, Held)
    requires DirOk(d, phys, owner) && phys[d].pdes[i].Absent?
    requires phys' == phys[p := EmptyTable][d := Directory(phys[d].pdes[i := Present(p)])]
             && owner' == owner[p := Table(d, i)]
    ensures Uses(phys', owner') && SameView(phys, phys', owner)
  {
    forall e, a, b | Is(owner, e, Dir) && 0 <= a < NENTRIES && 0 <= b < NENTRIES
      ensures At(phys', e, a, b) == At(phys, e, a, b) {
      assert Ok(e, owner[e], phys, owner);
    }
    forall q | q in owner' ensures Ok(q, owner'[q], phys', owner') {
      if q != p { assert Ok(q, owner[q], phys, owner); }
    }
  }

  // Writing entry j of the page table of entry i of d.
  lemma SetEntry(phys: Phys, owner: Owners, d: Page, i: nat, j: nat, t: Page, pte: Pte, phys': Phys)
    requires Uses(phys, owner) && Is(owner, t, Table(d, i)) && j < NENTRIES
    requires TableOk(t, d, i, phys, owner) && phys' == phys[t := PageTable(phys[t].ptes[j := pte])]
    ensures ViewBut(phys, phys', owner, d, i, j, pte)
  {
    forall e, a, b | Is(owner, e, Dir) && 0 <= a < NENTRIES && 0 <= b < NENTRIES
      ensures At(phys', e, a, b) == if e == d && a == i && b == j then pte else At(phys, e, a, b)
    {
      assert Ok(e, owner[e], phys, owner);
    }
  }

  // mappages for a user page.
  lemma MapUser(phys: Phys, owner: Owners, d: Page, i: nat, j: nat, t: Page, p: Page, perm: nat, phys': Phys,
                owner': Owners)
    requires Uses(phys, owner) && Is(owner, t, Table(d, i)) && i < USERDIRS && j < NENTRIES
             && TableOk(t, d, i, phys, owner)
    requires phys[t].ptes[j] == NotPresent && Is(owner, p, Held) && phys[p].Raw?
    requires phys' == phys[t := PageTable(phys[t].ptes[j := Mapped(p, perm)])] && owner' == owner[p := User(d, i, j)]
    ensures Uses(phys', owner') && ViewBut(phys, phys', owner, d, i, j, Mapped(p, perm))
  {
    SetEntry(phys, owner, d, i, j, t, Mapped(p, perm), phys');
    forall q | q in owner' ensures Ok(q, owner'[q], phys', owner') {
      if q != p { assert Ok(q, owner[q], phys, owner); }
    }
  }

  // mappages for a kernel page.
  lemma MapKernel(phys: Phys, owner: Owners, d: Page, i: nat, j: nat, t: Page, pte: Pte, phys': Phys)
    requires Uses(phys, owner) && Is(owner, t, Table(d, i)) && USERDIRS <= i && j < NENTRIES
             && TableOk(t, d, i, phys, owner)
    requires phys' == phys[t := PageTable(phys[t].ptes[j := pte])]
    ensures Uses(phys', owner) && ViewBut(phys, phys', owner, d, i, j, pte)
  {
    SetEntry(phys, owner, d, i, j, t, pte, phys');
    forall q | q in owner ensures Ok(q, owner[q], phys', owner) {
      assert Ok(q, owner[q], phys, owner);
    }
  }

  // deallocuvm clears an entry; the page it mapped is then in no table.
  lemma Unmap(phys: Phys, owner: Owners, d: Page, i: nat, j: nat, t: Page, p: Page, phys': Phys, owner': Owners)
    requires Uses(phys, owner) && Is(owner, t, Table(d, i)) && i < USERDIRS && j < NENTRIES
             && TableOk(t, d, i, phys, owner)
    requires phys[t].ptes[j].Mapped? && phys[t].ptes[j].frame == p
    requires phys' == phys[t := PageTable(phys[t].ptes[j := NotPresent])] && owner' == owner[p := Held]
    ensures Is(owner, p, User(d, i, j)) && Uses(phys', owner') && ViewBut(phys, phys', owner, d, i, j, NotPresent)
  {
    SetEntry(phys, owner, d, i, j, t, NotPresent, phys');
    forall q | q in owner' ensures Ok(q, owner'[q], phys', owner') {
      if q != p { assert Ok(q, owner[q], phys, owner); }
    }
  }

  ghost function Dropped(owner: Owners, d: Page): Owners {
    map p | p in owner :: if Belongs(p, owner[p], d) then Held else owner[p]
  }

  // freevm, once no user page is mapped: the directory and its tables are in no use any more.
  lemma DropDir(phys: Phys, owner: Owners, d: Page)
    requires Uses(phys, owner) && Is(owner, d, Dir)
    requires forall i, j :: 0 <= i < USERDIRS && 0 <= j < NENTRIES ==> At(phys, d, i, j) == NotPresent
    ensures Uses(phys, Dropped(owner, d))
  {
    var owner' := Dropped(owner, d);
    forall q | q in owner' ensures Ok(q, owner'[q], phys, owner') {
      assert Ok(q, owner[q], phys, owner);
    }
  }
}
