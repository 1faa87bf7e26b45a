/** What mapping costs: the pages and page tables that come off the free list, and when it is too short. */
module PageCount {
  import opened Pages

  // From m0 to m, that many pages came off the free list, and one for the page table of entry i of d if it had none.
  ghost predicate Took(m0: Ram, m: Ram, d: Page, pages: nat, i: nat) {
    && Tables(m.phys, d) == Tables(m0.phys, d) + {i}
    && |m0.free| == |m.free| + pages + if i in Tables(m0.phys, d) then 0 else 1
  }

  // The free list is too short for that.
  ghost predicate Short(m: Ram, d: Page, pages: nat, i: nat) {
    |m.free| < pages + if i in Tables(m.phys, d) then 0 else 1
  }

  // The directory entries of virtual pages lo .. hi - 1.
  ghost function Touched(lo: nat, hi: nat): set<nat> {
    if hi <= lo then {} else Touched(lo, hi - 1) + {(hi - 1) / NENTRIES}
  }

  // How many of these have no page table, given those that have one.
  ghost function Missing(has: set<nat>, lo: nat, hi: nat): nat {
    if hi <= lo then 0
    else Missing(has, lo, hi - 1) + if (hi - 1) / NENTRIES in has + Touched(lo, hi - 1) then 0 else 1
  }

  lemma {:induction false} MissingIs(has: set<nat>, lo: nat, hi: nat)
    ensures Missing(has, lo, hi) == |Touched(lo, hi) - has|
    decreases hi
  {
    if lo < hi {
      MissingIs(has, lo, hi - 1);
      OneMore(Touched(lo, hi - 1), (hi - 1) / NENTRIES, has);
    }
  }

  lemma OneMore(before: set<nat>, i: nat, has: set<nat>)
    ensures |before + {i} - has| == |before - has| + if i in has + before then 0 else 1
  {
    if i in has + before {
      assert before + {i} - has == before - has;
    } else {
      assert before + {i} - has == before - has + {i};
    }
  }

  lemma {:induction false} MissingGrows(has: set<nat>, lo: nat, v: nat, hi: nat)
    requires v <= hi
    ensures Missing(has, lo, v) <= Missing(has, lo, hi)
    decreases hi
  {
    if v < hi { MissingGrows(has, lo, v, hi - 1); }
  }

  // From m0 to m, that many pages came off the free list, and the page tables that virtual pages lo .. v - 1 lacked.
  ghost predicate Spent(m0: Ram, m: Ram, d: Page, pages: nat, lo: nat, v: nat) {
    && Tables(m.phys, d) == Tables(m0.phys, d) + Touched(lo, v)
    && |m0.free| == |m.free| + pages + Missing(Tables(m0.phys, d), lo, v)
  }

  // The free list is too short for that.
  ghost predicate Lacks(m: Ram, d: Page, pages: nat, lo: nat, hi: nat) {
    |m.free| < pages + Missing(Tables(m.phys, d), lo, hi)
  }

  lemma SpentNothing(m: Ram, d: Page, lo: nat)
    ensures Spent(m, m, d, 0, lo, lo)
  {
    assert Tables(m.phys, d) + {} == Tables(m.phys, d);
  }

  lemma SpentEnough(m0: Ram, m: Ram, d: Page, pages: nat, lo: nat, hi: nat)
    requires Spent(m0, m, d, pages, lo, hi)
    ensures !Lacks(m0, d, pages, lo, hi)
  {
  }

  lemma PageSpent(m0: Ram, m1: Ram, m2: Ram, d: Page, lo: nat, v: nat, v': nat, pages: nat, each: nat, pages': nat)
    requires lo <= v && v' == v + 1 && pages' == pages + each && Spent(m0, m1, d, pages, lo, v)
             && Took(m1, m2, d, each, v / NENTRIES)
    ensures Spent(m0, m2, d, pages', lo, v')
  {
    assert Touched(lo, v') == Touched(lo, v) + {v / NENTRIES};
  }

  lemma PageLacking(m0: Ram, m1: Ram, d: Page, lo: nat, v: nat, hi: nat, pages: nat, each: nat, more: nat)
    requires lo <= v < hi && Spent(m0, m1, d, pages, lo, v) && Short(m1, d, each, v / NENTRIES) && pages + each <= more
    ensures Lacks(m0, d, more, lo, hi)
  {
    assert Missing(Tables(m0.phys, d), lo, v + 1)
        == Missing(Tables(m0.phys, d), lo, v) + if v / NENTRIES in Tables(m1.phys, d) then 0 else 1;
    MissingGrows(Tables(m0.phys, d), lo, v + 1, hi);
  }

  lemma TablePresent(m: Ram, d: Page, i: nat)
    requires i < NENTRIES && HasSome(m.phys, d, i)
    ensures Took(m, m, d, 0, i)
  {
    assert Tables(m.phys, d) + {i} == Tables(m.phys, d);
  }

  lemma TableAdded(m0: Ram, m: Ram, d: Page, i: nat, p: Page)
    requires i < NENTRIES && d in m0.phys && m0.phys[d].Directory? && i < |m0.phys[d].pdes|
             && m0.phys[d].pdes[i].Absent?
    requires d in m.phys && m.phys[d] == Directory(m0.phys[d].pdes[i := Present(p)]) && |m.free| == |m0.free| - 1
    ensures Took(m0, m, d, 0, i)
  {
    assert Tables(m.phys, d) == Tables(m0.phys, d) + {i} && i !in Tables(m0.phys, d);
  }

  lemma SameTables(m0: Ram, m1: Ram, m: Ram, d: Page, pages: nat, i: nat)
    requires Took(m0, m1, d, pages, i) && m.free == m1.free && d in m1.phys && d in m.phys && m.phys[d] == m1.phys[d]
    ensures Took(m0, m, d, pages, i)
  {
    assert Tables(m.phys, d) == Tables(m1.phys, d);
  }

  // A page taken first, then the table it is mapped in.
  lemma PageThenTable(m0: Ram, m1: Ram, m2: Ram, d: Page, i: nat)
    requires |m1.free| == |m0.free| - 1 && d in m0.phys && d in m1.phys && m1.phys[d] == m0.phys[d]
    requires Took(m1, m2, d, 0, i)
    ensures Took(m0, m2, d, 1, i)
  {
    assert Tables(m1.phys, d) == Tables(m0.phys, d);
  }

  lemma PageNoTable(m0: Ram, m1: Ram, d: Page, i: nat)
    requires |m1.free| == |m0.free| - 1 && d in m0.phys && d in m1.phys && m1.phys[d] == m0.phys[d]
    requires m1.free == [] && i !in Tables(m1.phys, d)
    ensures Short(m0, d, 1, i)
  {
    assert Tables(m1.phys, d) == Tables(m0.phys, d);
  }
}
