/** Blocks that exactly tile the memory units sbrk supplied: the conservation law behind
    xv6-public/umalloc.c. Addresses and sizes are in units of sizeof(Header). */
module Tiling {
  type Blocks = map<nat, nat>   // start to size
  type Units = map<nat, nat>    // supplied unit to the start of its block

  ghost predicate Covers(units: Units, b: nat, n: nat) {
    forall u :: b <= u < b + n ==> u in units && units[u] == b
  }

  ghost predicate Inside(u: nat, b: nat, blocks: Blocks) {
    b in blocks && b <= u < b + blocks[b]
  }

  // Every block covers its own units, and every supplied unit lies in the block it is assigned to:
  // no unit is in two blocks and none is lost.
  ghost predicate Tiled(units: Units, blocks: Blocks) {
    && (forall b :: b in blocks ==> blocks[b] > 0 && Covers(units, b, blocks[b]))
    && (forall u :: u in units ==> Inside(u, units[u], blocks))
  }

  lemma StartsItself(units: Units, blocks: Blocks, b: nat)
    requires Tiled(units, blocks) && b in blocks
    ensures b in units && units[b] == b
  {
    assert Covers(units, b, blocks[b]);
  }

  // Two blocks of a tiling do not overlap.
  lemma Disjoint(units: Units, blocks: Blocks, a: nat, b: nat)
    requires Tiled(units, blocks) && a in blocks && b in blocks && a < b
    ensures a + blocks[a] <= b
  {
    StartsItself(units, blocks, b);
    assert Covers(units, a, blocks[a]);
  }

  ghost function Reassign(units: Units, b: nat, a: nat): Units {
    map u | u in units :: if units[u] == b then a else units[u]
  }

  // Coalescing adjacent blocks.
  lemma Join(units: Units, blocks: Blocks, a: nat, b: nat, units': Units, blocks': Blocks)
    requires Tiled(units, blocks) && a in blocks && b in blocks && a + blocks[a] == b
    requires units' == Reassign(units, b, a) && blocks' == (blocks - {b})[a := blocks[a] + blocks[b]]
    ensures Tiled(units', blocks')
  {
    assert Covers(units, a, blocks[a]) && Covers(units, b, blocks[b]);
    forall c | c in blocks' ensures Covers(units', c, blocks'[c]) {
      if c != a { assert Covers(units, c, blocks[c]); }
    }
    forall u | u in units' ensures Inside(u, units'[u], blocks') {
      assert Inside(u, units[u], blocks);
    }
  }

  ghost function CutFrom(units: Units, b: nat, q: nat): Units {
    map u | u in units :: if units[u] == b && u >= q then q else units[u]
  }

  // Splitting off the tail of a block.
  lemma Cut(units: Units, blocks: Blocks, b: nat, q: nat, n: nat, units': Units, blocks': Blocks)
    requires Tiled(units, blocks) && b in blocks && b < q && 0 < n && q + n == b + blocks[b]
    requires units' == CutFrom(units, b, q) && blocks' == blocks[b := q - b][q := n]
    ensures q !in blocks && q in units && units[q] == b && Tiled(units', blocks')
  {
    assert Covers(units, b, blocks[b]) && units[q] == b;
    if q in blocks { StartsItself(units, blocks, q); }
    forall c | c in blocks' ensures blocks'[c] > 0 && Covers(units', c, blocks'[c]) {
      if c != q && c != b { CutElsewhere(units, b, q, c, blocks[c]); }
    }
    forall u | u in units' ensures Inside(u, units'[u], blocks') {
      assert Inside(u, units[u], blocks);
    }
  }

  lemma CutElsewhere(units: Units, b: nat, q: nat, c: nat, n: nat)
    requires Covers(units, c, n) && c != b
    ensures Covers(CutFrom(units, b, q), c, n)
  {
  }

  ghost function Range(b: nat, n: nat): (r: set<nat>)
    ensures |r| == n && forall u :: u in r <==> b <= u < b + n
  {
    if n == 0 then {} else Range(b, n - 1) + {b + n - 1}
  }

  ghost function Supply(units: Units, p: nat, n: nat): Units {
    units + map u | u in Range(p, n) :: p
  }

  // A new block of units that were not supplied before.
  lemma Add(units: Units, blocks: Blocks, p: nat, n: nat, units': Units, blocks': Blocks)
    requires Tiled(units, blocks) && n > 0 && forall u :: u in units ==> u < p
    requires units' == Supply(units, p, n) && blocks' == blocks[p := n]
    ensures p !in blocks && Tiled(units', blocks')
  {
    if p in blocks { StartsItself(units, blocks, p); }
    forall c | c in blocks' ensures Covers(units', c, blocks'[c]) {
      if c != p { assert Covers(units, c, blocks[c]); }
    }
    forall u | u in units' ensures Inside(u, units'[u], blocks') {
      if u !in Range(p, n) { assert Inside(u, units[u], blocks); }
    }
  }

  lemma Without(units: Units, s: set<nat>)
    requires s <= units.Keys
    ensures |units| == |units - s| + |s|
  {
    assert units.Keys == (units - s).Keys + s;
    assert |units.Keys| == |(units - s).Keys| + |s|;
  }

  lemma Elsewhere(units: Units, mine: set<nat>, b: nat, c: nat, n: nat)
    requires Covers(units, c, n) && c != b && forall u :: u in mine ==> u in units && units[u] == b
    ensures Covers(units - mine, c, n)
  {
  }

  lemma Drop(units: Units, blocks: Blocks, b: nat, mine: set<nat>, units': Units, blocks': Blocks)
    requires Tiled(units, blocks) && b in blocks && (forall u :: u in mine <==> b <= u < b + blocks[b])
    requires units' == units - mine && blocks' == blocks - {b}
    ensures Tiled(units', blocks') && |units| == |units'| + |mine|
  {
    assert Covers(units, b, blocks[b]);
    forall c | c in blocks' ensures Covers(units', c, blocks'[c]) { Elsewhere(units, mine, b, c, blocks[c]); }
    forall u | u in units' ensures Inside(u, units'[u], blocks') { assert Inside(u, units[u], blocks); }
    Without(units, mine);
  }

  ghost function TotalSize(blocks: Blocks): nat {
    if blocks == map[] then 0
    else
      var b :| b in blocks;
      blocks[b] + TotalSize(blocks - {b})
  }

  // The sizes of the blocks add up to the number of units supplied.
  lemma {:induction false} Conserved(units: Units, blocks: Blocks)
    requires Tiled(units, blocks)
    ensures TotalSize(blocks) == |units|
    decreases |blocks|
  {
    if blocks == map[] {
      assert units == map[];
    } else {
      var b :| b in blocks && TotalSize(blocks) == blocks[b] + TotalSize(blocks - {b});
      var mine := Range(b, blocks[b]);
      Drop(units, blocks, b, mine, units - mine, blocks - {b});
      assert (blocks - {b}).Keys == blocks.Keys - {b};
      Conserved(units - mine, blocks - {b});
    }
  }
}
