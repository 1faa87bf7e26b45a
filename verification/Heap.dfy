/** The user-space allocator, xv6-public/umalloc.c. Addresses are in units of sizeof(Header), which
    is 8 bytes; 0 is the null pointer. Only the headers of the memory are modelled. */
module Heap {
  import opened Param
  import opened Tiling
  import opened FreeList

  // The tiling of the units sbrk supplied to malloc, and the blocks handed out.
  datatype Ledger = Ledger(units: Units, blocks: Blocks, live: set<nat>)

  ghost function FreeBlocks(led: Ledger): set<nat> { led.blocks.Keys - led.live }

  // Every supplied unit is in exactly one block, and the headers hold the sizes.
  ghost predicate Books(mem: Mem, led: Ledger, base: nat, brk: nat) {
    Tiled(led.units, led.blocks) && Heads(mem, led, base, brk)
  }

  ghost predicate Heads(mem: Mem, led: Ledger, base: nat, brk: nat) {
    && led.live <= led.blocks.Keys
    && (forall u :: u in led.units ==> base < u < brk)
    && (forall b :: b in led.blocks ==> b in mem && mem[b].size == led.blocks[b])
  }

  // No word of a live block has been written.
  ghost predicate LiveKept(mem: Mem, mem': Mem, led: Ledger) {
    forall u :: u in led.units && led.units[u] in led.live ==>
        (u in mem' <==> u in mem) && (u in mem ==> mem'[u] == mem[u])
  }

  lemma AboveBase(mem: Mem, led: Ledger, base: nat, brk: nat, b: nat)
    requires Books(mem, led, base, brk) && b in led.blocks
    ensures base < b && b in led.units && led.units[b] == b
  {
    StartsItself(led.units, led.blocks, b);
  }

  // A live block lies clear of the list.
  lemma ClearOf(mem: Mem, led: Ledger, nodes: seq<nat>, base: nat, brk: nat, bp: nat)
    requires FreeRing(mem, nodes, base) && Books(mem, led, base, brk) && Lists(nodes, FreeBlocks(led)) && bp in led.live
    ensures Clear(mem, nodes, bp) && base < bp
  {
    AboveBase(mem, led, base, brk, bp);
    forall i | 0 <= i < |nodes| ensures Below(mem, nodes[i], bp, true) || Below(mem, bp, nodes[i], true) {
      if i > 0 {
        var b := nodes[i];
        if b < bp { Disjoint(led.units, led.blocks, b, bp); } else { Disjoint(led.units, led.blocks, bp, b); }
      }
    }
  }

  // Writing a header that is not in a live block.
  lemma WriteFree(mem: Mem, led: Ledger, base: nat, brk: nat, x: nat, h: Header)
    requires Books(mem, led, base, brk) && (x == base || x in FreeBlocks(led))
             && (x in led.blocks ==> h.size == led.blocks[x])
    ensures Books(mem[x := h], led, base, brk) && LiveKept(mem, mem[x := h], led)
  {
    if x != base { AboveBase(mem, led, base, brk, x); }
  }

  // A live block becomes free.
  lemma Release(mem: Mem, led: Ledger, base: nat, brk: nat, bp: nat)
    requires Books(mem, led, base, brk) && bp in led.live
    ensures var led' := led.(live := led.live - {bp});
            Books(mem, led', base, brk) && FreeBlocks(led') == FreeBlocks(led) + {bp}
  {
  }

  // Block b is absorbed by block a before it.
  ghost function Absorbed(led: Ledger, a: nat, b: nat): Ledger
    requires a in led.blocks && b in led.blocks
  {
    Ledger(Reassign(led.units, b, a), (led.blocks - {b})[a := led.blocks[a] + led.blocks[b]], led.live)
  }

  lemma AbsorbHeads(mem: Mem, led: Ledger, base: nat, brk: nat, a: nat, b: nat, h: Header)
    requires Heads(mem, led, base, brk) && a in led.blocks && b in FreeBlocks(led) && a != b
    requires h.size == led.blocks[a] + led.blocks[b]
    ensures Heads(mem[a := h], Absorbed(led, a, b), base, brk)
  {
  }

  lemma AbsorbBooks(mem: Mem, led: Ledger, base: nat, brk: nat, a: nat, b: nat, h: Header, led': Ledger)
    requires Books(mem, led, base, brk) && a in led.blocks && b in FreeBlocks(led) && a + led.blocks[a] == b
    requires h.size == led.blocks[a] + led.blocks[b] && led' == Absorbed(led, a, b)
    ensures Books(mem[a := h], led', base, brk)
  {
    AbsorbHeads(mem, led, base, brk, a, b, h);
    Join(led.units, led.blocks, a, b, led'.units, led'.blocks);
  }

  lemma AbsorbKept(mem: Mem, led: Ledger, base: nat, brk: nat, a: nat, b: nat, h: Header)
    requires Books(mem, led, base, brk) && a in FreeBlocks(led) && b in FreeBlocks(led) && a != b
    ensures LiveKept(mem, mem[a := h], led)
    ensures FreeBlocks(Absorbed(led, a, b)) == FreeBlocks(led) - {b}
  {
    AboveBase(mem, led, base, brk, a);
  }

  // Where the allocator is: outside free, or between free's two steps, when bp is in the list but
  // node p before it, at index t, does not yet point to it.
  datatype Phase = Whole | Half(t: nat, p: nat, bp: nat)

  ghost predicate Sound(phase: Phase, mem: Mem, led: Ledger, nodes: seq<nat>, base: nat, brk: nat) {
    match phase
    case Whole => FreeRing(mem, nodes, base) && Books(mem, led, base, brk) && Lists(nodes, FreeBlocks(led))
    case Half(t, p, bp) =>
      && HalfLinked(mem, nodes, base, t) && Books(mem, led, base, brk) && Lists(nodes, FreeBlocks(led))
      && nodes[t] == p && nodes[t + 1] == bp && p in mem && bp in mem
  }

  // free's first step, when bp does not reach the next node.
  lemma FreeInsert(mem: Mem, led: Ledger, nodes: seq<nat>, base: nat, brk: nat, t: nat, p: nat, bp: nat,
                   mem': Mem, led': Ledger, nodes': seq<nat>)
    requires FreeRing(mem, nodes, base) && Books(mem, led, base, brk) && Lists(nodes, FreeBlocks(led)) && bp in led.live
    requires Place(nodes, t, bp) && p == nodes[t] && bp + mem[bp].size != After(nodes, t)
    requires mem' == mem[bp := mem[bp].(ptr := After(nodes, t))]
    requires led' == led.(live := led.live - {bp}) && nodes' == WithNode(nodes, t, bp)
    ensures Sound(Half(t, p, bp), mem', led', nodes', base, brk) && SameLive(led, led') && LiveKept(mem, mem', led')
  {
    ClearOf(mem, led, nodes, base, brk, bp);
    Insert(mem, nodes, base, t, bp);
    Release(mem, led, base, brk, bp);
    ListsWithNode(nodes, FreeBlocks(led), t, bp);
    WriteFree(mem, led', base, brk, bp, mem[bp].(ptr := After(nodes, t)));
  }

  // free's first step, when bp ends where the next node q starts.
  lemma FreeMergeUp(mem: Mem, led: Ledger, nodes: seq<nat>, base: nat, brk: nat, t: nat, p: nat, bp: nat, q: nat,
                    mem': Mem, led1: Ledger, led': Ledger, nodes': seq<nat>)
    requires FreeRing(mem, nodes, base) && Books(mem, led, base, brk) && Lists(nodes, FreeBlocks(led)) && bp in led.live
    requires Place(nodes, t, bp) && p == nodes[t] && bp + mem[bp].size == q == After(nodes, t) && t + 1 < |nodes|
             && q in led.blocks
    requires mem' == mem[bp := Header(mem[q].ptr, mem[bp].size + mem[q].size)]
    requires led1 == led.(live := led.live - {bp}) && led' == Absorbed(led1, bp, q) && nodes' == nodes[t + 1 := bp]
    ensures Sound(Half(t, p, bp), mem', led', nodes', base, brk) && SameLive(led, led') && LiveKept(mem, mem', led1)
  {
    ClearOf(mem, led, nodes, base, brk, bp);
    MergeUp(mem, nodes, base, t, bp, q, mem', nodes');
    MergeUpBooks(mem, led, nodes, base, brk, t, bp, q, mem', led1, led');
  }

  lemma NextBlock(mem: Mem, led: Ledger, nodes: seq<nat>, base: nat, brk: nat, t: nat, bp: nat)
    requires FreeRing(mem, nodes, base) && Books(mem, led, base, brk) && Lists(nodes, FreeBlocks(led)) && bp in led.live
    requires Place(nodes, t, bp) && bp + mem[bp].size == After(nodes, t)
    ensures t + 1 < |nodes| && After(nodes, t) in led.blocks
  {
    AboveBase(mem, led, base, brk, bp);
  }

  lemma MergeUpBooks(mem: Mem, led: Ledger, nodes: seq<nat>, base: nat, brk: nat, t: nat, bp: nat, q: nat, mem': Mem,
                     led1: Ledger, led': Ledger)
    requires ApartBut(mem, nodes, -1) && Books(mem, led, base, brk) && Lists(nodes, FreeBlocks(led)) && bp in led.live
    requires t + 1 < |nodes| && bp + mem[bp].size == q == nodes[t + 1] && q in led.blocks
    requires mem' == mem[bp := Header(mem[q].ptr, mem[bp].size + mem[q].size)]
    requires led1 == led.(live := led.live - {bp}) && led' == Absorbed(led1, bp, q)
    ensures Books(mem', led', base, brk) && Lists(nodes[t + 1 := bp], FreeBlocks(led'))
    ensures SameLive(led, led') && LiveKept(mem, mem', led1)
  {
    var h := Header(mem[q].ptr, mem[bp].size + mem[q].size);
    Release(mem, led, base, brk, bp);
    AbsorbBooks(mem, led1, base, brk, bp, q, h, led');
    AbsorbKept(mem, led1, base, brk, bp, q, h);
    ListsReplaced(mem, nodes, FreeBlocks(led), -1, t + 1, bp);
    assert FreeBlocks(led1) - {q} == FreeBlocks(led) - {q} + {bp};
    AbsorbSame(led1, bp, q);
  }

  // free's second step, when the node before bp does not reach it.
  lemma FreeLink(mem: Mem, led: Ledger, nodes: seq<nat>, base: nat, brk: nat, t: nat, p: nat, bp: nat, mem': Mem)
    requires Sound(Half(t, p, bp), mem, led, nodes, base, brk) && p + mem[p].size != bp
    requires mem' == mem[p := mem[p].(ptr := bp)]
    ensures Sound(Whole, mem', led, nodes, base, brk) && LiveKept(mem, mem', led)
  {
    Link(mem, nodes, base, t, p, bp, mem');
    WriteFree(mem, led, base, brk, p, mem[p].(ptr := bp));
  }

  // free's second step, when the node before bp ends where bp starts.
  lemma FreeMergeDown(mem: Mem, led: Ledger, nodes: seq<nat>, base: nat, brk: nat, t: nat, p: nat, bp: nat, mem': Mem,
                      led': Ledger, nodes': seq<nat>)
    requires Sound(Half(t, p, bp), mem, led, nodes, base, brk) && p in led.blocks && bp in led.blocks
             && p + mem[p].size == bp
    requires mem' == mem[p := Header(mem[bp].ptr, mem[p].size + mem[bp].size)]
    requires led' == Absorbed(led, p, bp) && nodes' == WithoutNode(nodes, t + 1)
    ensures Sound(Whole, mem', led', nodes', base, brk) && SameLive(led, led') && LiveKept(mem, mem', led)
  {
    MergeDown(mem, nodes, base, t, p, bp, mem', nodes');
    MergeDownBooks(mem, led, nodes, base, brk, t, p, bp, mem', led', nodes');
  }

  lemma MergeDownBooks(mem: Mem, led: Ledger, nodes: seq<nat>, base: nat, brk: nat, t: nat, p: nat, bp: nat, mem': Mem,
                       led': Ledger, nodes': seq<nat>)
    requires ApartBut(mem, nodes, t) && Books(mem, led, base, brk) && Lists(nodes, FreeBlocks(led))
    requires 0 < t && t + 1 < |nodes| && p == nodes[t] && bp == nodes[t + 1] && p in led.blocks && bp in led.blocks
             && p + mem[p].size == bp
    requires mem' == mem[p := Header(mem[bp].ptr, mem[p].size + mem[bp].size)]
    requires led' == Absorbed(led, p, bp) && nodes' == WithoutNode(nodes, t + 1)
    ensures Books(mem', led', base, brk) && Lists(nodes', FreeBlocks(led')) && SameLive(led, led')
            && LiveKept(mem, mem', led)
  {
    var h := Header(mem[bp].ptr, mem[p].size + mem[bp].size);
    NodesDistinct(mem, nodes, t, t, t + 1);
    AbsorbBooks(mem, led, base, brk, p, bp, h, led');
    AbsorbKept(mem, led, base, brk, p, bp, h);
    ListsWithoutNode(mem, nodes, FreeBlocks(led), t, t + 1);
    AbsorbSame(led, p, bp);
  }

  // The blocks of the node before bp and of bp.
  lemma NodeBlocks(mem: Mem, led: Ledger, nodes: seq<nat>, base: nat, t: nat)
    requires HalfLinked(mem, nodes, base, t) && Lists(nodes, FreeBlocks(led)) && nodes[t] in mem
    ensures nodes[t + 1] in led.blocks && (nodes[t] + mem[nodes[t]].size == nodes[t + 1] ==> nodes[t] in led.blocks)
  {
    assert Ordered(mem, nodes, t, t, t + 1);
  }

  // malloc takes the whole of node p, which prevp points to.
  lemma TakeWhole(mem: Mem, led: Ledger, nodes: seq<nat>, base: nat, brk: nat, k: nat, prevp: nat, p: nat, mem': Mem,
                  led': Ledger, nodes': seq<nat>)
    requires Sound(Whole, mem, led, nodes, base, brk) && k + 1 < |nodes| && prevp == nodes[k] && p == nodes[k + 1]
             && prevp in mem && p in mem
    requires mem' == mem[prevp := mem[prevp].(ptr := mem[p].ptr)] && led' == led.(live := led.live + {p})
             && nodes' == WithoutNode(nodes, k + 1)
    ensures p !in led.live && Sound(Whole, mem', led', nodes', base, brk) && LiveKept(mem, mem', led)
  {
    Unlink(mem, nodes, base, k, prevp, p, mem', nodes');
    ListsWithoutNode(mem, nodes, FreeBlocks(led), -1, k + 1);
    assert FreeBlocks(led') == FreeBlocks(led) - {p};
    WriteFree(mem, led, base, brk, prevp, mem[prevp].(ptr := mem[p].ptr));
  }

  lemma NotANode(nodes: seq<nat>, free: set<nat>, x: nat)
    requires |nodes| > 0 && Lists(nodes, free) && x != nodes[0] && x !in free
    ensures x !in nodes
  {
  }

  lemma TailHeads(mem: Mem, led: Ledger, base: nat, brk: nat, p: nat, n: nat, q: nat, h: Header, mem1: Mem, mem': Mem,
                  led': Ledger)
    requires Heads(mem, led, base, brk) && p in FreeBlocks(led) && q !in led.blocks
    requires p in led.units && led.units[p] == p && q in led.units && led.units[q] == p && q > p && 0 < n < mem[p].size
             && h.size == n
    requires q == p + mem[p].size - n && mem1 == mem[p := mem[p].(size := mem[p].size - n)] && mem' == mem1[q := h]
    requires led' == Ledger(CutFrom(led.units, p, q), led.blocks[p := q - p][q := n], led.live + {q})
    ensures Heads(mem', led', base, brk) && LiveKept(mem, mem', led) && FreeBlocks(led') == FreeBlocks(led)
  {
  }

  // malloc cuts q off the end of node p.
  lemma TakeTail(mem: Mem, led: Ledger, nodes: seq<nat>, base: nat, brk: nat, k: nat, p: nat, n: nat, q: nat,
                 h: Header, mem1: Mem, mem': Mem, led': Ledger)
    requires Sound(Whole, mem, led, nodes, base, brk) && 0 < k < |nodes| && p == nodes[k] && p in mem && p in led.blocks
    requires 0 < n < mem[p].size && q == p + mem[p].size - n && h.size == n
    requires mem1 == mem[p := mem[p].(size := mem[p].size - n)] && mem' == mem1[q := h]
    requires led' == Ledger(CutFrom(led.units, p, q), led.blocks[p := q - p][q := n], led.live + {q})
    ensures q !in led.live && Sound(Whole, mem', led', nodes, base, brk) && LiveKept(mem, mem', led)
  {
    AboveBase(mem, led, base, brk, p);
    Cut(led.units, led.blocks, p, q, n, led'.units, led'.blocks);
    TailHeads(mem, led, base, brk, p, n, q, h, mem1, mem', led');
    Shrink(mem, nodes, base, k, p, n, mem1);
    NotANode(nodes, FreeBlocks(led), q);
    Unlisted(mem1, nodes, base, q, h, mem');
  }

  // morecore receives n units at the break.
  lemma Granted(mem: Mem, led: Ledger, nodes: seq<nat>, base: nat, brk: nat, n: nat, h: Header, mem': Mem, led': Ledger)
    requires Sound(Whole, mem, led, nodes, base, brk) && n > 0 && h.size == n && base < brk
    requires mem' == mem[brk := h]
    requires led' == Ledger(Supply(led.units, brk, n), led.blocks[brk := n], led.live + {brk})
    ensures brk !in led.blocks && Sound(Whole, mem', led', nodes, base, brk + n) && LiveKept(mem, mem', led)
  {
    Add(led.units, led.blocks, brk, n, led'.units, led'.blocks);
    NotANode(nodes, FreeBlocks(led), brk);
    Unlisted(mem, nodes, base, brk, h, mem');
    assert FreeBlocks(led') == FreeBlocks(led);
  }

  lemma KeptTwice(mem: Mem, mem1: Mem, mem2: Mem, led: Ledger, led1: Ledger)
    requires LiveKept(mem, mem1, led) && LiveKept(mem1, mem2, led1)
    requires forall u :: u in led.units && led.units[u] in led.live ==> u in led1.units && led1.units[u] in led1.live
    ensures LiveKept(mem, mem2, led)
  {
  }

  // The live blocks of led' are as in led, and no unit was gained or lost.
  ghost predicate SameLive(led: Ledger, led': Ledger) {
    && led'.units.Keys == led.units.Keys
    && (forall u :: u in led.units && led.units[u] in led'.live ==> led'.units[u] == led.units[u])
    && (forall b :: b in led'.live ==> b in led.blocks && b in led'.blocks && led'.blocks[b] == led.blocks[b])
  }

  lemma AbsorbSame(led: Ledger, a: nat, b: nat)
    requires a in FreeBlocks(led) && b in FreeBlocks(led) && a != b && led.live <= led.blocks.Keys
    ensures SameLive(led, Absorbed(led, a, b))
  {
  }

  lemma SameTwice(led: Ledger, led1: Ledger, led2: Ledger)
    requires SameLive(led, led1) && SameLive(led1, led2) && led2.live == led1.live
    ensures SameLive(led, led2)
  {
  }

  lemma NodesPositive(mem: Mem, nodes: seq<nat>, base: nat, p: nat)
    requires FreeRing(mem, nodes, base) && p in nodes && base > 0
    ensures p > 0
  {
    var i :| 0 <= i < |nodes| && nodes[i] == p;
    if i > 0 { assert Ordered(mem, nodes, -1, 0, i); }
  }

  // Steps from node k to node x around the list, at least one.
  function Steps(k: nat, x: nat, n: nat): nat
    requires k < n && x < n
  {
    if x > k then x - k else x - k + n
  }

  // free's search loop ends, at the node after which bp belongs.
  method FindPlace(mem: Mem, freep: nat, bp: nat, ghost nodes: seq<nat>, ghost base: nat) returns (p: nat, ghost t: nat)
    requires freep in nodes && FreeRing(mem, nodes, base) && base < bp && bp !in nodes
    ensures Place(nodes, t, bp) && p == nodes[t] && p in mem && mem[p].ptr == After(nodes, t)
  {
    t := PlaceExists(mem, nodes, base, bp, 0);
    ghost var k :| 0 <= k < |nodes| && nodes[k] == freep;
    p := freep;
    while !(bp > p && bp < mem[p].ptr)
      invariant 0 <= k < |nodes| && p == nodes[k]
      decreases if k == t then 0 else Steps(k, t, |nodes|)
    {
      assert Points(mem, nodes, k);
      StopsAtPlace(mem, nodes, base, k, bp);
      PlaceUnique(mem, nodes, k, t, bp);
      if p >= mem[p].ptr && (bp > p || bp < mem[p].ptr) { break; }
      p := mem[p].ptr;
      k := if k + 1 < |nodes| then k + 1 else 0;
    }
    assert Points(mem, nodes, k);
    StopsAtPlace(mem, nodes, base, k, bp);
    t := k;
  }

  // Every node but x was a node before, of the same size.
  ghost predicate OthersSame(mem: Mem, nodes: seq<nat>, mem': Mem, nodes': seq<nat>, x: nat) {
    forall y :: y in nodes' && y != x ==> y in nodes && y in mem && y in mem' && mem'[y].size == mem[y].size
  }

  // With bp a node, and the others as they were.
  lemma NewNodeOthers(mem: Mem, nodes: seq<nat>, bp: nat, mem': Mem, nodes': seq<nat>)
    requires bp in mem' && mem' == mem[bp := mem'[bp]] && (forall i :: 0 <= i < |nodes| ==> nodes[i] in mem)
    requires forall i :: 0 <= i < |nodes'| ==> nodes'[i] == bp || nodes'[i] in nodes
    ensures OthersSame(mem, nodes, mem', nodes', bp)
  {
  }

  // free's first step: bp is joined with the next node if they touch.
  method JoinNext(mem0: Mem, p: nat, bp: nat, ghost led: Ledger, ghost nodes: seq<nat>, ghost base: nat,
                  ghost brk: nat, ghost t: nat)
    returns (mem: Mem, ghost led': Ledger, ghost nodes': seq<nat>)
    requires Sound(Whole, mem0, led, nodes, base, brk) && bp in led.live && Place(nodes, t, bp) && p == nodes[t]
    requires p in mem0 && mem0[p].ptr == After(nodes, t) && bp in mem0
    ensures Sound(Half(t, p, bp), mem, led', nodes', base, brk) && bp in mem && mem[bp].size >= mem0[bp].size
    ensures led'.live == led.live - {bp} && SameLive(led, led') && LiveKept(mem0, mem, led.(live := led.live - {bp}))
    ensures OthersSame(mem0, nodes, mem, nodes', bp)
  {
    ghost var led1 := led.(live := led.live - {bp});
    mem := mem0;
    var q := mem[p].ptr;
    if bp + mem[bp].size == q {
      NextBlock(mem, led, nodes, base, brk, t, bp);
      mem := mem[bp := Header(mem[q].ptr, mem[bp].size + mem[q].size)];
      led', nodes' := Absorbed(led1, bp, q), nodes[t + 1 := bp];
      FreeMergeUp(mem0, led, nodes, base, brk, t, p, bp, q, mem, led1, led', nodes');
      NewNodeOthers(mem0, nodes, bp, mem, nodes');
    } else {
      mem := mem[bp := mem[bp].(ptr := q)];
      led', nodes' := led1, WithNode(nodes, t, bp);
      FreeInsert(mem0, led, nodes, base, brk, t, p, bp, mem, led', nodes');
      NewNodeOthers(mem0, nodes, bp, mem, nodes');
    }
  }

  // With bp, at index t + 1, joined to p before it.
  lemma JoinedOthers(mem: Mem, nodes: seq<nat>, base: nat, t: nat, p: nat, bp: nat, mem': Mem, nodes': seq<nat>)
    requires HalfLinked(mem, nodes, base, t) && nodes[t] == p && nodes[t + 1] == bp && p in mem
    requires p in mem' && mem' == mem[p := mem'[p]] && nodes' == WithoutNode(nodes, t + 1)
    ensures OthersSame(mem, nodes, mem', nodes', p) && bp !in nodes'
  {
    forall y | y in nodes' ensures y != bp && y in nodes {
      var i :| 0 <= i < |nodes'| && nodes'[i] == y;
      var j := if i < t + 1 then i else i + 1;
      assert nodes[j] == y;
      NodesDistinct(mem, nodes, t, j, t + 1);
    }
  }

  // free's second step: the node before is joined with bp if they touch; g is the node that now holds bp.
  method JoinPrev(mem0: Mem, p: nat, bp: nat, ghost led: Ledger, ghost nodes: seq<nat>, ghost base: nat,
                  ghost brk: nat, ghost t: nat)
    returns (mem: Mem, ghost led': Ledger, ghost nodes': seq<nat>, ghost g: nat)
    requires Sound(Half(t, p, bp), mem0, led, nodes, base, brk) && p in mem0 && bp in mem0
    ensures Sound(Whole, mem, led', nodes', base, brk) && p in nodes'
    ensures g < |nodes'| && nodes'[g] in mem && nodes'[g] <= bp && nodes'[g] + mem[nodes'[g]].size == bp + mem0[bp].size
    ensures led'.live == led.live && SameLive(led, led') && LiveKept(mem0, mem, led)
    ensures bp !in nodes' || nodes'[g] == bp
    ensures OthersSame(mem0, nodes, mem, nodes', nodes'[g])
  {
    NodeBlocks(mem0, led, nodes, base, t);
    mem := mem0;
    if p + mem[p].size == bp {
      mem := mem[p := Header(mem[bp].ptr, mem[p].size + mem[bp].size)];
      led', nodes', g := Absorbed(led, p, bp), WithoutNode(nodes, t + 1), t;
      FreeMergeDown(mem0, led, nodes, base, brk, t, p, bp, mem, led', nodes');
      JoinedOthers(mem0, nodes, base, t, p, bp, mem, nodes');
    } else {
      mem := mem[p := mem[p].(ptr := bp)];
      led', nodes', g := led, nodes, t + 1;
      FreeLink(mem0, led, nodes, base, brk, t, p, bp, mem);
    }
    assert nodes'[t] == p;
  }

  // The free list and the ledger together.
  datatype Book = Book(nodes: seq<nat>, led: Ledger)

  const EmptyBook := Book([], Ledger(map[], map[], {}))

  // Before the first malloc freep is null.
  ghost predicate Ready(mem: Mem, freep: nat, book: Book, base: nat, brk: nat) {
    && 0 < base < brk
    && (freep == 0 ==> book == EmptyBook)
    && (freep != 0 ==> freep in book.nodes && Sound(Whole, mem, book.led, book.nodes, base, brk))
  }

  // What free(bp + 1) does: bp is no longer live, every other live block and its words stay, node g of the list
  // now covers bp, and every other node was one before, of the same size.
  ghost predicate Freed(mem: Mem, book: Book, bp: nat, mem': Mem, book': Book, g: nat) {
    && book'.led.live == book.led.live - {bp} && SameLive(book.led, book'.led)
    && LiveKept(mem, mem', book.led.(live := book.led.live - {bp}))
    && g < |book'.nodes| && bp in mem && Spans(mem', book'.nodes[g], bp, mem[bp].size)
    && OthersSame(mem, book.nodes, mem', book'.nodes, book'.nodes[g])
  }

  // The block at x reaches over the n units from bp on.
  ghost predicate Spans(mem: Mem, x: nat, bp: nat, n: nat) {
    x in mem && x <= bp && bp + n <= x + mem[x].size
  }

  // bp belongs right after the node p.
  ghost predicate BelongsAfter(nodes: seq<nat>, p: nat, bp: nat) {
    exists t: nat :: Place(nodes, t, bp) && nodes[t] == p
  }

  // The body of free.
  method PutBack(mem0: Mem, freep: nat, bp: nat, ghost book: Book, ghost base: nat, ghost brk: nat)
    returns (mem: Mem, p: nat, ghost book': Book, ghost g: nat)
    requires Ready(mem0, freep, book, base, brk) && bp in book.led.live
    ensures p != 0 && Ready(mem, p, book', base, brk) && Freed(mem0, book, bp, mem, book', g)
    ensures BelongsAfter(book.nodes, p, bp)
  {
    ghost var led, nodes := book.led, book.nodes;
    ClearOf(mem0, led, nodes, base, brk, bp);
    ghost var t, led1, nodes1, led', nodes';
    p, t := FindPlace(mem0, freep, bp, nodes, base);
    var mem1;
    mem1, led1, nodes1 := JoinNext(mem0, p, bp, led, nodes, base, brk, t);
    mem, led', nodes', g := JoinPrev(mem1, p, bp, led1, nodes1, base, brk, t);
    KeptTwice(mem0, mem1, mem, led.(live := led.live - {bp}), led1);
    SameTwice(led, led1, led');
    NodesPositive(mem, nodes', base, p);
    book' := Book(nodes', led');
  }

  // The blocks in live are in both ledgers, with the same units.
  ghost predicate StillLive(led: Ledger, led': Ledger, live: set<nat>) {
    && (forall u :: u in led.units && led.units[u] in live ==> u in led'.units && led'.units[u] == led.units[u])
    && (forall b :: b in live ==> b in led.blocks && b in led'.blocks && led'.blocks[b] == led.blocks[b])
  }

  // What malloc may do: one more block b of n units is live, and every other live block and its words stay.
  ghost predicate Taken(mem: Mem, led: Ledger, n: nat, mem': Mem, led': Ledger, b: nat) {
    && b !in led.live && led'.live == led.live + {b} && b in led'.blocks && led'.blocks[b] == n
    && StillLive(led, led', led.live) && LiveKept(mem, mem', led)
  }

  // The block b is the last n units of node p, which is taken off the list if nothing remains of it.
  ghost predicate TookFrom(mem: Mem, nodes: seq<nat>, n: nat, p: nat, mem': Mem, nodes': seq<nat>, b: nat) {
    && p in nodes && p in mem && b + n == p + mem[p].size
    && (mem[p].size == n ==> forall x :: x in nodes' <==> x in nodes && x != p)
    && (mem[p].size > n ==> nodes' == nodes && p in mem' && mem'[p].size == mem[p].size - n)
  }

  // malloc takes n units from node p, which prevp points to.
  method Take(mem0: Mem, prevp: nat, p: nat, n: nat, ghost book: Book, ghost base: nat, ghost brk: nat, ghost k: nat)
    returns (mem: Mem, b: nat, ghost book': Book)
    requires 0 < base < brk && Sound(Whole, mem0, book.led, book.nodes, base, brk)
    requires k < |book.nodes| && prevp == book.nodes[k] && p == After(book.nodes, k) && prevp in mem0 && p in mem0
             && mem0[p].size >= n > 0
    ensures prevp != 0 && Ready(mem, prevp, book', base, brk) && Taken(mem0, book.led, n, mem, book'.led, b)
    ensures book'.led.units.Keys == book.led.units.Keys && b != 0
    ensures TookFrom(mem0, book.nodes, n, p, mem, book'.nodes, b)
  {
    if mem0[p].size == n {
      mem, book' := TakeNode(mem0, prevp, p, n, book, base, brk, k);
      b := p;
    } else {
      mem, b, book' := CutNode(mem0, prevp, p, n, book, base, brk, k);
    }
    NodesPositive(mem, book'.nodes, base, prevp);
    AboveBase(mem, book'.led, base, brk, b);
  }

  method TakeNode(mem0: Mem, prevp: nat, p: nat, n: nat, ghost book: Book, ghost base: nat, ghost brk: nat,
                  ghost k: nat)
    returns (mem: Mem, ghost book': Book)
    requires Sound(Whole, mem0, book.led, book.nodes, base, brk)
    requires k < |book.nodes| && prevp == book.nodes[k] && p == After(book.nodes, k) && prevp in mem0 && p in mem0
             && mem0[p].size == n > 0
    ensures prevp in book'.nodes && Sound(Whole, mem, book'.led, book'.nodes, base, brk)
            && Taken(mem0, book.led, n, mem, book'.led, p)
    ensures book'.led.units.Keys == book.led.units.Keys && TookFrom(mem0, book.nodes, n, p, mem, book'.nodes, p)
  {
    ghost var led, nodes := book.led, book.nodes;
    assert k + 1 < |nodes|;
    mem := mem0[prevp := mem0[prevp].(ptr := mem0[p].ptr)];
    book' := Book(WithoutNode(nodes, k + 1), led.(live := led.live + {p}));
    TakeWhole(mem0, led, nodes, base, brk, k, prevp, p, mem, book'.led, book'.nodes);
    assert book'.nodes[k] == prevp;
    OffTheList(mem0, nodes, k + 1, book'.nodes);
  }

  lemma OffTheList(mem: Mem, nodes: seq<nat>, k: nat, nodes': seq<nat>)
    requires ApartBut(mem, nodes, -1) && k < |nodes| && nodes' == WithoutNode(nodes, k)
    ensures forall x :: x in nodes' <==> x in nodes && x != nodes[k]
  {
    forall i | 0 <= i < |nodes'| ensures nodes'[i] != nodes[k] && nodes'[i] in nodes {
      NodesDistinct(mem, nodes, -1, if i < k then i else i + 1, k);
      assert nodes'[i] == nodes[if i < k then i else i + 1];
    }
    forall x | x in nodes && x != nodes[k] ensures x in nodes' {
      var i :| 0 <= i < |nodes| && nodes[i] == x;
      assert nodes'[if i < k then i else i - 1] == x;
    }
  }

  method CutNode(mem0: Mem, prevp: nat, p: nat, n: nat, ghost book: Book, ghost base: nat, ghost brk: nat, ghost k: nat)
    returns (mem: Mem, b: nat, ghost book': Book)
    requires Sound(Whole, mem0, book.led, book.nodes, base, brk)
    requires k < |book.nodes| && prevp == book.nodes[k] && p == After(book.nodes, k) && prevp in mem0 && p in mem0
             && mem0[p].size > n > 0
    ensures prevp in book'.nodes && Sound(Whole, mem, book'.led, book'.nodes, base, brk)
            && Taken(mem0, book.led, n, mem, book'.led, b)
    ensures book'.led.units.Keys == book.led.units.Keys && TookFrom(mem0, book.nodes, n, p, mem, book'.nodes, b)
  {
    ghost var led, nodes := book.led, book.nodes;
    assert k + 1 < |nodes|;
    mem := mem0[p := mem0[p].(size := mem0[p].size - n)];
    ghost var mem1 := mem;
    b := p + mem[p].size;
    var h := Header(if b in mem then mem[b].ptr else 0, n);   // the word holds whatever it held
    mem := mem[b := h];
    book' := Book(nodes, Ledger(CutFrom(led.units, p, b), led.blocks[p := b - p][b := n], led.live + {b}));
    TakeTail(mem0, led, nodes, base, brk, k + 1, p, n, b, h, mem1, mem, book'.led);
  }

  lemma SupplyKeeps(units: Units, hp: nat, nu: nat)
    requires forall u :: u in units ==> u < hp
    ensures Supply(units, hp, nu).Keys == units.Keys + Range(hp, nu)
    ensures forall u :: u in units ==> Supply(units, hp, nu)[u] == units[u]
  {
  }

  // A block that was granted and at once freed again leaves the others alone.
  lemma MoreCoreKept(led: Ledger, led1: Ledger, led2: Ledger, mem: Mem, mem1: Mem, mem2: Mem, hp: nat, nu: nat)
    requires led.live <= led.blocks.Keys && hp !in led.blocks
    requires (forall u :: u in led.units ==> u in led1.units && led1.units[u] == led.units[u])
    requires led1.blocks == led.blocks[hp := nu] && led1.live == led.live + {hp}
    requires led2.live == led1.live - {hp} && SameLive(led1, led2)
    requires LiveKept(mem, mem1, led) && LiveKept(mem1, mem2, led1.(live := led1.live - {hp}))
    ensures led2.live == led.live && StillLive(led, led2, led.live) && LiveKept(mem, mem2, led)
  {
    assert led1.live - {hp} == led.live;
    KeptTwice(mem, mem1, mem2, led, led1.(live := led1.live - {hp}));
  }

  // Units handed over by sbrk.
  function CoreSize(nu: nat): nat { if nu < 4096 then 4096 else nu }

  // A node of n units or more is the one that ends at the break.
  ghost predicate OnlyTop(mem: Mem, nodes: seq<nat>, n: nat, brk: nat) {
    forall x :: x in nodes && x in mem && mem[x].size >= n ==> x + mem[x].size == brk
  }

  lemma TopOnly(mem0: Mem, nodes: seq<nat>, led: Ledger, hp: nat, nu: nat, n: nat, mem1: Mem, mem: Mem,
                nodes': seq<nat>,
                led': Ledger, base: nat, brk: nat, top: nat)
    requires AllSmall(mem0, nodes, n) && hp !in nodes && hp in mem1 && mem1 == mem0[hp := mem1[hp]]
    requires nu >= n > 0 && hp + nu == brk
    requires Sound(Whole, mem, led', nodes', base, brk) && OthersSame(mem1, nodes, mem, nodes', top)
    requires top in nodes' && Spans(mem, top, hp, nu)
    ensures OnlyTop(mem, nodes', n, brk)
  {
    forall x | x in nodes' && x in mem && mem[x].size >= n ensures x + mem[x].size == brk {
      if x == top {
        EndsBelow(mem, led', base, brk, top);
      }
    }
  }

  lemma EndsBelow(mem: Mem, led: Ledger, base: nat, brk: nat, b: nat)
    requires Books(mem, led, base, brk) && b in led.blocks
    ensures b + led.blocks[b] <= brk
  {
    assert Covers(led.units, b, led.blocks[b]);
    assert b + led.blocks[b] - 1 in led.units;
  }

  // morecore; granted says whether sbrk succeeds. The new units start at the break.
  method MoreCore(mem0: Mem, freep0: nat, brk0: nat, nunits: nat, granted: bool, ghost book: Book, ghost base: nat)
    returns (mem: Mem, freep: nat, brk: nat, ghost book': Book, ghost g: nat)
    requires Ready(mem0, freep0, book, base, brk0) && freep0 != 0
    ensures !granted ==> freep == 0 && mem == mem0 && brk == brk0 && book' == book
    ensures granted ==> freep != 0 && Ready(mem, freep, book', base, brk) && brk == brk0 + CoreSize(nunits)
    ensures granted ==> brk == brk0 + if nunits < 4096 then 4096 else nunits
    ensures granted ==> g < |book'.nodes| && book'.nodes[g] in mem && mem[book'.nodes[g]].size >= nunits
    ensures granted && AllSmall(mem0, book.nodes, nunits) ==> OnlyTop(mem, book'.nodes, nunits, brk)
    ensures granted ==>
              book'.led.live == book.led.live && StillLive(book.led, book'.led, book.led.live)
                  && LiveKept(mem0, mem, book.led)
    ensures granted ==> book'.led.units.Keys == book.led.units.Keys + Range(brk0, CoreSize(nunits))
  {
    mem, brk, book', g := mem0, brk0, book, 0;
    var nu := CoreSize(nunits);
    if !granted { freep := 0; return; }
    var hp := brk0;
    brk := brk0 + nu;
    var h := Header(if hp in mem then mem[hp].ptr else 0, nu);
    mem := mem[hp := h];
    ghost var led1 := Ledger(Supply(book.led.units, hp, nu), book.led.blocks[hp := nu], book.led.live + {hp});
    Granted(mem0, book.led, book.nodes, base, brk0, nu, h, mem, led1);
    SupplyKeeps(book.led.units, hp, nu);
    ghost var mem1 := mem;
    mem, freep, book', g := PutBack(mem, freep0, hp, Book(book.nodes, led1), base, brk);
    MoreCoreKept(book.led, led1, book'.led, mem0, mem1, mem, hp, nu);
    if AllSmall(mem0, book.nodes, nunits) {
      NotANode(book.nodes, FreeBlocks(book.led), hp);
      TopOnly(mem0, book.nodes, book.led, hp, nu, nunits, mem1, mem, book'.nodes, book'.led, base, brk, book'.nodes[g]);
    }
  }

  // Nothing live has changed.
  ghost predicate Since(mem: Mem, led: Ledger, mem': Mem, led': Ledger) {
    led'.live == led.live && StillLive(led, led', led.live) && LiveKept(mem, mem', led)
  }

  lemma TakenSince(mem: Mem, led: Ledger, mem1: Mem, led1: Ledger, n: nat, mem2: Mem, led2: Ledger, b: nat)
    requires Since(mem, led, mem1, led1) && Taken(mem1, led1, n, mem2, led2, b)
    ensures Taken(mem, led, n, mem2, led2, b)
  {
    KeptTwice(mem, mem1, mem2, led, led1);
  }

  // The list of only base.
  lemma FirstList(mem: Mem, base: nat, brk: nat)
    requires 0 < base < brk
    ensures Ready(mem[base := Header(base, 0)], base, Book([base], Ledger(map[], map[], {})), base, brk)
  {
    var mem' := mem[base := Header(base, 0)];
    assert [base][0] == base && Points(mem', [base], 0);
  }

  // All free blocks are smaller than n units.
  ghost predicate NoneFits(led: Ledger, n: nat) {
    forall b :: b in FreeBlocks(led) ==> led.blocks[b] < n
  }

  // Every node of the list is smaller than n units.
  ghost predicate AllSmall(mem: Mem, nodes: seq<nat>, n: nat) {
    forall i :: 0 <= i < |nodes| ==> nodes[i] in mem && mem[nodes[i]].size < n
  }

  lemma NoneFitsList(mem: Mem, book: Book, base: nat, brk: nat, n: nat)
    requires Sound(Whole, mem, book.led, book.nodes, base, brk) && AllSmall(mem, book.nodes, n)
    ensures NoneFits(book.led, n)
  {
    forall b | b in FreeBlocks(book.led) ensures book.led.blocks[b] < n {
      var i :| 0 <= i < |book.nodes| && book.nodes[i] == b;
    }
  }

  lemma OneFits(mem: Mem, book: Book, base: nat, brk: nat, n: nat, p: nat)
    requires Sound(Whole, mem, book.led, book.nodes, base, brk) && p in book.nodes && p in mem && mem[p].size >= n > 0
    ensures !NoneFits(book.led, n)
  {
    assert p in FreeBlocks(book.led) && book.led.blocks[p] >= n;
  }

  // On the walk that starts after the node at f, the node after the one at k is the first of at least n units.
  ghost predicate FirstFit(mem: Mem, nodes: seq<nat>, f: nat, n: nat, k: nat) {
    && f < |nodes| && k < |nodes| && After(nodes, k) in mem && mem[After(nodes, k)].size >= n
    && forall i :: 0 <= i < |nodes| && Steps(f, i, |nodes|) < Steps(f, NextIndex(k, |nodes|), |nodes|) ==>
         nodes[i] in mem && mem[nodes[i]].size < n
  }

  function NextIndex(k: nat, n: nat): nat { if k + 1 < n then k + 1 else 0 }

  // The walk from freep on comes to p, through prevp, as the first node of at least n units.
  ghost predicate Chosen(mem: Mem, nodes: seq<nat>, freep: nat, n: nat, prevp: nat, p: nat) {
    exists f: nat, k: nat ::
        FirstFit(mem, nodes, f, n, k) && nodes[f] == freep && nodes[k] == prevp && After(nodes, k) == p
  }

  // malloc's walk once around the list, from the node after freep to freep itself, up to the first
  // node of at least n units.
  method Search(mem: Mem, freep: nat, n: nat, ghost nodes: seq<nat>, ghost base: nat)
    returns (found: bool, prevp: nat, p: nat, ghost k: nat)
    requires FreeRing(mem, nodes, base) && freep in nodes
    ensures k < |nodes| && prevp == nodes[k] && p == After(nodes, k) && prevp in mem && p in mem
    ensures found ==> Chosen(mem, nodes, freep, n, prevp, p) && mem[p].size >= n
    ensures !found ==> p == freep && AllSmall(mem, nodes, n)
  {
    ghost var f :| 0 <= f < |nodes| && nodes[f] == freep;
    k := f;
    assert Points(mem, nodes, k);
    prevp := freep;
    p := mem[prevp].ptr;
    found := false;
    while true
      invariant 0 <= k < |nodes| && prevp == nodes[k] && p == After(nodes, k)
      invariant forall i :: 0 <= i < |nodes| && Steps(f, i, |nodes|) <= |nodes| - Steps(k, f, |nodes|) ==>
                  nodes[i] in mem && mem[nodes[i]].size < n
      decreases Steps(k, f, |nodes|)
    {
      ghost var k' := if k + 1 < |nodes| then k + 1 else 0;
      assert Points(mem, nodes, k') && nodes[k'] == p;
      if mem[p].size >= n {
        assert FirstFit(mem, nodes, f, n, k);
        found := true;
        return;
      }
      if p == freep {
        if k' != f { NodesDistinct(mem, nodes, -1, k', f); }
        return;
      }
      prevp := p;
      p := mem[p].ptr;
      k := k';
    }
  }

  // malloc without morecore.
  method TryTake(mem0: Mem, freep0: nat, n: nat, ghost book: Book, ghost base: nat, ghost brk: nat)
    returns (found: bool, mem: Mem, freep: nat, b: nat, ghost book': Book, ghost p: nat)
    requires Ready(mem0, freep0, book, base, brk) && freep0 != 0 && n > 0
    ensures found ==>
              Chosen(mem0, book.nodes, freep0, n, freep, p) && TookFrom(mem0, book.nodes, n, p, mem, book'.nodes, b)
    ensures found <==> !NoneFits(book.led, n)
    ensures found ==> freep != 0 && Ready(mem, freep, book', base, brk) && Taken(mem0, book.led, n, mem, book'.led, b)
    ensures found ==> book'.led.units.Keys == book.led.units.Keys && b != 0
    ensures !found ==> mem == mem0 && freep == freep0 && b == 0 && book' == book && AllSmall(mem0, book.nodes, n)
    ensures (exists i :: 0 <= i < |book.nodes| && book.nodes[i] in mem0 && mem0[book.nodes[i]].size >= n) ==> found
  {
    var q;
    ghost var k;
    found, freep, q, k := Search(mem0, freep0, n, book.nodes, base);
    p := q;
    if found {
      OneFits(mem0, book, base, brk, n, q);
      mem, b, book' := Take(mem0, freep, q, n, book, base, brk, k);
    } else {
      NoneFitsList(mem0, book, base, brk, n);
      mem, freep, b, book' := mem0, freep0, 0, book;
    }
  }

  method FirstUse(mem0: Mem, freep0: nat, base: nat, ghost book0: Book, ghost brk: nat)
    returns (mem: Mem, freep: nat, ghost book: Book)
    requires Ready(mem0, freep0, book0, base, brk)
    ensures Ready(mem, freep, book, base, brk) && freep != 0 && book.led == book0.led
            && Since(mem0, book0.led, mem, book.led)
    ensures freep0 != 0 ==> mem == mem0 && freep == freep0 && book == book0
  {
    mem, freep, book := mem0, freep0, book0;
    if freep == 0 {
      FirstList(mem, base, brk);
      mem, freep, book := mem[base := Header(base, 0)], base, Book([base], book0.led);
    }
  }

  // The units supplied grow exactly as the break does.
  ghost predicate Grown(led: Ledger, led': Ledger, brk: nat, brk': nat, n: nat) {
    brk' == brk + n && led'.units.Keys == led.units.Keys + Range(brk, n)
  }

  // The node before the one that ends at the break is the last but one.
  lemma LastBut(mem: Mem, book: Book, base: nat, brk: nat, k: nat)
    requires Sound(Whole, mem, book.led, book.nodes, base, brk) && 0 < base < brk && k < |book.nodes|
    requires var p := After(book.nodes, k); p in mem && mem[p].size > 0 && p + mem[p].size == brk
    ensures forall x :: x in book.nodes && x > book.nodes[k] ==> x == After(book.nodes, k)
  {
    var nodes := book.nodes;
    assert k + 1 < |nodes|;
    forall j | 0 <= j < |nodes| ensures j <= k + 1 && (j <= k ==> nodes[j] <= nodes[k]) {
      if j > k + 1 {
        assert Ordered(mem, nodes, -1, k + 1, j);
        AboveBase(mem, book.led, base, brk, nodes[j]);
      } else if j < k {
        assert Ordered(mem, nodes, -1, j, k);
      }
    }
  }

  // freep is the node before the rest of the one b was cut from, or the last if nothing is left of it.
  ghost predicate BeforeRest(mem: Mem, nodes: seq<nat>, freep: nat, b: nat) {
    forall x :: x in nodes && x > freep ==> x in mem && x + mem[x].size == b
  }

  lemma RestAfter(mem: Mem, book: Book, base: nat, brk: nat, freep: nat, n: nat, prevp: nat, p: nat, mem': Mem,
                  nodes': seq<nat>, b: nat)
    requires Sound(Whole, mem, book.led, book.nodes, base, brk) && 0 < base < brk && n > 0
    requires Chosen(mem, book.nodes, freep, n, prevp, p) && OnlyTop(mem, book.nodes, n, brk)
    requires TookFrom(mem, book.nodes, n, p, mem', nodes', b) && (forall x :: x in nodes' ==> x in book.nodes)
    ensures BeforeRest(mem', nodes', prevp, b) && b + n == brk
  {
    var f: nat, k: nat :| FirstFit(mem, book.nodes, f, n, k) && book.nodes[f] == freep && book.nodes[k] == prevp
                          && After(book.nodes, k) == p;
    LastBut(mem, book, base, brk, k);
  }

  // malloc when no free block fits: after morecore the walk starts again at freep, and finds a block.
  method GrowAndTake(mem0: Mem, freep0: nat, brk0: nat, nunits: nat, granted: bool, ghost book0: Book, ghost base: nat)
    returns (mem: Mem, freep: nat, brk: nat, b: nat, ghost book: Book)
    requires Ready(mem0, freep0, book0, base, brk0) && freep0 != 0 && nunits > 0 && AllSmall(mem0, book0.nodes, nunits)
    ensures Ready(mem, freep, book, base, brk) && freep != 0
    ensures granted ==> b + nunits == brk && BeforeRest(mem, book.nodes, freep, b)
    ensures !granted ==> b == 0 && mem == mem0 && freep == freep0 && brk == brk0 && book == book0
    ensures granted ==>
              b != 0 && Taken(mem0, book0.led, nunits, mem, book.led, b)
                  && Grown(book0.led, book.led, brk0, brk, CoreSize(nunits))
  {
    ghost var g;
    mem, freep, brk, book, g := MoreCore(mem0, freep0, brk0, nunits, granted, book0, base);
    if freep == 0 { return mem0, freep0, brk0, 0, book0; }
    ghost var mem1, led1, book1, freep1 := mem, book.led, book, freep;
    var found;
    ghost var p;
    found, mem, freep, b, book, p := TryTake(mem, freep, nunits, book, base, brk);
    RestAfter(mem1, book1, base, brk, freep1, nunits, freep, p, mem, book.nodes, b);
    TakenSince(mem0, book0.led, mem1, led1, nunits, mem, book.led, b);
  }

  // What malloc does for n units, by whether a free block fits and whether sbrk is willing: it takes the first
  // fit after freep and leaves the break alone; or it takes the end of what it gets from sbrk; or it fails and
  // changes nothing.
  ghost predicate Outcome(mem: Mem, freep: nat, book: Book, brk: nat, n: nat, granted: bool,
                          mem': Mem, freep': nat, book': Book, brk': nat, b: nat) {
    var led, led' := book.led, book'.led;
    && (!NoneFits(led, n) ==>
          && b != 0 && Taken(mem, led, n, mem', led', b) && Grown(led, led', brk, brk', 0)
          && exists p: nat :: Chosen(mem, book.nodes, freep, n, freep', p)
                              && TookFrom(mem, book.nodes, n, p, mem', book'.nodes, b))
    && (NoneFits(led, n) && granted ==>
          b != 0 && Taken(mem, led, n, mem', led', b) && Grown(led, led', brk, brk', CoreSize(n))
          && b + n == brk' == brk + (if n < 4096 then 4096 else n) && BeforeRest(mem', book'.nodes, freep', b))
    && (NoneFits(led, n) && !granted ==>
          && b == 0 && led' == led && LiveKept(mem, mem', led) && Grown(led, led', brk, brk', 0)
          && (freep != 0 ==> mem' == mem && freep' == freep && book' == book))
  }

  // malloc. granted says whether sbrk succeeds if it is called; b is 0 for failure and the start of
  // the new block otherwise.
  method Allocate(mem0: Mem, freep0: nat, brk0: nat, nunits: nat, granted: bool, ghost book0: Book, base: nat)
    returns (mem: Mem, freep: nat, brk: nat, b: nat, ghost book: Book)
    requires Ready(mem0, freep0, book0, base, brk0) && nunits > 0
    ensures Ready(mem, freep, book, base, brk) && freep != 0
    ensures Outcome(mem0, freep0, book0, brk0, nunits, granted, mem, freep, book, brk, b)
  {
    var found;
    ghost var p;
    brk := brk0;
    mem, freep, book := FirstUse(mem0, freep0, base, book0, brk);
    ghost var mem1, led1 := mem, book.led;
    found, mem, freep, b, book, p := TryTake(mem, freep, nunits, book, base, brk);
    if !found {
      mem, freep, brk, b, book := GrowAndTake(mem, freep, brk, nunits, granted, book, base);
    }
    if b != 0 { TakenSince(mem0, book0.led, mem1, led1, nunits, mem, book.led, b); }
  }

  const HEADER := 8   // sizeof(Header)

  // nunits in malloc: a header and room for nbytes, in 32-bit arithmetic.
  function Units32(nbytes: nat): (n: nat)
    ensures n > 0
  {
    (nbytes + HEADER - 1) % 0x1_0000_0000 / HEADER + 1
  }

  // The block has room for nbytes besides its header, and a unit less would not do, unless the addition wraps around.
  lemma RoomIff(nbytes: nat)
    requires nbytes < 0x1_0000_0000
    ensures (Units32(nbytes) - 1) * HEADER >= nbytes <==> nbytes <= 0xFFFF_FFF8
    ensures nbytes <= 0xFFFF_FFF8 ==> (Units32(nbytes) - 2) * HEADER < nbytes
    ensures nbytes > 0xFFFF_FFF8 ==> Units32(nbytes) == 1
  {
  }

  // morecore's argument to sbrk is a positive int.
  lemma CoreFitsIff(nbytes: nat)
    requires nbytes < 0x1_0000_0000
    ensures CoreSize(Units32(nbytes)) * HEADER < 0x8000_0000 <==> nbytes <= 0x7FFF_FFF0 || nbytes > 0xFFFF_FFF8
  {
  }

  // Free and live blocks are pairwise disjoint, and their sizes add up to the units supplied.
  lemma Accounts(mem: Mem, freep: nat, book: Book, base: nat, brk: nat)
    requires Ready(mem, freep, book, base, brk)
    ensures TotalSize(book.led.blocks) == |book.led.units|
    ensures forall a, b :: a in book.led.blocks && b in book.led.blocks && a < b ==> a + book.led.blocks[a] <= b
  {
    var led := book.led;
    Conserved(led.units, led.blocks);
    forall a, b | a in led.blocks && b in led.blocks && a < b ensures a + led.blocks[a] <= b {
      Disjoint(led.units, led.blocks, a, b);
    }
  }

  class Allocator {
    const base: nat
    var mem: Mem
    var freep: nat
    var brk: nat
    ghost var book: Book

    constructor (base: nat, brk: nat)
      requires 0 < base < brk
      ensures Valid() && freep == 0 && book == EmptyBook && this.base == base && this.brk == brk
    {
      this.base, this.brk, this.freep := base, brk, 0;
      this.mem, this.book := map[base := Header(0, 0)], EmptyBook;
    }

    ghost predicate Valid()
      reads this
    {
      Ready(mem, freep, book, base, brk)
    }

    method Store(mem': Mem, freep': nat, brk': nat, ghost book': Book)
      requires Ready(mem', freep', book', base, brk')
      modifies this
      ensures Valid() && mem == mem' && freep == freep' && brk == brk' && book == book'
    {
      mem, freep, brk, book := mem', freep', brk', book';
    }

    // ap is a pointer malloc returned and that has not been freed since.
    method Free(ap: nat) returns (ghost g: nat)
      requires Valid() && ap > 0 && ap - 1 in book.led.live
      modifies this
      ensures Valid() && freep != 0 && brk == old(brk) && Freed(old(mem), old(book), ap - 1, mem, book, g)
      ensures BelongsAfter(old(book).nodes, freep, ap - 1)
    {
      var mem', p;
      ghost var book';
      mem', p, book', g := PutBack(mem, freep, ap - 1, book, base, brk);
      Store(mem', p, brk, book');
    }

    // r is 0, or the address after the header of the new block b. For the sizes left out the argument of sbrk is
    // no positive int.
    method Malloc(nbytes: nat, granted: bool) returns (r: nat, ghost b: nat)
      requires Valid() && nbytes < 0x1_0000_0000 && (nbytes <= 0x7FFF_FFF0 || nbytes > 0xFFFF_FFF8)
      modifies this
      ensures Valid() && freep != 0 && r == if b == 0 then 0 else b + 1
      ensures Outcome(old(mem), old(freep), old(book), old(brk), Units32(nbytes), granted, mem, freep, book, brk, b)
      ensures r != 0 ==>
                b in book.led.blocks && (nbytes <= (book.led.blocks[b] - 1) * HEADER <==> nbytes <= 0xFFFF_FFF8)
      ensures r != 0 && nbytes <= 0xFFFF_FFF8 ==> (book.led.blocks[b] - 2) * HEADER < nbytes
    {
      RoomIff(nbytes);
      var mem', freep', brk', p;
      ghost var book';
      mem', freep', brk', p, book' := Allocate(mem, freep, brk, Units32(nbytes), granted, book, base);
      b := p;
      Store(mem', freep', brk', book');
      r := if p == 0 then 0 else p + 1;
    }

    // The owner of block b writes to a word of it that is not its header.
    method Poke(ghost b: nat, u: nat, h: Header)
      requires Valid() && b in book.led.live && u in book.led.units && book.led.units[u] == b != u
      modifies this
      ensures Valid() && mem == old(mem)[u := h] && freep == old(freep) && brk == old(brk) && book == old(book)
    {
      PokeKeeps(mem, freep, book, base, brk, b, u, h);
      Store(mem[u := h], freep, brk, book);
    }

    // Some other caller moves the break by n units.
    method OtherSbrk(n: int)
      requires Valid() && base < brk + n
      modifies this
      ensures brk == old(brk) + n && mem == old(mem) && freep == old(freep) && book == old(book)
      ensures Valid() <==> forall u :: u in book.led.units ==> u < brk
    {
      brk := brk + n;
    }
  }

  lemma PokeKeeps(mem: Mem, freep: nat, book: Book, base: nat, brk: nat, b: nat, u: nat, h: Header)
    requires Ready(mem, freep, book, base, brk) && b in book.led.live && u in book.led.units
             && book.led.units[u] == b != u
    ensures Ready(mem[u := h], freep, book, base, brk)
  {
    var led, nodes := book.led, book.nodes;
    forall x | x in led.blocks ensures x != u { AboveBase(mem, led, base, brk, x); }
    forall i | 0 <= i < |nodes| ensures nodes[i] != u { }
    SameRing(mem, mem[u := h], nodes, base);
  }

  lemma SameRing(mem: Mem, mem': Mem, nodes: seq<nat>, base: nat)
    requires FreeRing(mem, nodes, base) && forall i :: 0 <= i < |nodes| ==>
               nodes[i] in mem' && nodes[i] in mem && mem'[nodes[i]] == mem[nodes[i]]
    ensures FreeRing(mem', nodes, base)
  {
    forall i | 0 <= i < |nodes| ensures Points(mem', nodes, i) { assert Points(mem, nodes, i); }
    forall i, j | 0 <= i < j < |nodes| ensures Ordered(mem', nodes, -1, i, j) { assert Ordered(mem, nodes, -1, i, j); }
  }
}
