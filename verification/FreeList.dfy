/** The circular, address-ordered free list of xv6-public/umalloc.c. A list is given by its nodes in
    address order, starting with base. */
module FreeList {
  datatype Header = Header(ptr: nat, size: nat)
  type Mem = map<nat, Header>   // headers by address

  function After(nodes: seq<nat>, i: nat): nat
    requires i < |nodes|
  {
    if i + 1 < |nodes| then nodes[i + 1] else nodes[0]
  }

  // Every node but the one at index gap points to the next, the last to the first.
  ghost predicate RingBut(mem: Mem, nodes: seq<nat>, gap: int) {
    forall i :: 0 <= i < |nodes| && i != gap ==> Points(mem, nodes, i)
  }

  ghost predicate Points(mem: Mem, nodes: seq<nat>, i: nat)
    requires i < |nodes|
  {
    nodes[i] in mem && mem[nodes[i]].ptr == After(nodes, i)
  }

  ghost predicate Below(mem: Mem, a: nat, b: nat, mayTouch: bool) {
    a in mem && a < b && (if mayTouch then a + mem[a].size <= b else a + mem[a].size < b)
  }

  // Nodes are in address order and none reaches the next, except that the node at index gap may end
  // where its successor starts.
  ghost predicate ApartBut(mem: Mem, nodes: seq<nat>, gap: int) {
    forall i, j :: 0 <= i < j < |nodes| ==> Ordered(mem, nodes, gap, i, j)
  }

  ghost predicate Ordered(mem: Mem, nodes: seq<nat>, gap: int, i: nat, j: nat)
    requires i < |nodes| && j < |nodes|
  {
    Below(mem, nodes[i], nodes[j], i == gap && j == gap + 1)
  }

  ghost predicate Sized(mem: Mem, nodes: seq<nat>, base: nat) {
    && |nodes| > 0 && nodes[0] == base && base in mem && mem[base].size == 0
    && (forall i :: 0 < i < |nodes| ==> nodes[i] in mem && mem[nodes[i]].size > 0)
  }

  // One cycle through base, sorted with a single wrap, no two neighbours touching.
  ghost predicate FreeRing(mem: Mem, nodes: seq<nat>, base: nat) {
    Sized(mem, nodes, base) && RingBut(mem, nodes, -1) && ApartBut(mem, nodes, -1)
  }

  lemma NodesDistinct(mem: Mem, nodes: seq<nat>, gap: int, i: nat, j: nat)
    requires ApartBut(mem, nodes, gap) && i < |nodes| && j < |nodes| && i != j
    ensures nodes[i] != nodes[j]
  {
    if i < j { assert Ordered(mem, nodes, gap, i, j); }
    else { assert Ordered(mem, nodes, gap, j, i); }
  }

  // bp belongs right after index t.
  ghost predicate Place(nodes: seq<nat>, t: nat, bp: nat) {
    t < |nodes| && nodes[t] < bp && (t + 1 < |nodes| ==> bp < nodes[t + 1])
  }

  // The negated guard of free's search loop, or its break.
  predicate Stops(p: nat, next: nat, bp: nat) {
    (bp > p && bp < next) || (p >= next && (bp > p || bp < next))
  }

  lemma StopsAtPlace(mem: Mem, nodes: seq<nat>, base: nat, k: nat, bp: nat)
    requires FreeRing(mem, nodes, base) && k < |nodes| && base < bp
    ensures Stops(nodes[k], After(nodes, k), bp) <==> Place(nodes, k, bp)
  {
    if k + 1 < |nodes| { assert Ordered(mem, nodes, -1, k, k + 1); }
    if 0 < k { assert Ordered(mem, nodes, -1, 0, k); }
  }

  lemma {:induction false} PlaceExists(mem: Mem, nodes: seq<nat>, base: nat, bp: nat, k: nat) returns (t: nat)
    requires FreeRing(mem, nodes, base) && base < bp && bp !in nodes && k < |nodes| && nodes[k] < bp
    ensures Place(nodes, t, bp)
    decreases |nodes| - k
  {
    if k + 1 == |nodes| || bp < nodes[k + 1] {
      t := k;
    } else {
      t := PlaceExists(mem, nodes, base, bp, k + 1);
    }
  }

  lemma PlaceUnique(mem: Mem, nodes: seq<nat>, k: nat, t: nat, bp: nat)
    requires ApartBut(mem, nodes, -1) && Place(nodes, t, bp) && k < |nodes|
    ensures Place(nodes, k, bp) <==> k == t
  {
    if k < t { assert Ordered(mem, nodes, -1, k, t); if k + 1 < t { assert Ordered(mem, nodes, -1, k + 1, t); } }
    if t < k { assert Ordered(mem, nodes, -1, t, k); if t + 1 < k { assert Ordered(mem, nodes, -1, t + 1, k); } }
  }

  // bp lies clear of the free blocks, as free's caller guarantees.
  ghost predicate Clear(mem: Mem, nodes: seq<nat>, bp: nat) {
    && bp in mem && mem[bp].size > 0
    && forall i :: 0 <= i < |nodes| ==>
         Below(mem, nodes[i], bp, true) || Below(mem, bp, nodes[i], true)
  }

  // Where bp is in the list but nodes[t] does not yet point to it, and may touch it.
  ghost predicate HalfLinked(mem: Mem, nodes: seq<nat>, base: nat, t: nat) {
    t + 1 < |nodes| && Sized(mem, nodes, base) && RingBut(mem, nodes, t) && ApartBut(mem, nodes, t)
  }

  function WithNode(nodes: seq<nat>, t: nat, bp: nat): (r: seq<nat>)
    requires t < |nodes|
    ensures |r| == |nodes| + 1 && r[t + 1] == bp
    ensures forall i :: 0 <= i <= t ==> r[i] == nodes[i]
    ensures forall i :: t + 1 < i < |r| ==> r[i] == nodes[i - 1]
  {
    nodes[..t + 1] + [bp] + nodes[t + 1..]
  }

  function WithoutNode(nodes: seq<nat>, k: nat): (r: seq<nat>)
    requires k < |nodes|
    ensures |r| == |nodes| - 1
    ensures forall i :: 0 <= i < k ==> r[i] == nodes[i]
    ensures forall i :: k <= i < |r| ==> r[i] == nodes[i + 1]
  {
    nodes[..k] + nodes[k + 1..]
  }

  // free, first step, when bp does not reach the next node.
  lemma Insert(mem: Mem, nodes: seq<nat>, base: nat, t: nat, bp: nat)
    requires FreeRing(mem, nodes, base) && Place(nodes, t, bp) && Clear(mem, nodes, bp)
    requires bp + mem[bp].size != After(nodes, t)
    ensures HalfLinked(mem[bp := mem[bp].(ptr := After(nodes, t))], WithNode(nodes, t, bp), base, t)
  {
    var mem', nodes' := mem[bp := mem[bp].(ptr := After(nodes, t))], WithNode(nodes, t, bp);
    forall i, j | 0 <= i < j < |nodes'| ensures Ordered(mem', nodes', t, i, j) {
      InsertApart(mem, nodes, base, t, bp, mem', nodes', i, j);
    }
    InsertRing(mem, nodes, base, t, bp, mem', nodes');
  }

  lemma InsertApart(mem: Mem, nodes: seq<nat>, base: nat, t: nat, bp: nat, mem': Mem, nodes': seq<nat>, i: nat, j: nat)
    requires FreeRing(mem, nodes, base) && Place(nodes, t, bp) && Clear(mem, nodes, bp)
    requires bp + mem[bp].size != After(nodes, t)
    requires mem' == mem[bp := mem[bp].(ptr := After(nodes, t))] && nodes' == WithNode(nodes, t, bp)
    requires i < j < |nodes'|
    ensures Ordered(mem', nodes', t, i, j)
  {
    var i', j' := if i <= t then i else i - 1, if j <= t then j else j - 1;
    if i' < j' { assert Ordered(mem, nodes, -1, i', j'); }
    if i < t { assert Ordered(mem, nodes, -1, i, t); }
    if j > t + 2 { assert Ordered(mem, nodes, -1, t + 1, j'); }
  }

  lemma InsertRing(mem: Mem, nodes: seq<nat>, base: nat, t: nat, bp: nat, mem': Mem, nodes': seq<nat>)
    requires FreeRing(mem, nodes, base) && t < |nodes| && bp !in nodes && bp in mem && mem[bp].size > 0
    requires mem' == mem[bp := mem[bp].(ptr := After(nodes, t))] && nodes' == WithNode(nodes, t, bp)
    ensures Sized(mem', nodes', base) && RingBut(mem', nodes', t)
  {
    forall i | 0 <= i < |nodes'| && i != t ensures Points(mem', nodes', i) {
      if i < t { assert Points(mem, nodes, i); } else if i > t + 1 { assert Points(mem, nodes, i - 1); }
    }
  }

  // free, first step, when bp ends where the next node starts: bp takes its place.
  lemma MergeUp(mem: Mem, nodes: seq<nat>, base: nat, t: nat, bp: nat, q: nat, mem': Mem, nodes': seq<nat>)
    requires FreeRing(mem, nodes, base) && Place(nodes, t, bp) && Clear(mem, nodes, bp)
    requires t + 1 < |nodes| && bp + mem[bp].size == q == nodes[t + 1] && q in mem
    requires mem' == mem[bp := Header(mem[q].ptr, mem[bp].size + mem[q].size)] && nodes' == nodes[t + 1 := bp]
    ensures HalfLinked(mem', nodes', base, t)
  {
    forall i, j | 0 <= i < j < |nodes'| ensures Ordered(mem', nodes', t, i, j) {
      MergeUpApart(mem, nodes, base, t, bp, mem', nodes', i, j);
    }
    MergeUpRing(mem, nodes, base, t, bp, mem', nodes');
  }

  lemma MergeUpApart(mem: Mem, nodes: seq<nat>, base: nat, t: nat, bp: nat, mem': Mem, nodes': seq<nat>, i: nat, j: nat)
    requires FreeRing(mem, nodes, base) && Place(nodes, t, bp) && Clear(mem, nodes, bp) && t + 1 < |nodes|
    requires bp + mem[bp].size == nodes[t + 1]
    requires mem' == mem[bp := Header(mem[nodes[t + 1]].ptr, mem[bp].size + mem[nodes[t + 1]].size)]
             && nodes' == nodes[t + 1 := bp]
    requires i < j < |nodes'|
    ensures Ordered(mem', nodes', t, i, j)
  {
    assert Ordered(mem, nodes, -1, i, j);
    if i < t { assert Ordered(mem, nodes, -1, i, t); }
  }

  lemma MergeUpRing(mem: Mem, nodes: seq<nat>, base: nat, t: nat, bp: nat, mem': Mem, nodes': seq<nat>)
    requires FreeRing(mem, nodes, base) && bp !in nodes && bp in mem && mem[bp].size > 0 && t + 1 < |nodes|
    requires mem' == mem[bp := Header(mem[nodes[t + 1]].ptr, mem[bp].size + mem[nodes[t + 1]].size)]
             && nodes' == nodes[t + 1 := bp]
    ensures Sized(mem', nodes', base) && RingBut(mem', nodes', t)
  {
    forall i | 0 <= i < |nodes'| && i != t ensures Points(mem', nodes', i) {
      assert i != t + 1 ==> Points(mem, nodes, i);
      assert Points(mem, nodes, t + 1);
    }
  }

  // free, second step, when nodes[t] does not reach bp.
  lemma Link(mem: Mem, nodes: seq<nat>, base: nat, t: nat, p: nat, bp: nat, mem': Mem)
    requires HalfLinked(mem, nodes, base, t) && p == nodes[t] && bp == nodes[t + 1] && p in mem && p + mem[p].size != bp
    requires mem' == mem[p := mem[p].(ptr := bp)]
    ensures FreeRing(mem', nodes, base)
  {
    forall i, j | 0 <= i < j < |nodes| ensures Ordered(mem', nodes, -1, i, j) {
      assert Ordered(mem, nodes, t, i, j);
    }
    forall i | 0 <= i < |nodes| ensures Points(mem', nodes, i) {
      if i != t { assert Points(mem, nodes, i); NodesDistinct(mem, nodes, t, i, t); }
    }
  }

  // free, second step, when nodes[t] ends where bp starts: bp is absorbed.
  lemma MergeDown(mem: Mem, nodes: seq<nat>, base: nat, t: nat, p: nat, bp: nat, mem': Mem, nodes': seq<nat>)
    requires HalfLinked(mem, nodes, base, t) && p == nodes[t] && bp == nodes[t + 1] && p in mem && bp in mem
             && p + mem[p].size == bp
    requires mem' == mem[p := Header(mem[bp].ptr, mem[p].size + mem[bp].size)] && nodes' == WithoutNode(nodes, t + 1)
    ensures t > 0 && FreeRing(mem', nodes', base)
  {
    assert Ordered(mem, nodes, t, t, t + 1);
    MergeDownApart(mem, nodes, t, p, bp, mem', nodes');
    MergeDownRing(mem, nodes, base, t, p, bp, mem', nodes');
  }

  lemma MergeDownApart(mem: Mem, nodes: seq<nat>, t: nat, p: nat, bp: nat, mem': Mem, nodes': seq<nat>)
    requires t + 1 < |nodes| && ApartBut(mem, nodes, t) && p == nodes[t] && bp == nodes[t + 1] && p in mem && bp in mem
    requires p + mem[p].size == bp
    requires mem' == mem[p := Header(mem[bp].ptr, mem[p].size + mem[bp].size)] && nodes' == WithoutNode(nodes, t + 1)
    ensures ApartBut(mem', nodes', -1)
  {
    forall i, j | 0 <= i < j < |nodes'| ensures Ordered(mem', nodes', -1, i, j) {
      var i', j' := if i <= t then i else i + 1, if j <= t then j else j + 1;
      assert Ordered(mem, nodes, t, i', j');
      if i' == t { assert Ordered(mem, nodes, t, t + 1, j'); } else { NodesDistinct(mem, nodes, t, i', t); }
    }
  }

  lemma MergeDownRing(mem: Mem, nodes: seq<nat>, base: nat, t: nat, p: nat, bp: nat, mem': Mem, nodes': seq<nat>)
    requires HalfLinked(mem, nodes, base, t) && p == nodes[t] && bp == nodes[t + 1] && p in mem && bp in mem && t > 0
    requires mem' == mem[p := Header(mem[bp].ptr, mem[p].size + mem[bp].size)] && nodes' == WithoutNode(nodes, t + 1)
    ensures Sized(mem', nodes', base) && RingBut(mem', nodes', -1)
  {
    NodesDistinct(mem, nodes, t, 0, t);
    forall i | 0 <= i < |nodes'| ensures Points(mem', nodes', i) {
      var i' := if i <= t then i else i + 1;
      assert i' != t ==> Points(mem, nodes, i');
      assert Points(mem, nodes, t + 1);
      if i' != t { NodesDistinct(mem, nodes, t, i', t); }
    }
  }

  // The nodes after base are exactly the blocks of a set.
  ghost predicate Lists(nodes: seq<nat>, free: set<nat>) {
    && (forall i :: 0 < i < |nodes| ==> nodes[i] in free)
    && (forall b :: b in free ==> b in nodes)
  }

  lemma ListsWithNode(nodes: seq<nat>, free: set<nat>, t: nat, bp: nat)
    requires Lists(nodes, free) && t < |nodes|
    ensures Lists(WithNode(nodes, t, bp), free + {bp})
  {
    var r := WithNode(nodes, t, bp);
    forall b | b in free + {bp} ensures b in r {
      if b in free {
        var i :| 0 <= i < |nodes| && nodes[i] == b;
        assert r[if i <= t then i else i + 1] == b;
      } else {
        assert r[t + 1] == b;
      }
    }
    forall i | 0 < i < |r| ensures r[i] in free + {bp} {
      if i <= t { assert r[i] == nodes[i]; } else if i > t + 1 { assert r[i] == nodes[i - 1]; }
    }
  }

  lemma ListsReplaced(mem: Mem, nodes: seq<nat>, free: set<nat>, gap: int, k: nat, bp: nat)
    requires Lists(nodes, free) && 0 < k < |nodes| && ApartBut(mem, nodes, gap)
    ensures Lists(nodes[k := bp], free - {nodes[k]} + {bp})
  {
    var r, free' := nodes[k := bp], free - {nodes[k]} + {bp};
    assert r[k] == bp;
    forall b | b in free' ensures b in r {
      if b != bp {
        var i :| 0 <= i < |nodes| && nodes[i] == b;
        assert r[i] == b;
      }
    }
    forall i | 0 < i < |r| ensures r[i] in free' {
      if i != k { NodesDistinct(mem, nodes, gap, i, k); }
    }
  }

  lemma ListsWithoutNode(mem: Mem, nodes: seq<nat>, free: set<nat>, gap: int, k: nat)
    requires Lists(nodes, free) && 0 < k < |nodes| && ApartBut(mem, nodes, gap)
    ensures Lists(WithoutNode(nodes, k), free - {nodes[k]})
  {
    var r, free' := WithoutNode(nodes, k), free - {nodes[k]};
    forall b | b in free' ensures b in r {
      var i :| 0 <= i < |nodes| && nodes[i] == b;
      assert r[if i < k then i else i - 1] == b;
    }
    forall i | 0 < i < |r| ensures r[i] in free' {
      NodesDistinct(mem, nodes, gap, if i < k then i else i + 1, k);
    }
  }

  // malloc takes a whole node.
  lemma Unlink(mem: Mem, nodes: seq<nat>, base: nat, k: nat, prevp: nat, p: nat, mem': Mem, nodes': seq<nat>)
    requires FreeRing(mem, nodes, base) && k + 1 < |nodes| && prevp == nodes[k] && p == nodes[k + 1] && prevp in mem
             && p in mem
    requires mem' == mem[prevp := mem[prevp].(ptr := mem[p].ptr)] && nodes' == WithoutNode(nodes, k + 1)
    ensures FreeRing(mem', nodes', base)
  {
    forall i, j | 0 <= i < j < |nodes'| ensures Ordered(mem', nodes', -1, i, j) {
      assert Ordered(mem, nodes, -1, if i <= k then i else i + 1, if j <= k then j else j + 1);
    }
    forall i | 0 <= i < |nodes'| ensures Points(mem', nodes', i) {
      var i' := if i <= k then i else i + 1;
      assert Points(mem, nodes, i') && Points(mem, nodes, k + 1);
      if i' != k { NodesDistinct(mem, nodes, -1, i', k); }
    }
  }

  // malloc takes the tail of a node.
  lemma Shrink(mem: Mem, nodes: seq<nat>, base: nat, k: nat, p: nat, n: nat, mem': Mem)
    requires FreeRing(mem, nodes, base) && 0 < k < |nodes| && p == nodes[k] && p in mem && 0 < n < mem[p].size
    requires mem' == mem[p := mem[p].(size := mem[p].size - n)]
    ensures FreeRing(mem', nodes, base)
  {
    forall i, j | 0 <= i < j < |nodes| ensures Ordered(mem', nodes, -1, i, j) {
      assert Ordered(mem, nodes, -1, i, j);
    }
    NodesDistinct(mem, nodes, -1, 0, k);
    forall i | 0 <= i < |nodes| ensures Points(mem', nodes, i) { assert Points(mem, nodes, i); }
  }

  // A header outside the list does not matter.
  lemma Unlisted(mem: Mem, nodes: seq<nat>, base: nat, x: nat, h: Header, mem': Mem)
    requires FreeRing(mem, nodes, base) && x !in nodes && mem' == mem[x := h]
    ensures FreeRing(mem', nodes, base)
  {
    forall i, j | 0 <= i < j < |nodes| ensures Ordered(mem', nodes, -1, i, j) {
      assert Ordered(mem, nodes, -1, i, j);
    }
    forall i | 0 <= i < |nodes| ensures Points(mem', nodes, i) { assert Points(mem, nodes, i); }
  }
}
