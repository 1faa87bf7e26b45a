/** The red-black checker of xv6-public/proc.c. `Check` threads one cell, `path`, through
    the whole recursion: it is -1 until the first NIL is reached and the black count of that
    first path from then on. Nothing in it is local to a subtree, so that it decides the three
    red-black conditions is a fact about the whole run. */
module RbTree {
  import opened Powers

  datatype Color = Red | Black
  datatype Tree = Nil | Node(color: Color, left: Tree, right: Tree)

  predicate IsRed(t: Tree) {
    t.Node? && t.color.Red?
  }

  function Weight(c: Color): nat {
    if c.Black? then 1 else 0
  }

  // check_rb_tree_properties: the verdict and the final value of *path_black_count.
  function Check(node: Tree, blackCount: nat, path: int): (bool, int) {
    match node
    case Nil =>
      if path == -1 then (true, blackCount)
      else if blackCount != path then (false, path)
      else (true, path)
    case Node(color, left, right) =>
      if color.Red? && (IsRed(left) || IsRed(right)) then (false, path)
      else
        var count := if color.Black? then blackCount + 1 else blackCount;
        var l := Check(left, count, path);
        if !l.0 then (false, l.1)
        else
          var r := Check(right, count, l.1);
          if !r.0 then (false, r.1) else (true, r.1)
  }

  predicate TreeBalanced(root: Tree) {
    if root.Node? && !root.color.Black? then false else Check(root, 0, -1).0
  }

  // The declarative side: positions in the tree are sequences of directions.

  datatype Dir = L | R

  function At(t: Tree, p: seq<Dir>): Tree {
    if p == [] || t.Nil? then t
    else At(if p[0].L? then t.left else t.right, p[1..])
  }

  // p leads from the root of t to a NIL and passes exactly k black nodes.
  ghost predicate NilPath(t: Tree, p: seq<Dir>, k: int) {
    match t
    case Nil => p == [] && k == 0
    case Node(c, l, r) =>
      p != [] && NilPath(if p[0].L? then l else r, p[1..], k - Weight(c))
  }

  ghost predicate NoRedRed(t: Tree) {
    forall p: seq<Dir> :: IsRed(At(t, p)) ==> !IsRed(At(t, p).left) && !IsRed(At(t, p).right)
  }

  ghost predicate EqualBlackCounts(t: Tree) {
    forall p, q, j, k :: NilPath(t, p, j) && NilPath(t, q, k) ==> j == k
  }

  // A structural form of the same conditions, used only between the two.

  function LeftBlackHeight(t: Tree): nat {
    match t
    case Nil => 0
    case Node(c, l, _) => Weight(c) + LeftBlackHeight(l)
  }

  predicate Uniform(t: Tree) {
    match t
    case Nil => true
    case Node(_, l, r) => Uniform(l) && Uniform(r) && LeftBlackHeight(l) == LeftBlackHeight(r)
  }

  predicate RedsApart(t: Tree) {
    match t
    case Nil => true
    case Node(c, l, r) => (c.Red? ==> !IsRed(l) && !IsRed(r)) && RedsApart(l) && RedsApart(r)
  }

  // What one call decides, and what it leaves in the shared cell.
  lemma {:induction false} CheckStructural(t: Tree, count: nat, path: int)
    requires path >= -1
    ensures var r := Check(t, count, path);
            && (r.0 <==> RedsApart(t) && Uniform(t) && (path == -1 || path == count + LeftBlackHeight(t)))
            && (r.0 ==> r.1 == count + LeftBlackHeight(t))
            && r.1 >= -1
  {
    match t
    case Nil =>
    case Node(c, l, r) =>
      CheckStructural(l, count + Weight(c), path);
      CheckStructural(r, count + Weight(c), Check(l, count + Weight(c), path).1);
  }

  lemma {:induction false} LeftmostPath(t: Tree) returns (p: seq<Dir>)
    ensures NilPath(t, p, LeftBlackHeight(t))
  {
    match t
    case Nil => p := [];
    case Node(_, l, _) =>
      var q := LeftmostPath(l);
      p := [L] + q;
      assert p[1..] == q;
  }

  lemma {:induction false} UniformPaths(t: Tree, p: seq<Dir>, k: int)
    requires Uniform(t) && NilPath(t, p, k)
    ensures k == LeftBlackHeight(t)
  {
    match t
    case Nil =>
    case Node(c, l, r) => UniformPaths(if p[0].L? then l else r, p[1..], k - Weight(c));
  }

  lemma NilPathCons(t: Tree, d: Dir, p: seq<Dir>, k: int)
    requires t.Node? && NilPath(if d.L? then t.left else t.right, p, k)
    ensures NilPath(t, [d] + p, k + Weight(t.color))
  {
    assert ([d] + p)[1..] == p;
  }

  lemma {:induction false} EqualImpliesUniform(t: Tree)
    requires EqualBlackCounts(t)
    ensures Uniform(t)
  {
    match t
    case Nil =>
    case Node(c, l, r) =>
      forall p, q, j, k | NilPath(l, p, j) && NilPath(l, q, k) ensures j == k {
        NilPathCons(t, L, p, j);
        NilPathCons(t, L, q, k);
      }
      forall p, q, j, k | NilPath(r, p, j) && NilPath(r, q, k) ensures j == k {
        NilPathCons(t, R, p, j);
        NilPathCons(t, R, q, k);
      }
      EqualImpliesUniform(l);
      EqualImpliesUniform(r);
      var p := LeftmostPath(l);
      var q := LeftmostPath(r);
      NilPathCons(t, L, p, LeftBlackHeight(l));
      NilPathCons(t, R, q, LeftBlackHeight(r));
  }

  lemma {:induction false} RedsApartAt(t: Tree, p: seq<Dir>)
    requires RedsApart(t) && IsRed(At(t, p))
    ensures !IsRed(At(t, p).left) && !IsRed(At(t, p).right)
  {
    if p != [] && t.Node? {
      RedsApartAt(if p[0].L? then t.left else t.right, p[1..]);
    }
  }

  lemma {:induction false} NoRedRedImpliesRedsApart(t: Tree)
    requires NoRedRed(t)
    ensures RedsApart(t)
  {
    match t
    case Nil =>
    case Node(c, l, r) =>
      assert At(t, []) == t;
      forall p: seq<Dir> | IsRed(At(l, p)) ensures !IsRed(At(l, p).left) && !IsRed(At(l, p).right) {
        assert ([L] + p)[1..] == p;
        assert At(t, [L] + p) == At(l, p);
      }
      forall p: seq<Dir> | IsRed(At(r, p)) ensures !IsRed(At(r, p).left) && !IsRed(At(r, p).right) {
        assert ([R] + p)[1..] == p;
        assert At(t, [R] + p) == At(r, p);
      }
      NoRedRedImpliesRedsApart(l);
      NoRedRedImpliesRedsApart(r);
  }

  /** treebalanced decides exactly the red-black conditions it names. */
  lemma TreeBalancedIff(root: Tree)
    ensures TreeBalanced(root) <==> !IsRed(root) && NoRedRed(root) && EqualBlackCounts(root)
  {
    CheckStructural(root, 0, -1);
    if RedsApart(root) {
      forall p: seq<Dir> | IsRed(At(root, p)) ensures !IsRed(At(root, p).left) && !IsRed(At(root, p).right) {
        RedsApartAt(root, p);
      }
    }
    if NoRedRed(root) { NoRedRedImpliesRedsApart(root); }
    if Uniform(root) {
      forall p, q, j, k | NilPath(root, p, j) && NilPath(root, q, k) ensures j == k {
        UniformPaths(root, p, j);
        UniformPaths(root, q, k);
      }
    }
    if EqualBlackCounts(root) { EqualImpliesUniform(root); }
  }

  // What acceptance buys: the height is at most twice the logarithm of the size plus one.

  function Size(t: Tree): nat {
    match t
    case Nil => 0
    case Node(_, l, r) => 1 + Size(l) + Size(r)
  }

  function Height(t: Tree): nat {
    match t
    case Nil => 0
    case Node(_, l, r) => 1 + (if Height(l) >= Height(r) then Height(l) else Height(r))
  }

  lemma {:induction false} SizeBound(t: Tree)
    requires Uniform(t)
    ensures Pow2(LeftBlackHeight(t)) <= Size(t) + 1
  {
    match t
    case Nil =>
    case Node(c, l, r) => SizeBound(l); SizeBound(r);
  }

  lemma {:induction false} HeightBound(t: Tree)
    requires Uniform(t) && RedsApart(t)
    ensures Height(t) <= 2 * LeftBlackHeight(t) + (if IsRed(t) then 1 else 0)
  {
    match t
    case Nil =>
    case Node(c, l, r) => HeightBound(l); HeightBound(r);
  }

  lemma BalancedHeight(root: Tree) returns (b: nat)
    requires TreeBalanced(root)
    ensures Height(root) <= 2 * b && Pow2(b) <= Size(root) + 1
  {
    CheckStructural(root, 0, -1);
    SizeBound(root);
    HeightBound(root);
    b := LeftBlackHeight(root);
  }

  lemma HeightSquare(h: nat, b: nat, m: nat)
    requires h <= 2 * b && Pow2(b) <= m
    ensures Pow2(h) <= m * m
  {
    Pow2Monotone(h, 2 * b);
    Pow2Square(b);
    BelowSquare(Pow2(h), Pow2(2 * b), Pow2(b), m);
  }

  lemma BelowSquare(x: nat, y: nat, a: nat, b: nat)
    requires x <= y == a * a && a <= b
    ensures x <= b * b
  {
    assert a * a <= a * b;
    assert a * b <= b * b;
  }

  // So two to the height is at most the square of the size plus one.
  lemma LogHeight(root: Tree)
    requires TreeBalanced(root)
    ensures Pow2(Height(root)) <= (Size(root) + 1) * (Size(root) + 1)
  {
    var b := BalancedHeight(root);
    HeightSquare(Height(root), b, Size(root) + 1);
  }
}
