/** The heap holds a tree: below a node, around a hole, and what rotations do to it. */
module AvlFocus {
  import opened AvlTree

  ghost predicate Rep<T>(t: Tree<T>, p: Node?<T>)
    reads Nodes(t)
  {
    match t
    case Leaf => p == null
    case Bin(l, n, b, r) => p == n && n.balance == b && Rep(l, n.link0) && Rep(r, n.link1)
  }

  lemma {:induction false} Allocated<T>(t: Tree<T>)
    ensures forall n :: n in Nodes(t) ==> allocated(n)
  {
    if t.Bin? {
      Allocated(t.left);
      Allocated(t.right);
    }
  }

  lemma {:induction false} ContextAllocated<T>(c: Context<T>)
    ensures forall n :: n in ContextNodes(c) ==> allocated(n)
  {
    if c != [] {
      ContextAllocated(c[..|c| - 1]);
      Allocated(c[|c| - 1].sibling);
    }
  }

  /** The frames up to the root are in the heap, and q is the link at the hole. */
  ghost predicate RepContext<T>(c: Context<T>, root: Node?<T>, q: Node?<T>)
    reads ContextNodes(c)
  {
    if c == [] then root == q
    else
      var f := c[|c| - 1];
      && f.node.balance == f.bal && Hole(f) == q && Rep(f.sibling, Other(f))
      && RepContext(c[..|c| - 1], root, f.node)
  }

  ghost function Hole<T>(f: Frame<T>): Node?<T>
    reads f.node
  {
    if f.dir then f.node.link1 else f.node.link0
  }

  ghost function Other<T>(f: Frame<T>): Node?<T>
    reads f.node
  {
    if f.dir then f.node.link0 else f.node.link1
  }

  /** The heap holds Plug(c, t) below root, and q is where t hangs. */
  ghost predicate Focus<T>(c: Context<T>, t: Tree<T>, root: Node?<T>, q: Node?<T>)
    reads ContextNodes(c) + Nodes(t)
  {
    RepContext(c, root, q) && Rep(t, q) && ContextDistinct(c) && Distinct(t) && ContextNodes(c) !! Nodes(t)
  }

  lemma FocusUp<T>(c: Context<T>, t: Tree<T>, root: Node?<T>, q: Node?<T>)
    requires c != [] && Focus(c, t, root, q)
    ensures Focus(c[..|c| - 1], Fill(c[|c| - 1], t), root, c[|c| - 1].node)
  {
  }

  lemma FocusDown<T>(c: Context<T>, f: Frame<T>, t: Tree<T>, root: Node?<T>)
    requires Focus(c, Fill(f, t), root, f.node)
    ensures Focus(c + [f], t, root, Hole(f))
  {
    assert (c + [f])[..|c|] == c;
  }

  lemma {:induction false} FocusAllUp<T>(c: Context<T>, t: Tree<T>, root: Node?<T>, q: Node?<T>)
    requires Focus(c, t, root, q)
    ensures Focus([], Plug(c, t), root, root)
  {
    hide Fill, Focus, ContextNodes;
    if c != [] {
      FocusUp(c, t, root, q);
      FocusAllUp(c[..|c| - 1], Fill(c[|c| - 1], t), root, c[|c| - 1].node);
    } else {
      FocusEmpty(t, root, q);
    }
  }

  lemma FocusEmpty<T>(t: Tree<T>, root: Node?<T>, q: Node?<T>)
    requires Focus([], t, root, q)
    ensures q == root
  {
  }

  /** Down along some more frames. */
  lemma {:induction false} FocusAllDown<T>(c: Context<T>, d: Context<T>, t: Tree<T>, root: Node?<T>, q: Node?<T>) returns (q': Node?<T>)
    requires Focus(c, Plug(d, t), root, q)
    ensures Focus(c + d, t, root, q')
  {
    hide Focus;
    if d == [] {
      assert c + d == c;
      q' := q;
    } else {
      var n := |d| - 1;
      var p := FocusAllDown(c, d[..n], Fill(d[n], t), root, q);
      FocusRoot(c + d[..n], Fill(d[n], t), root, p);
      FocusDown(c + d[..n], d[n], t, root);
      assert c + d[..n] + [d[n]] == c + d;
      q' := Hole(d[n]);
    }
  }

  /** Up along some frames. */
  lemma {:induction false} FocusUpTo<T>(c: Context<T>, d: Context<T>, t: Tree<T>, root: Node?<T>, q: Node?<T>)
    requires Focus(c + d, t, root, q)
    ensures Focus(c, Plug(d, t), root, Root(Plug(d, t)))
  {
    hide Focus;
    if d == [] {
      assert c + d == c;
      FocusRoot(c, t, root, q);
    } else {
      var n := |d| - 1;
      assert (c + d)[..|c + d| - 1] == c + d[..n] && (c + d)[|c + d| - 1] == d[n];
      FocusUp(c + d, t, root, q);
      FocusUpTo(c, d[..n], Fill(d[n], t), root, d[n].node);
    }
  }

  lemma {:induction false} NodesOfPlug<T>(c: Context<T>, t: Tree<T>)
    ensures Nodes(Plug(c, t)) == ContextNodes(c) + Nodes(t)
  {
    if c != [] { NodesOfPlug(c[..|c| - 1], Fill(c[|c| - 1], t)); }
  }

  lemma FocusRoot<T>(c: Context<T>, t: Tree<T>, root: Node?<T>, q: Node?<T>)
    requires Focus(c, t, root, q)
    ensures q == Root(t)
  {
  }

  // ---- Rotations ----

  /** The subtree under y with balance -2 after its rotation. */
  ghost function FixedLeft<T>(t: Tree<T>): Tree<T>
    requires LeftHeavy(t)
  {
    var Bin(Bin(a, x, bx, b), y, _, c) := t;
    if bx == 1 then
      var Bin(b0, w, bw, b1) := b;
      Bin(Bin(a, x, if bw == 1 then -1 else 0, b0), w, 0, Bin(b1, y, if bw == -1 then 1 else 0, c))
    else if bx == 0 then Bin(a, x, 1, Bin(b, y, -1, c))
    else Bin(a, x, 0, Bin(b, y, 0, c))
  }

  ghost function FixedRight<T>(t: Tree<T>): Tree<T>
    requires RightHeavy(t)
  {
    var Bin(a, y, _, Bin(b, x, bx, c)) := t;
    if bx == -1 then
      var Bin(b0, w, bw, b1) := b;
      Bin(Bin(a, y, if bw == 1 then -1 else 0, b0), w, 0, Bin(b1, x, if bw == -1 then 1 else 0, c))
    else if bx == 0 then Bin(Bin(a, y, 1, b), x, -1, c)
    else Bin(Bin(a, y, 0, b), x, 0, c)
  }

  ghost predicate LeftHeavy<T>(t: Tree<T>) {
    t.Bin? && t.left.Bin? && -1 <= t.left.bal <= 1 && (t.left.bal == 1 ==> t.left.right.Bin? && -1 <= t.left.right.bal <= 1)
  }

  ghost predicate RightHeavy<T>(t: Tree<T>) {
    t.Bin? && t.right.Bin? && -1 <= t.right.bal <= 1 && (t.right.bal == -1 ==> t.right.left.Bin? && -1 <= t.right.left.bal <= 1)
  }

  /** Same nodes in the same order. */
  ghost predicate Rotated<T>(t: Tree<T>, u: Tree<T>) {
    InOrder(u) == InOrder(t) && Nodes(u) == Nodes(t) && (Distinct(t) ==> Distinct(u))
  }

  ghost predicate Apart<T>(a: Tree<T>, x: Node<T>, b: Tree<T>, y: Node<T>, c: Tree<T>) {
    && Distinct(a) && Distinct(b) && Distinct(c) && x != y
    && x !in Nodes(a) && x !in Nodes(b) && x !in Nodes(c) && y !in Nodes(a) && y !in Nodes(b) && y !in Nodes(c)
    && Nodes(a) !! Nodes(b) && Nodes(a) !! Nodes(c) && Nodes(b) !! Nodes(c)
  }

  lemma LeftApart<T>(a: Tree<T>, x: Node<T>, i: int, b: Tree<T>, y: Node<T>, j: int, c: Tree<T>)
    ensures Distinct(Bin(Bin(a, x, i, b), y, j, c)) <==> Apart(a, x, b, y, c)
  {
    var l := Bin(a, x, i, b);
    assert Nodes(l) == Nodes(a) + {x} + Nodes(b);
    assert forall n :: n in Nodes(l) <==> n in Nodes(a) || n == x || n in Nodes(b);
  }

  lemma RightApart<T>(a: Tree<T>, x: Node<T>, i: int, b: Tree<T>, y: Node<T>, j: int, c: Tree<T>)
    ensures Distinct(Bin(a, x, i, Bin(b, y, j, c))) <==> Apart(a, x, b, y, c)
  {
    var r := Bin(b, y, j, c);
    assert Nodes(r) == Nodes(b) + {y} + Nodes(c);
    assert forall n :: n in Nodes(r) <==> n in Nodes(b) || n == y || n in Nodes(c);
  }

  lemma RotateRight<T>(a: Tree<T>, x: Node<T>, i: int, b: Tree<T>, y: Node<T>, j: int, c: Tree<T>, i': int, j': int)
    ensures Rotated(Bin(Bin(a, x, i, b), y, j, c), Bin(a, x, i', Bin(b, y, j', c)))
    ensures Rotated(Bin(a, x, i', Bin(b, y, j', c)), Bin(Bin(a, x, i, b), y, j, c))
  {
    var t, u := Bin(Bin(a, x, i, b), y, j, c), Bin(a, x, i', Bin(b, y, j', c));
    hide Distinct, Apart;
    LeftApart(a, x, i, b, y, j, c);
    RightApart(a, x, i', b, y, j', c);
    assert InOrder(t) == InOrder(a) + [x] + InOrder(b) + [y] + InOrder(c);
    assert InOrder(u) == InOrder(a) + [x] + (InOrder(b) + [y] + InOrder(c));
    assert Nodes(Bin(a, x, i, b)) == Nodes(a) + {x} + Nodes(b);
    assert Nodes(Bin(b, y, j', c)) == Nodes(b) + {y} + Nodes(c);
  }

  lemma RotatedLeft<T>(t: Tree<T>, u: Tree<T>, y: Node<T>, j: int, c: Tree<T>)
    requires Rotated(t, u)
    ensures Rotated(Bin(t, y, j, c), Bin(u, y, j, c)) && Rotated(Bin(c, y, j, t), Bin(c, y, j, u))
  {
  }

  lemma FixedLeftSame<T>(t: Tree<T>)
    requires LeftHeavy(t)
    ensures Rotated(t, FixedLeft(t))
  {
    hide Rotated;
    var Bin(Bin(a, x, bx, b), y, j, c) := t;
    if bx == 1 {
      var Bin(b0, w, bw, b1) := b;
      var x', y' := if bw == 1 then -1 else 0, if bw == -1 then 1 else 0;
      RotateRight(a, x, x', b0, w, j, b1, bx, bw);
      RotatedLeft(Bin(a, x, bx, b), Bin(Bin(a, x, x', b0), w, j, b1), y, j, c);
      RotateRight(Bin(a, x, x', b0), w, j, b1, y, j, c, 0, y');
      RotatedTwice(t, Bin(Bin(Bin(a, x, x', b0), w, j, b1), y, j, c), FixedLeft(t));
    } else {
      RotateRight(a, x, bx, b, y, j, c, if bx == 0 then 1 else 0, if bx == 0 then -1 else 0);
    }
  }

  lemma FixedRightSame<T>(t: Tree<T>)
    requires RightHeavy(t)
    ensures Rotated(t, FixedRight(t))
  {
    hide Rotated;
    var Bin(a, y, j, Bin(b, x, bx, c)) := t;
    if bx == -1 {
      var Bin(b0, w, bw, b1) := b;
      var y', x' := if bw == 1 then -1 else 0, if bw == -1 then 1 else 0;
      RotateRight(b0, w, bw, b1, x, bx, c, j, x');
      RotatedLeft(Bin(b, x, bx, c), Bin(b0, w, j, Bin(b1, x, x', c)), y, j, a);
      RotateRight(a, y, y', b0, w, 0, Bin(b1, x, x', c), j, j);
      RotatedTwice(t, Bin(a, y, j, Bin(b0, w, j, Bin(b1, x, x', c))), FixedRight(t));
    } else {
      RotateRight(a, y, if bx == 0 then 1 else 0, b, x, if bx == 0 then -1 else 0, c, j, bx);
    }
  }

  lemma RotatedTwice<T>(t: Tree<T>, u: Tree<T>, v: Tree<T>)
    requires Rotated(t, u) && Rotated(u, v)
    ensures Rotated(t, v)
  {
  }

  /** Two levels too high on the left: the rotation balances, and takes one level off unless x was balanced. */
  lemma FixedLeftBalanced<T>(t: Tree<T>)
    requires t.Bin? && Balanced(t.left) && Balanced(t.right) && Height(t.right) - Height(t.left) == -2
    ensures LeftHeavy(t) && Balanced(FixedLeft(t))
    ensures Height(FixedLeft(t)) == Height(t) - if t.left.bal == 0 then 0 else 1
  {
  }

  lemma FixedRightBalanced<T>(t: Tree<T>)
    requires t.Bin? && Balanced(t.left) && Balanced(t.right) && Height(t.right) - Height(t.left) == 2
    ensures RightHeavy(t) && Balanced(FixedRight(t))
    ensures Height(FixedRight(t)) == Height(t) - if t.right.bal == 0 then 0 else 1
  {
  }

  /** Nothing shared between the four subtrees and the three nodes of a double rotation. */
  ghost predicate Apart4<T>(a: Tree<T>, x: Node<T>, b: Tree<T>, w: Node<T>, c: Tree<T>, y: Node<T>, d: Tree<T>) {
    Apart(a, x, b, w, c) && Apart(a, x, c, y, d) && Apart(a, w, b, y, d) && Apart(b, w, c, y, d)
  }

  lemma LeftApart4<T>(a: Tree<T>, x: Node<T>, i: int, b: Tree<T>, w: Node<T>, j: int, c: Tree<T>, y: Node<T>, k: int, d: Tree<T>)
    requires Distinct(Bin(Bin(a, x, i, Bin(b, w, j, c)), y, k, d))
    ensures Apart4(a, x, b, w, c, y, d)
  {
    var m := Bin(b, w, j, c);
    LeftApart(a, x, i, m, y, k, d);
    RightApart(a, x, i, b, w, j, c);
    assert forall n :: n in Nodes(m) <==> n in Nodes(b) || n == w || n in Nodes(c);
  }

  lemma RightApart4<T>(a: Tree<T>, x: Node<T>, i: int, b: Tree<T>, w: Node<T>, j: int, c: Tree<T>, y: Node<T>, k: int, d: Tree<T>)
    requires Distinct(Bin(a, x, i, Bin(Bin(b, w, j, c), y, k, d)))
    ensures Apart4(a, x, b, w, c, y, d)
  {
    var m := Bin(b, w, j, c);
    RightApart(a, x, i, m, y, k, d);
    LeftApart(b, w, j, c, y, k, d);
    assert forall n :: n in Nodes(m) <==> n in Nodes(b) || n == w || n in Nodes(c);
  }

  method SingleLeft<T>(y: Node<T>, x: Node<T>, ghost a: Tree<T>, ghost b: Tree<T>, ghost c: Tree<T>)
    requires y.link0 == x && Rep(a, x.link0) && Rep(b, x.link1) && Rep(c, y.link1) && Apart(a, x, b, y, c)
    modifies x, y
    ensures old(x.balance) == 0 ==> Rep(Bin(a, x, 1, Bin(b, y, -1, c)), x)
    ensures old(x.balance) != 0 ==> Rep(Bin(a, x, 0, Bin(b, y, 0, c)), x)
  {
    y.link0 := x.link1;
    x.link1 := y;
    if x.balance == 0 {
      x.balance, y.balance := 1, -1;
    } else {
      x.balance, y.balance := 0, 0;
    }
  }

  method SingleRight<T>(y: Node<T>, x: Node<T>, ghost a: Tree<T>, ghost b: Tree<T>, ghost c: Tree<T>)
    requires y.link1 == x && Rep(a, y.link0) && Rep(b, x.link0) && Rep(c, x.link1) && Apart(a, y, b, x, c)
    modifies x, y
    ensures old(x.balance) == 0 ==> Rep(Bin(Bin(a, y, 1, b), x, -1, c), x)
    ensures old(x.balance) != 0 ==> Rep(Bin(Bin(a, y, 0, b), x, 0, c), x)
  {
    y.link1 := x.link0;
    x.link0 := y;
    if x.balance == 0 {
      x.balance, y.balance := -1, 1;
    } else {
      x.balance, y.balance := 0, 0;
    }
  }

  /** The balances after a double rotation, of the node left of w, the one right of w, and w. */
  method DoubleBalances<T>(l: Node<T>, r: Node<T>, w: Node<T>)
    requires l != r && l != w && r != w && -1 <= w.balance <= 1
    modifies l`balance, r`balance, w`balance
    ensures l.balance == (if old(w.balance) == 1 then -1 else 0) && r.balance == (if old(w.balance) == -1 then 1 else 0)
    ensures w.balance == 0
  {
    if w.balance == -1 {
      l.balance, r.balance := 0, 1;
    } else if w.balance == 0 {
      l.balance, r.balance := 0, 0;
    } else {
      l.balance, r.balance := -1, 0;
    }
    w.balance := 0;
  }

  method DoubleLeft<T>(y: Node<T>, x: Node<T>, w: Node<T>, ghost a: Tree<T>, ghost b: Tree<T>, ghost c: Tree<T>, ghost d: Tree<T>)
    requires x.link1 == w && -1 <= w.balance <= 1 && Apart4(a, x, b, w, c, y, d)
    requires Rep(a, x.link0) && Rep(b, w.link0) && Rep(c, w.link1) && Rep(d, y.link1)
    modifies x, y, w
    ensures var j := old(w.balance);
            Rep(Bin(Bin(a, x, if j == 1 then -1 else 0, b), w, 0, Bin(c, y, if j == -1 then 1 else 0, d)), w)
  {
    x.link1 := w.link0;
    w.link0 := x;
    y.link0 := w.link1;
    w.link1 := y;
    Allocated(a); Allocated(b); Allocated(c); Allocated(d);
    DoubleBalances(x, y, w);
  }

  method DoubleRight<T>(y: Node<T>, x: Node<T>, w: Node<T>, ghost a: Tree<T>, ghost b: Tree<T>, ghost c: Tree<T>, ghost d: Tree<T>)
    requires x.link0 == w && -1 <= w.balance <= 1 && Apart4(a, y, b, w, c, x, d)
    requires Rep(a, y.link0) && Rep(b, w.link0) && Rep(c, w.link1) && Rep(d, x.link1)
    modifies x, y, w
    ensures var j := old(w.balance);
            Rep(Bin(Bin(a, y, if j == 1 then -1 else 0, b), w, 0, Bin(c, x, if j == -1 then 1 else 0, d)), w)
  {
    x.link0 := w.link1;
    w.link1 := x;
    y.link1 := w.link0;
    w.link0 := y;
    Allocated(a); Allocated(b); Allocated(c); Allocated(d);
    DoubleBalances(y, x, w);
  }

  /** The rotation at y, of which the left subtree is two levels too high; w is its new root. */
  method FixLeft<T>(y: Node<T>, ghost t: Tree<T>) returns (w: Node<T>)
    requires LeftHeavy(t) && Rep(t, y) && Distinct(t)
    modifies Nodes(t)
    ensures Rep(FixedLeft(t), w)
  {
    hide Distinct, Apart, Apart4;
    ghost var l := t.left;
    assert Rep(l, y.link0) && Nodes(l) <= Nodes(t);
    var x := y.link0;
    assert x in Nodes(l);
    if x.balance == 1 {
      assert l.right.node in Nodes(l.right) && Nodes(l.right) <= Nodes(l);
      assert Rep(l.right, x.link1);
      w := x.link1;
      LeftApart4(l.left, x, l.bal, l.right.left, w, l.right.bal, l.right.right, y, t.bal, t.right);
      DoubleLeft(y, x, w, l.left, l.right.left, l.right.right, t.right);
    } else {
      w := x;
      LeftApart(l.left, x, l.bal, l.right, y, t.bal, t.right);
      SingleLeft(y, x, l.left, l.right, t.right);
    }
  }

  method FixRight<T>(y: Node<T>, ghost t: Tree<T>) returns (w: Node<T>)
    requires RightHeavy(t) && Rep(t, y) && Distinct(t)
    modifies Nodes(t)
    ensures Rep(FixedRight(t), w)
  {
    hide Distinct, Apart, Apart4;
    ghost var r := t.right;
    assert Rep(r, y.link1) && Nodes(r) <= Nodes(t);
    var x := y.link1;
    assert x in Nodes(r);
    if x.balance == -1 {
      assert r.left.node in Nodes(r.left) && Nodes(r.left) <= Nodes(r);
      assert Rep(r.left, x.link0);
      w := x.link0;
      RightApart4(t.left, y, t.bal, r.left.left, w, r.left.bal, r.left.right, x, r.bal, r.right);
      DoubleRight(y, x, w, t.left, r.left.left, r.left.right, r.right);
    } else {
      w := x;
      RightApart(t.left, y, t.bal, r.left, x, r.bal, r.right);
      SingleRight(y, x, t.left, r.left, r.right);
    }
  }
}
