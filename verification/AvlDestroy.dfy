/** `avl_destroy`: frees the nodes in order without a stack, turning the tree into a list on the way. */
module AvlDestroy {
  import opened Wrappers
  import opened AvlTree
  import opened AvlFocus
  import opened AvlTable
  import opened AvlDelete

  /** Nodes that are not on the right spine. */
  ghost function OffSpine<T>(t: Tree<T>): nat {
    if t.Leaf? then 0 else |InOrder(t.left)| + OffSpine(t.right)
  }

  lemma SpineGrows<T>(a: Tree<T>, q: Node<T>, i: int, b: Tree<T>, p: Node<T>, j: int, c: Tree<T>)
    ensures OffSpine(Bin(a, q, i, Bin(b, p, j, c))) < OffSpine(Bin(Bin(a, q, i, b), p, j, c))
  {
  }

  /** No node occurs twice. */
  lemma {:induction false} OnceEach<T>(t: Tree<T>, i: nat, j: nat)
    requires Distinct(t) && i < j < |InOrder(t)|
    ensures InOrder(t)[i] != InOrder(t)[j]
  {
    var l, r := InOrder(t.left), InOrder(t.right);
    InOrderSet(t.left);
    InOrderSet(t.right);
    if j < |l| {
      OnceEach(t.left, i, j);
    } else if i > |l| {
      OnceEach(t.right, i - |l| - 1, j - |l| - 1);
    } else {
      assert i < |l| ==> l[i] in AsSet(l);
      assert j > |l| ==> r[j - |l| - 1] in AsSet(r);
    }
  }

  /** One rotation of the loop: the left child q comes on the spine above p. */
  method RotateSpine<T>(p: Node<T>, ghost t: Tree<T>) returns (q: Node<T>, ghost u: Tree<T>)
    requires Rep(t, p) && Distinct(t) && t.Bin? && t.left.Bin?
    modifies Nodes(t)
    ensures Rep(u, q) && Rotated(t, u) && OffSpine(u) < OffSpine(t)
  {
    hide Rotated, OffSpine, Distinct, Apart;
    ghost var a, b, c := t.left.left, t.left.right, t.right;
    u := Bin(a, t.left.node, t.left.bal, Bin(b, t.node, t.bal, c));
    RotateRight(a, t.left.node, t.left.bal, b, t.node, t.bal, c, t.left.bal, t.bal);
    SpineGrows(a, t.left.node, t.left.bal, b, t.node, t.bal, c);
    LeftApart(a, t.left.node, t.left.bal, b, t.node, t.bal, c);
    NoLeft(t, p);
    q := Relink(p, a, t.left.bal, b, t.bal, c);
  }

  method Relink<T>(p: Node<T>, ghost a: Tree<T>, ghost i: int, ghost b: Tree<T>, ghost j: int, ghost c: Tree<T>) returns (q: Node<T>)
    requires p.link0 != null && Rep(Bin(a, p.link0, i, b), p.link0) && Rep(c, p.link1) && p.balance == j && Apart(a, p.link0, b, p, c)
    modifies p, p.link0
    ensures q == old(p.link0) && Rep(Bin(a, q, i, Bin(b, p, j, c)), q)
  {
    q := p.link0;
    p.link0 := q.link1;
    q.link1 := p;
  }

  lemma NoLeft<T>(t: Tree<T>, p: Node<T>)
    requires Rep(t, p)
    ensures t.Bin? && t.node == p && (p.link0 == null <==> t.left.Leaf?)
    ensures p.link0 == null ==> Rep(t.right, p.link1) && InOrder(t) == [p] + InOrder(t.right)
    ensures p.link0 != null ==> p.link0 == t.left.node && p.link0 in Nodes(t) && p in Nodes(t)
  {
  }

  lemma NothingLeft<T>(t: Tree<T>)
    requires Rep(t, null)
    ensures InOrder(t) == []
  {
  }

  lemma FirstFreed<T>(t: Tree<T>, freed: seq<Node<T>>)
    requires Distinct(t) && t.Bin? && t.left.Leaf? && AsSet(freed) !! Nodes(t)
    ensures Nodes(t.right) <= Nodes(t) && Distinct(t.right) && AsSet(freed + [t.node]) !! Nodes(t.right) && t.node !in freed
  {
    assert t.node !in AsSet(freed);
    assert forall n :: n in AsSet(freed + [t.node]) ==> n in AsSet(freed) || n == t.node;
  }

  /** Every node is freed exactly once, in ascending order, and none is touched after it was freed. */
  method Destroy<T(==)>(a: AvlTable<T>) returns (freed: seq<Node<T>>)
    requires a.Valid()
    modifies Nodes(a.tree)
    ensures freed == old(a.Contents())
    ensures forall i, j :: 0 <= i < j < |freed| ==> freed[i] != freed[j]
  {
    hide *;
    ValidParts(a);
    FocusParts([], a.tree, a.root, a.root);
    ghost var whole, t, nodes := a.Contents(), a.tree, Nodes(a.tree);
    var p := a.root;
    freed := [];
    NothingFreed(t);
    while p != null
      invariant Rep(t, p) && Distinct(t) && Nodes(t) <= nodes && freed + InOrder(t) == whole && AsSet(freed) !! Nodes(t)
      decreases |InOrder(t)|, OffSpine(t)
    {
      NoLeft(t, p);
      if p.link0 == null {
        FirstFreed(t, freed);
        var q := p.link1;
        freed := freed + [p];
        t := t.right;
        p := q;
      } else {
        ghost var u;
        p, u := RotateSpine(p, t);
        RotatedParts(t, u);
        t := u;
      }
    }
    NothingLeft(t);
    forall i, j | 0 <= i < j < |freed| ensures freed[i] != freed[j] { OnceEach(a.tree, i, j); }
  }

  lemma NothingFreed<T>(t: Tree<T>)
    ensures AsSet<Node<T>>([]) !! Nodes(t)
  {
  }
}
