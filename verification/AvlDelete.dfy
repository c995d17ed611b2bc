/** `avl_delete`: find the node, unlink it with the help of its successor, rebalance upwards. */
module AvlDelete {
  import opened Wrappers
  import opened AvlTree
  import opened AvlHeight
  import opened AvlFocus
  import opened AvlShrink
  import opened AvlTable

  /** The stack holds these frames from a given entry on. */
  ghost predicate StackFrom<T>(d: Context<T>, pa: array<Node?<T>>, da: array<bool>, base: nat)
    reads pa, da
  {
    && base + |d| <= pa.Length == da.Length
    && forall j :: 0 <= j < |d| ==> pa[base + j] == d[j].node && da[base + j] == d[j].dir
  }

  /** The whole stack: at its bottom the table itself, then the path. */
  ghost predicate Stack<T>(c: Context<T>, pa: array<Node?<T>>, da: array<bool>, k: nat)
    reads pa, da
  {
    pa.Length > 0 && pa[0] == null && k == |c| + 1 && StackFrom(c, pa, da, 1)
  }

  lemma TopOfStack<T>(c: Context<T>, pa: array<Node?<T>>, da: array<bool>, k: nat)
    requires Stack(c, pa, da, k)
    ensures 0 < k == |c| + 1 <= pa.Length == da.Length
    ensures if c == [] then pa[k - 1] == null else pa[k - 1] == c[|c| - 1].node && da[k - 1] == c[|c| - 1].dir
  {
  }

  method Push<T>(pa: array<Node?<T>>, da: array<bool>, k: nat, ghost c: Context<T>, ghost f: Frame<T>, p: Node<T>, dir: bool)
    requires Stack(c, pa, da, k) && k < pa.Length && f.node == p && f.dir == dir
    modifies pa, da
    ensures Stack(c + [f], pa, da, k + 1)
  {
    pa[k] := p;
    da[k] := dir;
  }

  /** The stack with only the table on it. */
  method StartStack<T>(pa: array<Node?<T>>, da: array<bool>)
    requires pa.Length == da.Length > 0
    modifies pa, da
    ensures Stack([], pa, da, 1)
  {
    pa[0] := null;
    da[0] := false;
  }

  lemma DescentFacts<T>(a: AvlTable<T>, item: T, c: Context<T>, t: Tree<T>, p: Node?<T>)
    requires Descent(a.compare, item, a.tree, c, t, a.root, p) && Height(a.tree) < AVL_MAX_HEIGHT
    requires Searchable(a.compare, item, a.Contents())
    ensures Focus(c, t, a.root, p) && Plug(c, t) == a.tree
    ensures p != null ==> t.Bin? && t.node == p && p in a.Contents() && |c| + 1 < AVL_MAX_HEIGHT
    ensures p == null ==> !a.Has(item)
  {
    FocusRoot(c, t, a.root, p);
    if p != null {
      SearchHit(a.compare, item, a.Contents(), Before(c), t, After(c));
      PlugHeight(c, t);
    } else {
      SearchMiss(a.compare, item, a.Contents(), Before(c), After(c));
    }
  }

  lemma StepDown<T>(a: AvlTable<T>, item: T, c: Context<T>, t: Tree<T>, p: Node<T>, f: Frame<T>)
    requires Descent(a.compare, item, a.tree, c, t, a.root, p) && t.Bin? && Searchable(a.compare, item, a.Contents())
    requires Compare(a.compare, item, p.data) != 0 && f.dir == (Compare(a.compare, item, p.data) > 0)
    requires f.node == p && f.bal == p.balance && f.sibling == if f.dir then t.left else t.right
    ensures Descent(a.compare, item, a.tree, c + [f], if f.dir then t.right else t.left, a.root, if f.dir then p.link1 else p.link0)
  {
    DescentStep(a.compare, item, a.tree, c, t, a.root, p, f);
  }

  /** The search, with the path on the stack. */
  method Locate<T(==)>(a: AvlTable<T>, item: T, pa: array<Node?<T>>, da: array<bool>)
      returns (p: Node?<T>, k: nat, ghost c: Context<T>, ghost t: Tree<T>)
    requires a.Valid() && Searchable(a.compare, item, a.Contents()) && pa.Length == da.Length == AVL_MAX_HEIGHT
    requires a.count < 0x1_0000_0000_0000_0000
    modifies pa, da
    ensures p == null ==> !a.Has(item)
    ensures p != null ==> Focus(c, t, a.root, p) && t.Bin? && t.node == p && Plug(c, t) == a.tree && Stack(c, pa, da, k)
                          && p in a.Contents() && Compare(a.compare, item, p.data) == 0
  {
    hide *;
    ValidParts(a);
    SizeIsCount(a);
    HeightBound(a.tree);
    p, k, c, t := a.root, 1, [], a.tree;
    SomeHeight();
    Allocated(t);
    ContextAllocated(c);
    StartStack(pa, da);
    DescentStart(a.compare, item, a.tree, a.root);
    DescentFacts(a, item, c, t, p);
    while p != null
      invariant Descent(a.compare, item, a.tree, c, t, a.root, p) && Stack(c, pa, da, k)
      invariant Focus(c, t, a.root, p) && Plug(c, t) == a.tree
      invariant p != null ==> t.Bin? && t.node == p && p in a.Contents() && |c| + 1 < AVL_MAX_HEIGHT
      invariant p == null ==> !a.Has(item)
      decreases t
    {
      var cmp := Compare(a.compare, item, p.data);
      if cmp == 0 { return; }
      ghost var f := Frame(p, p.balance, if cmp > 0 then t.left else t.right, cmp > 0);
      StepDown(a, item, c, t, p, f);
      TopOfStack(c, pa, da, k);
      Allocated(if cmp > 0 then t.right else t.left);
      ContextAllocated(c + [f]);
      Push(pa, da, k, c, f, p, cmp > 0);
      k, c, t := k + 1, c + [f], if cmp > 0 then t.right else t.left;
      p := if cmp > 0 then p.link1 else p.link0;
      DescentFacts(a, item, c, t, p);
    }
  }

  lemma SomeHeight()
    ensures AVL_MAX_HEIGHT > 0
  {
  }

  lemma SizeIsCount<T>(a: AvlTable<T>)
    requires a.Valid()
    ensures Size(a.tree) == a.count
  {
  }

  /** No right subtree: the left one takes the place of p. */
  method ReplaceByLeft<T(==)>(a: AvlTable<T>, p: Node<T>, z: Node?<T>, dir: bool, ghost c: Context<T>, ghost l: Tree<T>, ghost b: int)
    requires Focus(c, Bin(l, p, b, Leaf), a.root, p)
    requires if c == [] then z == null else z == c[|c| - 1].node && dir == c[|c| - 1].dir
    modifies a`root, if z != null then {z} else {}
    ensures Focus(c, l, a.root, Root(l))
  {
    ghost var q := p.link0;
    a.SetLink(z, dir, p.link0, c, l, p);
    FocusRoot(c, l, a.root, q);
  }

  /** A context and two subtrees that share no node, and do not have n. */
  ghost predicate Parts<T>(c: Context<T>, l: Tree<T>, n: Node<T>, r: Tree<T>) {
    && ContextDistinct(c) && Distinct(l) && Distinct(r)
    && ContextNodes(c) !! Nodes(l) && ContextNodes(c) !! Nodes(r) && Nodes(l) !! Nodes(r)
    && n !in ContextNodes(c) && n !in Nodes(l) && n !in Nodes(r)
  }

  lemma TakeApart<T>(c: Context<T>, l: Tree<T>, p: Node<T>, b: int, r: Tree<T>, root: Node?<T>)
    requires Focus(c, Bin(l, p, b, r), root, p)
    ensures RepContext(c, root, p) && Rep(l, p.link0) && Rep(r, p.link1) && p.balance == b && Parts(c, l, p, r)
  {
  }

  lemma PutTogether<T>(c: Context<T>, l: Tree<T>, n: Node<T>, b: int, r: Tree<T>)
    requires Parts(c, l, n, r) && Rep(l, n.link0) && Rep(r, n.link1) && n.balance == b
    ensures Rep(Bin(l, n, b, r), n) && ContextDistinct(c) && Distinct(Bin(l, n, b, r)) && ContextNodes(c) !! Nodes(Bin(l, n, b, r))
  {
  }

  /** s, with the right subtree it has, takes the place, the left subtree and the balance of p. */
  method Adopt<T(==)>(a: AvlTable<T>, p: Node<T>, s: Node<T>, z: Node?<T>, dir: bool,
                      ghost c: Context<T>, ghost l: Tree<T>, ghost b: int, ghost r: Tree<T>)
    requires RepContext(c, a.root, p) && Rep(l, p.link0) && p.balance == b && Parts(c, l, s, r) && Rep(r, s.link1) && p != s
    requires if c == [] then z == null else z == c[|c| - 1].node && dir == c[|c| - 1].dir
    modifies a`root, s, if z != null then {z} else {}
    ensures Focus(c, Bin(l, s, b, r), a.root, s)
  {
    hide RepContext, Rep, ContextDistinct, Distinct;
    s.link0 := p.link0;
    s.balance := p.balance;
    PutTogether(c, l, s, b, r);
    a.SetLink(z, dir, s, c, Bin(l, s, b, r), p);
  }

  /** The right child s has no left subtree: it takes the place of p. */
  method ReplaceByChild<T(==)>(a: AvlTable<T>, p: Node<T>, s: Node<T>, z: Node?<T>, dir: bool,
                               ghost c: Context<T>, ghost l: Tree<T>, ghost b: int, ghost bs: int, ghost t: Tree<T>)
    requires Focus(c, Bin(l, p, b, Bin(Leaf, s, bs, t)), a.root, p)
    requires if c == [] then z == null else z == c[|c| - 1].node && dir == c[|c| - 1].dir
    modifies a`root, s, if z != null then {z} else {}
    ensures Focus(c + [Frame(s, b, l, true)], t, a.root, Root(t))
  {
    hide RepContext, Focus, ContextDistinct;
    TakeApart(c, l, p, b, Bin(Leaf, s, bs, t), a.root);
    ChildParts(c, l, p, s, bs, t);
    Adopt(a, p, s, z, dir, c, l, b, t);
    FocusDown(c, Frame(s, b, l, true), t, a.root);
    FocusRoot(c + [Frame(s, b, l, true)], t, a.root, s.link1);
  }

  lemma ChildParts<T>(c: Context<T>, l: Tree<T>, p: Node<T>, s: Node<T>, bs: int, t: Tree<T>)
    requires Parts(c, l, p, Bin(Leaf, s, bs, t))
    ensures Parts(c, l, s, t) && s != p
  {
  }

  lemma SuccessorApart<T>(c: Context<T>, f: Frame<T>, e: Context<T>, s: Node<T>, t: Tree<T>, l: Tree<T>, p: Node<T>)
    requires Parts(c + [f] + e, Leaf, s, t) && f.node == p && f.sibling == l && Parts(c, l, p, Plug(e, t))
    ensures Parts(c, l, s, Plug(e, t)) && s != p
    ensures e != [] ==> s != e[|e| - 1].node && e[|e| - 1].node in ContextNodes(c + [f] + e)
  {
    hide ContextDistinct, Distinct;
    NodesOfPlug(e, t);
    ContextAppend(c + [f], e);
    ContextAppend(c, [f]);
    assert [f][..0] == [] && ContextNodes([f]) == {p} + Nodes(l);
    if e != [] { FrameNode(e, |e| - 1); }
  }

  method TakeRight<T>(p: Node<T>, s: Node<T>, ghost root: Node?<T>, ghost c: Context<T>, ghost l: Tree<T>, ghost b: int, ghost r: Tree<T>)
    requires RepContext(c, root, p) && Rep(l, p.link0) && Rep(r, p.link1) && p.balance == b && Parts(c, l, s, r) && s != p
    modifies s`link1
    ensures RepContext(c, root, p) && Rep(l, p.link0) && p.balance == b && Rep(r, s.link1)
  {
    s.link1 := p.link1;
  }

  /** The leftmost node s of the right subtree, below r, takes the place of p; its right subtree takes its own. */
  method ReplaceBySuccessor<T(==)>(a: AvlTable<T>, p: Node<T>, r: Node<T>, s: Node<T>, z: Node?<T>, dir: bool, ghost c: Context<T>,
                                   ghost f: Frame<T>, ghost e: Context<T>, ghost bs: int, ghost t: Tree<T>)
    requires Focus(c + [f] + e, Bin(Leaf, s, bs, t), a.root, s) && f.node == p && f.dir
    requires e != [] && r == e[|e| - 1].node && !e[|e| - 1].dir
    requires if c == [] then z == null else z == c[|c| - 1].node && dir == c[|c| - 1].dir
    modifies a`root, s, r, if z != null then {z} else {}
    ensures Focus(c + [f.(node := s)] + e, t, a.root, Root(t))
  {
    hide *;
    ghost var d := c + [f] + e;
    TakeApart(d, Leaf, s, bs, t, a.root);
    LastFrame(c, f, e);
    PartsOf(d, s, t);
    a.SetLink(r, false, s.link1, d, t, s);
    FocusUpTo(c + [f], e, t, a.root, s.link1);
    UpOnce(c, f, Plug(e, t), a.root);
    TakeApart(c, f.sibling, p, f.bal, Plug(e, t), a.root);
    SuccessorApart(c, f, e, s, t, f.sibling, p);
    TakeRight(p, s, a.root, c, f.sibling, f.bal, Plug(e, t));
    Adopt(a, p, s, z, dir, c, f.sibling, f.bal, Plug(e, t));
    DownAgain(c, f.(node := s), e, t, a.root);
  }

  lemma LastFrame<T>(c: Context<T>, f: Frame<T>, e: Context<T>)
    requires e != []
    ensures c + [f] + e != [] && (c + [f] + e)[|c + [f] + e| - 1] == e[|e| - 1]
  {
  }

  lemma PartsOf<T>(d: Context<T>, s: Node<T>, t: Tree<T>)
    requires Parts(d, Leaf, s, t)
    ensures ContextDistinct(d) && Distinct(t) && ContextNodes(d) !! Nodes(t)
    ensures d != [] ==> d[|d| - 1].node != s
  {
    if d != [] { FrameNode(d, |d| - 1); }
  }

  lemma UpOnce<T>(c: Context<T>, f: Frame<T>, t: Tree<T>, root: Node?<T>)
    requires Focus(c + [f], t, root, Root(t)) && f.dir
    ensures Focus(c, Bin(f.sibling, f.node, f.bal, t), root, f.node)
  {
    FocusUp(c + [f], t, root, Root(t));
    assert (c + [f])[..|c|] == c;
  }

  lemma DownAgain<T>(c: Context<T>, f: Frame<T>, e: Context<T>, t: Tree<T>, root: Node?<T>)
    requires Focus(c, Bin(f.sibling, f.node, f.bal, Plug(e, t)), root, f.node) && f.dir
    ensures Focus(c + [f] + e, t, root, Root(t))
  {
    FocusDown(c, f, Plug(e, t), root);
    var q := FocusAllDown(c + [f], e, t, root, Hole(f));
    FocusRoot(c + [f] + e, t, root, q);
  }

  /** One step to the left on the way to the successor. */
  lemma LeftStep<T>(d: Context<T>, e: Context<T>, t: Tree<T>, whole: Tree<T>, root: Node?<T>, r: Node<T>, f: Frame<T>)
    requires Focus(d + e, t, root, r) && t.Bin? && t.left.Bin? && Plug(e, t) == whole && AllLeft(e)
    requires f == Frame(r, r.balance, t.right, false)
    ensures Focus(d + (e + [f]), t.left, root, r.link0) && Plug(e + [f], t.left) == whole && AllLeft(e + [f])
    ensures r.link0 != null && r.link0 == t.left.node && (r.link0.link0 == null <==> t.left.left.Leaf?)
    ensures |e| + 2 <= Height(whole)
  {
    hide Focus, Plug, Height;
    FocusRoot(d + e, t, root, r);
    FocusBalance(d + e, t, root, r);
    assert Fill(f, t.left) == t;
    FocusDown(d + e, f, t.left, root);
    assert d + e + [f] == d + (e + [f]);
    ContextStep(e, f);
    PlugHeight(e, t);
    TwoLevels(t);
    FocusTree(d + (e + [f]), t.left, root, r.link0);
  }

  lemma TwoLevels<T>(t: Tree<T>)
    requires t.Bin? && t.left.Bin?
    ensures Height(t) >= 2
  {
  }

  lemma FocusTree<T>(c: Context<T>, t: Tree<T>, root: Node?<T>, q: Node?<T>)
    requires Focus(c, t, root, q) && t.Bin?
    ensures q == t.node && (q.link0 == null <==> t.left.Leaf?) && (q.link1 == null <==> t.right.Leaf?)
  {
    TreeRoot(t, q);
  }

  lemma TreeRoot<T>(t: Tree<T>, p: Node?<T>)
    requires Rep(t, p) && t.Bin?
    ensures p == t.node && (p.link0 == null <==> t.left.Leaf?) && (p.link1 == null <==> t.right.Leaf?)
  {
  }

  method PushFrom<T>(pa: array<Node?<T>>, da: array<bool>, base: nat, ghost c: Context<T>, ghost e: Context<T>, ghost f: Frame<T>, k: nat, r: Node<T>)
    requires base > 0 && Stack(c, pa, da, base - 1) && StackFrom(e, pa, da, base) && k == base + |e| < pa.Length
    requires f.node == r && !f.dir
    modifies pa, da
    ensures Stack(c, pa, da, base - 1) && StackFrom(e + [f], pa, da, base)
  {
    da[k] := false;
    pa[k] := r;
  }

  /** Down to the leftmost node s; the nodes on the way, the last of which is r, go on the stack. */
  method FindSuccessor<T>(pa: array<Node?<T>>, da: array<bool>, base: nat, first: Node<T>, ghost root: Node?<T>,
                            ghost c: Context<T>, ghost d: Context<T>, ghost whole: Tree<T>)
      returns (r: Node<T>, s: Node<T>, k: nat, ghost e: Context<T>, ghost t: Tree<T>)
    requires Focus(d, whole, root, first) && whole.Bin? && whole.left.Bin? && base + Height(whole) <= pa.Length == da.Length
    requires base > 0 && Stack(c, pa, da, base - 1)
    modifies pa, da
    ensures e != [] && AllLeft(e) && r == e[|e| - 1].node && !e[|e| - 1].dir && k == base + |e| && StackFrom(e, pa, da, base)
    ensures Plug(e, t) == whole && t.Bin? && t.left.Leaf? && t.node == s && Focus(d + e, t, root, s)
    ensures Stack(c, pa, da, base - 1)
  {
    hide Stack, Focus, Plug, Height, ContextNodes, Nodes, AllLeft;
    r, k, e, t := first, base, [], whole;
    SuccessorStart(d, whole);
    while true
      invariant Focus(d + e, t, root, r) && t.Bin? && t.left.Bin? && Plug(e, t) == whole && AllLeft(e)
      invariant k == base + |e| && StackFrom(e, pa, da, base)
      invariant Stack(c, pa, da, base - 1)
      decreases t
    {
      ghost var f := Frame(r, r.balance, t.right, false);
      LeftStep(d, e, t, whole, root, r, f);
      ContextAllocated(d + (e + [f]));
      Allocated(t.left);
      PushFrom(pa, da, base, c, e, f, k, r);
      k, e, t := k + 1, e + [f], t.left;
      s := r.link0;
      if s.link0 == null { return; }
      r := s;
    }
  }

  lemma SuccessorStart<T>(d: Context<T>, t: Tree<T>)
    ensures d + [] == d && Plug([], t) == t && AllLeft<T>([])
  {
  }

  /** s goes to the entry kept for it, between the path to p and the path below. */
  method StoreSuccessor<T>(pa: array<Node?<T>>, da: array<bool>, j: nat, s: Node<T>, ghost c: Context<T>, ghost f: Frame<T>, ghost e: Context<T>)
    requires Stack(c, pa, da, j) && j < pa.Length && StackFrom(e, pa, da, j + 1) && f.node == s && f.dir
    modifies pa, da
    ensures Stack(c + [f] + e, pa, da, j + 1 + |e|)
  {
    da[j] := true;
    pa[j] := s;
  }

  /** p is out of the tree: the path leads to the place where a level was lost. */
  ghost predicate Unlinked<T>(c: Context<T>, t: Tree<T>, c': Context<T>, t': Tree<T>, root: Node?<T>)
    reads ContextNodes(c') + Nodes(t')
    requires t.Bin?
  {
    && Focus(c', t', root, Root(t')) && Short(c', t', false)
    && Before(c') + InOrder(t') + After(c') == Without(c, t.left, t.right)
  }

  method UnlinkLeft<T(==)>(a: AvlTable<T>, p: Node<T>, z: Node?<T>, dir: bool, ghost c: Context<T>, ghost t: Tree<T>)
    requires Focus(c, t, a.root, p) && t.Bin? && t.node == p && t.right.Leaf? && Balanced(Plug(c, t))
    requires if c == [] then z == null else z == c[|c| - 1].node && dir == c[|c| - 1].dir
    modifies a`root, if z != null then {z} else {}
    ensures Unlinked(c, t, c, t.left, a.root)
  {
    hide *;
    ReplaceByLeft(a, p, z, dir, c, t.left, t.bal);
    WithoutRight(c, t.left, p, t.bal);
    NowUnlinked(c, t, c, t.left, a.root);
  }

  lemma NowUnlinked<T>(c: Context<T>, t: Tree<T>, c': Context<T>, t': Tree<T>, root: Node?<T>)
    requires t.Bin? && Focus(c', t', root, Root(t')) && Short(c', t', false)
    requires Before(c') + InOrder(t') + After(c') == Without(c, t.left, t.right)
    ensures Unlinked(c, t, c', t', root)
  {
  }

  method UnlinkChild<T(==)>(a: AvlTable<T>, p: Node<T>, s: Node<T>, z: Node?<T>, dir: bool, ghost c: Context<T>, ghost t: Tree<T>)
      returns (ghost f: Frame<T>)
    requires Focus(c, t, a.root, p) && t.Bin? && t.node == p && t.right.Bin? && t.right.node == s && t.right.left.Leaf? && Balanced(Plug(c, t))
    requires if c == [] then z == null else z == c[|c| - 1].node && dir == c[|c| - 1].dir
    modifies a`root, s, if z != null then {z} else {}
    ensures f.node == s && f.dir && Unlinked(c, t, c + [f], t.right.right, a.root)
  {
    hide *;
    ghost var r := t.right;
    f := Frame(s, t.bal, t.left, true);
    ReplaceByChild(a, p, s, z, dir, c, t.left, t.bal, r.bal, r.right);
    WithChild(c, t.left, p, t.bal, s, r.bal, r.right, f);
    NowUnlinked(c, t, c + [f], r.right, a.root);
  }

  method UnlinkBySuccessor<T(==)>(a: AvlTable<T>, p: Node<T>, r: Node<T>, s: Node<T>, z: Node?<T>, dir: bool, ghost c: Context<T>,
                                  ghost t: Tree<T>, ghost e: Context<T>, ghost u: Tree<T>) returns (ghost f: Frame<T>)
    requires t.Bin? && t.node == p && Balanced(Plug(c, t)) && Plug(e, u) == t.right && u.Bin? && u.left.Leaf? && u.node == s
    requires Focus(c + [Frame(p, t.bal, t.left, true)] + e, u, a.root, s)
    requires e != [] && AllLeft(e) && r == e[|e| - 1].node && !e[|e| - 1].dir
    requires if c == [] then z == null else z == c[|c| - 1].node && dir == c[|c| - 1].dir
    modifies a`root, s, r, if z != null then {z} else {}
    ensures f.node == s && f.dir && Unlinked(c, t, c + [f] + e, u.right, a.root)
  {
    hide *;
    ghost var g := Frame(p, t.bal, t.left, true);
    f := g.(node := s);
    ReplaceBySuccessor(a, p, r, s, z, dir, c, g, e, u.bal, u.right);
    WithSuccessor(c, t.left, p, t.bal, e, s, u.bal, u.right, f);
    NowUnlinked(c, t, c + [f] + e, u.right, a.root);
  }

  lemma PlaceOf<T>(c: Context<T>, t: Tree<T>)
    requires t.Bin? && Height(Plug(c, t)) < AVL_MAX_HEIGHT
    ensures |c| + 1 < AVL_MAX_HEIGHT && t.node in Nodes(t)
    ensures c != [] ==> c[|c| - 1].node in ContextNodes(c)
  {
    PlugHeight(c, t);
    if c != [] { FrameNode(c, |c| - 1); }
  }

  lemma RightChild<T>(c: Context<T>, t: Tree<T>, root: Node?<T>, p: Node<T>)
    requires Focus(c, t, root, p) && t.Bin? && t.right.Bin?
    ensures p.link1 != null && p.link1 == t.right.node && (p.link1.link0 == null <==> t.right.left.Leaf?)
    ensures t.right.node in Nodes(t) && |c| + 1 + Height(t.right) <= Height(Plug(c, t))
    ensures Focus(c + [Frame(p, t.bal, t.left, true)], t.right, root, p.link1)
  {
    hide Focus;
    FocusRoot(c, t, root, p);
    FocusDown(c, Frame(p, t.bal, t.left, true), t.right, root);
    FocusTree(c + [Frame(p, t.bal, t.left, true)], t.right, root, p.link1);
    PlugHeight(c, t);
  }

  lemma SuccessorNodes<T>(t: Tree<T>, e: Context<T>, u: Tree<T>)
    requires t.Bin? && t.right == Plug(e, u) && u.Bin? && e != []
    ensures u.node in Nodes(t) && e[|e| - 1].node in Nodes(t)
  {
    NodesOfPlug(e, u);
    FrameNode(e, |e| - 1);
  }

  method Unlink<T(==)>(a: AvlTable<T>, p: Node<T>, pa: array<Node?<T>>, da: array<bool>, k0: nat, ghost c: Context<T>, ghost t: Tree<T>)
      returns (k: nat, ghost c': Context<T>, ghost t': Tree<T>)
    requires Focus(c, t, a.root, p) && t.Bin? && t.node == p && Balanced(Plug(c, t)) && Height(Plug(c, t)) < AVL_MAX_HEIGHT
    requires Stack(c, pa, da, k0) && pa.Length == da.Length == AVL_MAX_HEIGHT
    modifies a`root, ContextNodes(c), Nodes(t), pa, da
    ensures Unlinked(c, t, c', t', a.root) && Stack(c', pa, da, k)
  {
    hide *;
    k := k0;
    TopOfStack(c, pa, da, k);
    FocusTree(c, t, a.root, p);
    PlaceOf(c, t);
    var z, dir := pa[k - 1], da[k - 1];
    if p.link1 == null {
      UnlinkLeft(a, p, z, dir, c, t);
      c', t' := c, t.left;
    } else {
      ghost var f := Frame(p, t.bal, t.left, true);
      RightChild(c, t, a.root, p);
      var r := p.link1;
      if r.link0 == null {
        f := UnlinkChild(a, p, r, z, dir, c, t);
        c', t' := c + [f], t.right.right;
        ContextAllocated(c');
        Allocated(t');
        Push(pa, da, k, c, f, r, true);
        k := k + 1;
      } else {
        var j := k;
        var s;
        ghost var e, u;
        ContextAllocated(c);
        Allocated(t);
        r, s, k, e, u := FindSuccessor(pa, da, j + 1, r, a.root, c, c + [f], t.right);
        SuccessorNodes(t, e, u);
        f := UnlinkBySuccessor(a, p, r, s, z, dir, c, t, e, u);
        c', t' := c + [f] + e, u.right;
        ContextAllocated(c');
        Allocated(t');
        StoreSuccessor(pa, da, j, s, c, f, e);
      }
    }
  }

  // ---- Rebalancing upwards ----

  lemma ShrinkStart<T>(up: Context<T>, f: Frame<T>, t: Tree<T>, y: Tree<T>)
    requires Short(up + [f], t, false) && y == Fill(Shrunk(f), t)
    ensures ShrinkCases(f, t, y) && ContextBalanced(up, FrameHeight(f, Height(t) + 1))
    ensures Before(up) + InOrder(y) + After(up) == Before(up + [f]) + InOrder(t) + After(up + [f])
  {
    hide Balanced, Height, ShrinkCases, FrameHeight, FrameBalanced, InOrder;
    ContextStep(up, f);
    assert (up + [f])[..|up|] == up;
    FrameShrinks(f, t);
    FillInOrder(Shrunk(f), t);
    ShrunkSame(f);
    Regroup(Before(up), FrameBefore(f), InOrder(t), FrameAfter(f), After(up));
  }

  lemma ShrunkSame<T>(f: Frame<T>)
    ensures FrameBefore(Shrunk(f)) == FrameBefore(f) && FrameAfter(Shrunk(f)) == FrameAfter(f)
  {
  }

  method Bend<T>(y: Node<T>, right: bool, ghost up: Context<T>, ghost f: Frame<T>, ghost t: Tree<T>, ghost root: Node?<T>)
    requires Focus(up + [f], t, root, Root(t)) && f.node == y && f.dir == right
    modifies y`balance
    ensures Focus(up, Fill(Shrunk(f), t), root, y)
  {
    FocusUp(up + [f], t, root, Root(t));
    assert (up + [f])[..|up|] == up;
    if right { y.balance := y.balance - 1; } else { y.balance := y.balance + 1; }
  }

  /** The rotation for a lost level: w is the new root, `even` says that no level is lost after all. */
  method RotateShrunk<T>(y: Node<T>, ghost f: Frame<T>, ghost t: Tree<T>, ghost u: Tree<T>)
      returns (w: Node<T>, even: bool, ghost u': Tree<T>)
    requires Rep(u, y) && Distinct(u) && ShrinkCases(f, t, u) && (y.balance == 2 || y.balance == -2)
    modifies Nodes(u)
    ensures Rep(u', w) && Rotated(u, u') && Balanced(u')
    ensures Height(u') + (if even then 0 else 1) == FrameHeight(f, Height(t) + 1)
  {
    hide FixedLeft, FixedRight, Rotated, Distinct;
    if y.balance == 2 {
      FixedRightBalanced(u);
      FixedRightSame(u);
      u' := FixedRight(u);
      RightEven(u, y);
      even := y.link1.balance == 0;
      w := FixRight(y, u);
    } else {
      FixedLeftBalanced(u);
      FixedLeftSame(u);
      u' := FixedLeft(u);
      LeftEven(u, y);
      even := y.link0.balance == 0;
      w := FixLeft(y, u);
    }
  }

  lemma RightEven<T>(u: Tree<T>, y: Node<T>)
    requires Rep(u, y) && u.Bin? && u.right.Bin?
    ensures y.link1 == u.right.node && y.link1.balance == u.right.bal
  {
  }

  lemma LeftEven<T>(u: Tree<T>, y: Node<T>)
    requires Rep(u, y) && u.Bin? && u.left.Bin?
    ensures y.link0 == u.left.node && y.link0.balance == u.left.bal
  {
  }

  lemma ShrunkNow<T>(up: Context<T>, f: Frame<T>, t: Tree<T>, u: Tree<T>, y: Node<T>)
    requires ShrinkCases(f, t, u) && ContextBalanced(up, FrameHeight(f, Height(t) + 1)) && Rep(u, y)
    ensures y.balance == u.bal && u.Bin?
    ensures y.balance != 2 && y.balance != -2 ==> Short(up, u, y.balance != 0)
    ensures y.balance == (if f.dir then -2 else 2) || y.balance == (if f.dir then -1 else 1) || y.balance == 0
  {
  }

  lemma FocusParts<T>(c: Context<T>, t: Tree<T>, root: Node?<T>, q: Node?<T>)
    requires Focus(c, t, root, q)
    ensures RepContext(c, root, q) && Rep(t, q) && ContextDistinct(c) && Distinct(t) && ContextNodes(c) !! Nodes(t)
  {
  }

  lemma RotatedParts<T>(u: Tree<T>, u': Tree<T>)
    requires Rotated(u, u') && Distinct(u)
    ensures InOrder(u') == InOrder(u) && Nodes(u') == Nodes(u) && Distinct(u')
  {
  }

  lemma NowShort<T>(up: Context<T>, u: Tree<T>, even: bool, h: nat)
    requires Balanced(u) && Height(u) + (if even then 0 else 1) == h && ContextBalanced(up, h)
    ensures Short(up, u, even)
  {
  }

  /** One step up: y is told that one of its subtrees lost a level. */
  method ShrinkStep<T(==)>(a: AvlTable<T>, y: Node<T>, right: bool, z: Node?<T>, dir: bool, ghost up: Context<T>, ghost f: Frame<T>, ghost t: Tree<T>)
      returns (done: bool, ghost u: Tree<T>)
    requires Focus(up + [f], t, a.root, Root(t)) && Short(up + [f], t, false) && f.node == y && f.dir == right
    requires if up == [] then z == null else z == up[|up| - 1].node && dir == up[|up| - 1].dir
    modifies a`root, ContextNodes(up + [f]), Nodes(t)
    ensures Focus(up, u, a.root, Root(u)) && Short(up, u, done)
    ensures Before(up) + InOrder(u) + After(up) == Before(up + [f]) + InOrder(t) + After(up + [f])
  {
    hide *;
    u := Fill(Shrunk(f), t);
    ContextAllocated(up);
    Allocated(u);
    StepNodes(up, f, t, u);
    ShrinkStart(up, f, t, u);
    Bend(y, right, up, f, t, a.root);
    FocusParts(up, u, a.root, y);
    ShrunkNow(up, f, t, u, y);
    FocusRoot(up, u, a.root, y);
    if y.balance == (if right then -1 else 1) {
      return true, u;
    } else if y.balance == (if right then -2 else 2) {
      var w;
      ghost var v;
      w, done, v := RotateShrunk(y, f, t, u);
      RotatedParts(u, v);
      a.SetLink(z, dir, w, up, v, y);
      FocusRoot(up, v, a.root, w);
      NowShort(up, v, done, FrameHeight(f, Height(t) + 1));
      u := v;
    } else {
      done := false;
    }
  }

  lemma StepNodes<T>(up: Context<T>, f: Frame<T>, t: Tree<T>, u: Tree<T>)
    requires u == Fill(Shrunk(f), t)
    ensures ContextNodes(up + [f]) + Nodes(t) == ContextNodes(up) + Nodes(u) && f.node in ContextNodes(up + [f])
    ensures up != [] ==> up[|up| - 1].node in ContextNodes(up)
  {
    assert (up + [f])[..|up|] == up;
    if up != [] { FrameNode(up, |up| - 1); }
  }

  // ---- The whole deletion ----

  lemma OrderNodes<T>(c: Context<T>, t: Tree<T>, rest: seq<Node<T>>)
    requires Before(c) + InOrder(t) + After(c) == rest
    ensures ContextNodes(c) + Nodes(t) == AsSet(rest)
  {
    hide *;
    PlugInOrder(c, t);
    InOrderSet(Plug(c, t));
    NodesOfPlug(c, t);
  }

  /** p stands between what is before it and what is after it. */
  lemma TakenOut<T>(cmp: (T, T) -> int, c: Context<T>, t: Tree<T>, whole: seq<Node<T>>, rest: seq<Node<T>>)
    requires t.Bin? && whole == InOrder(Plug(c, t)) && Sorted(cmp, whole) && rest == Without(c, t.left, t.right)
    ensures Inserted(rest, t.node, whole) && Sorted(cmp, rest) && |whole| == |rest| + 1 && AsSet(rest) <= AsSet(whole)
    ensures AsSet(whole) == ContextNodes(c) + Nodes(t)
  {
    hide Sorted, Inserted, Before, After, Plug;
    PlugInOrder(c, t);
    var b, a := Before(c) + InOrder(t.left), InOrder(t.right) + After(c);
    assert whole == b + [t.node] + a;
    assert rest == b + a;
    SortedWithout(cmp, b, t.node, a);
    InsertedBetween(b, t.node, a);
    OrderNodes(c, t, whole);
  }

  lemma PopStack<T>(c: Context<T>, pa: array<Node?<T>>, da: array<bool>, k: nat)
    requires Stack(c, pa, da, k) && c != []
    ensures Stack(c[..|c| - 1], pa, da, k - 1)
  {
  }

  /** The loop up the stack; it ends early where no level is lost any more. */
  method ShrinkUp<T(==)>(a: AvlTable<T>, pa: array<Node?<T>>, da: array<bool>, k0: nat, ghost c0: Context<T>, ghost t0: Tree<T>, ghost rest: seq<Node<T>>)
      returns (ghost tree: Tree<T>)
    requires Focus(c0, t0, a.root, Root(t0)) && Short(c0, t0, false) && Stack(c0, pa, da, k0)
    requires Before(c0) + InOrder(t0) + After(c0) == rest
    modifies a`root, AsSet(rest)
    ensures Holds(tree, a.root) && InOrder(tree) == rest
  {
    hide *;
    ghost var c, t := c0, t0;
    var done := false;
    TopOfStack(c, pa, da, k0);
    var k := k0 - 1;
    while k > 0
      invariant Focus(c, t, a.root, Root(t)) && Short(c, t, false) && k == |c| && Stack(c, pa, da, k + 1) && !done
      invariant Before(c) + InOrder(t) + After(c) == rest
    {
      ghost var up, f := c[..|c| - 1], c[|c| - 1];
      assert c == up + [f];
      TopOfStack(c, pa, da, k + 1);
      PopStack(c, pa, da, k + 1);
      TopOfStack(up, pa, da, k);
      OrderNodes(c, t, rest);
      done, t := ShrinkStep(a, pa[k], da[k], pa[k - 1], da[k - 1], up, f, t);
      c := up;
      if done { break; }
      k := k - 1;
    }
    ShortDone(c, t, done);
    FocusAllUp(c, t, a.root, Root(t));
    PlugInOrder(c, t);
    tree := Plug(c, t);
    HoldsNow(tree, a.root);
  }

  /** The item is gone, and nothing else: the result says which one it was. */
  method Delete<T(==)>(a: AvlTable<T>, item: T) returns (r: Option<T>, ghost p: Node?<T>)
    requires a.Valid() && Searchable(a.compare, item, a.Contents()) && a.count < 0x1_0000_0000_0000_0000
    modifies a, Nodes(a.tree)
    ensures a.Valid() && Nodes(a.tree) <= old(Nodes(a.tree))
    ensures !old(a.Has(item)) ==> r.None? && a.Contents() == old(a.Contents())
    ensures old(a.Has(item)) ==> p != null && r == Some(p.data) && Compare(a.compare, item, p.data) == 0
    ensures p != null ==> old(a.Has(item)) && Inserted(a.Contents(), p, old(a.Contents()))
  {
    hide *;
    ValidParts(a);
    Allocated(a.tree);
    ghost var whole := a.Contents();
    var pa := new Node?<T>[AVL_MAX_HEIGHT](_ => null);
    var da := new bool[AVL_MAX_HEIGHT];
    var q, k;
    ghost var c, t, c', t';
    q, k, c, t := Locate(a, item, pa, da);
    p := q;
    if q == null { return None, null; }
    ghost var rest := Without(c, t.left, t.right);
    SizeIsCount(a);
    HeightBound(a.tree);
    Found(a, item, q);
    TakenOut(a.compare, c, t, whole, rest);
    InOrderSet(a.tree);
    k, c', t' := Unlink(a, q, pa, da, k, c, t);
    UnlinkedParts(c, t, c', t', a.root);
    ghost var tree := ShrinkUp(a, pa, da, k, c', t', rest);
    Allocated(tree);
    a.tree := tree;
    a.count := a.count - 1;
    r := Some(q.data);
    ValidNow(a, rest);
  }

  lemma UnlinkedParts<T>(c: Context<T>, t: Tree<T>, c': Context<T>, t': Tree<T>, root: Node?<T>)
    requires t.Bin? && Unlinked(c, t, c', t', root)
    ensures Focus(c', t', root, Root(t')) && Short(c', t', false)
    ensures Before(c') + InOrder(t') + After(c') == Without(c, t.left, t.right)
  {
  }

  lemma ValidNow<T>(a: AvlTable<T>, s: seq<Node<T>>)
    requires Holds(a.tree, a.root) && InOrder(a.tree) == s && Sorted(a.compare, s) && a.count == |s|
    ensures a.Valid() && a.Contents() == s && Nodes(a.tree) == AsSet(s)
  {
    hide Nodes, InOrder, Sorted;
    InOrderSet(a.tree);
  }
}
