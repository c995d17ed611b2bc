/** `avl_table`: the search tree behind the plugin's indexes. */
module AvlTable {
  import opened Wrappers
  import opened AvlTree
  import opened AvlHeight
  import opened AvlFocus
  import opened AvlGrowth

  /** The search for an item has come down to the subtree t. */
  ghost predicate Search<T>(cmp: (T, T) -> int, item: T, whole: seq<Node<T>>, before: seq<Node<T>>, t: Tree<T>, after: seq<Node<T>>) {
    whole == before + InOrder(t) + after && Fits(cmp, item, before, after)
  }

  ghost predicate Searchable<T>(cmp: (T, T) -> int, item: T, whole: seq<Node<T>>) {
    Orders(cmp, Items(whole) + {item}) && Sorted(cmp, whole)
  }

  lemma SearchStart<T>(cmp: (T, T) -> int, item: T, t: Tree<T>)
    ensures Search(cmp, item, InOrder(t), [], t, [])
  {
  }

  lemma SearchStep<T>(cmp: (T, T) -> int, item: T, whole: seq<Node<T>>, before: seq<Node<T>>, t: Tree<T>, after: seq<Node<T>>)
    requires Searchable(cmp, item, whole) && t.Bin? && Search(cmp, item, whole, before, t, after)
    ensures Compare(cmp, item, t.node.data) < 0 ==> Search(cmp, item, whole, before, t.left, [t.node] + InOrder(t.right) + after)
    ensures Compare(cmp, item, t.node.data) > 0 ==> Search(cmp, item, whole, before + (InOrder(t.left) + [t.node]), t.right, after)
  {
    hide Sorted, Orders, Fits;
    var l, n, r := InOrder(t.left), t.node, InOrder(t.right);
    if Compare(cmp, item, n.data) < 0 {
      FitsLeft(cmp, item, before, l, n, r, after);
      assert before + (l + [n] + r) + after == before + l + ([n] + r + after);
    } else if Compare(cmp, item, n.data) > 0 {
      FitsRight(cmp, item, before, l, n, r, after);
      assert before + (l + [n] + r) + after == (before + (l + [n])) + r + after;
    }
  }

  lemma SearchMiss<T>(cmp: (T, T) -> int, item: T, whole: seq<Node<T>>, before: seq<Node<T>>, after: seq<Node<T>>)
    requires Searchable(cmp, item, whole) && Search(cmp, item, whole, before, Leaf, after)
    ensures forall n :: n in whole ==> Compare(cmp, item, n.data) != 0
    ensures forall x :: x in Items(whole) ==> Compare(cmp, item, x) != 0
  {
    forall n | n in whole ensures Compare(cmp, item, n.data) != 0 {
      assert n in before || n in after;
      assert n.data in Items(whole);
    }
  }

  lemma SearchHit<T>(cmp: (T, T) -> int, item: T, whole: seq<Node<T>>, before: seq<Node<T>>, t: Tree<T>, after: seq<Node<T>>)
    requires t.Bin? && Search(cmp, item, whole, before, t, after)
    ensures t.node in whole && t.node.data in Items(whole)
  {
    assert whole[|before| + |InOrder(t.left)|] == t.node;
  }

  /** The walk down of an insertion: c leads to q, and y, below z, is its lowest uneven node
      (or the root); `da` holds the directions from y on. */
  ghost predicate Path<T>(c: Context<T>, i: nat, da: array<bool>, k: nat, root: Node?<T>, z: Node?<T>, y: Node?<T>, q: Node?<T>, dir: bool)
    reads da
  {
    && i <= |c| && k == |c| - i && k <= da.Length && (forall j :: 0 <= j < k ==> da[j] == c[i + j].dir)
    && (i == |c| ==> c == []) && (forall j :: i < j < |c| ==> c[j].bal == 0) && (0 < i ==> c[i].bal != 0)
    && z == (if i == 0 then null else c[i - 1].node) && y == (if c == [] then root else c[i].node)
    && q == (if c == [] then null else c[|c| - 1].node) && (c != [] ==> dir == c[|c| - 1].dir)
  }

  lemma StartPath<T>(da: array<bool>, root: Node?<T>)
    ensures Path([], 0, da, 0, root, null, root, null, false)
  {
  }

  lemma DescentBound<T>(c: Context<T>, t: Tree<T>)
    requires t.Bin? && Height(Plug(c, t)) < AVL_MAX_HEIGHT
    ensures |c| < AVL_MAX_HEIGHT
  {
    PlugHeight(c, t);
  }

  /** Half-way down: the tree is focused on t, where the item belongs. */
  ghost predicate Descent<T>(cmp: (T, T) -> int, item: T, tree: Tree<T>, c: Context<T>, t: Tree<T>, root: Node?<T>, p: Node?<T>)
    reads ContextNodes(c) + Nodes(t)
  {
    Focus(c, t, root, p) && Plug(c, t) == tree && Search(cmp, item, InOrder(tree), Before(c), t, After(c))
  }

  lemma DescentStart<T>(cmp: (T, T) -> int, item: T, tree: Tree<T>, root: Node?<T>)
    requires Focus([], tree, root, root)
    ensures Descent(cmp, item, tree, [], tree, root, root)
  {
    SearchStart(cmp, item, tree);
  }

  lemma DescentStep<T>(cmp: (T, T) -> int, item: T, tree: Tree<T>, c: Context<T>, t: Tree<T>, root: Node?<T>, p: Node<T>, f: Frame<T>)
    requires Descent(cmp, item, tree, c, t, root, p) && t.Bin? && Searchable(cmp, item, InOrder(tree))
    requires Compare(cmp, item, p.data) != 0 && f.dir == (Compare(cmp, item, p.data) > 0)
    requires f.node == p && f.bal == p.balance && f.sibling == if f.dir then t.left else t.right
    ensures Descent(cmp, item, tree, c + [f], if f.dir then t.right else t.left, root, Hole(f))
  {
    hide Searchable, Search, Focus;
    FocusRoot(c, t, root, p);
    SearchStep(cmp, item, InOrder(tree), Before(c), t, After(c));
    FocusBalance(c, t, root, p);
    assert Fill(f, if f.dir then t.right else t.left) == t;
    assert f.dir ==> FrameAfter(f) + After(c) == After(c);
    assert !f.dir ==> Before(c) + FrameBefore(f) == Before(c);
    FocusDown(c, f, if f.dir then t.right else t.left, root);
    ContextStep(c, f);
  }

  lemma FocusBalance<T>(c: Context<T>, t: Tree<T>, root: Node?<T>, p: Node?<T>)
    requires Focus(c, t, root, p) && t.Bin?
    ensures t.node.balance == t.bal
  {
  }

  lemma ContextStep<T>(c: Context<T>, f: Frame<T>)
    ensures Before(c + [f]) == Before(c) + FrameBefore(f) && After(c + [f]) == FrameAfter(f) + After(c)
    ensures forall t :: Plug(c + [f], t) == Plug(c, Fill(f, t))
  {
    assert (c + [f])[..|c|] == c;
  }

  method PathStep<T>(ghost c: Context<T>, ghost i: nat, da: array<bool>, k: nat, ghost root: Node?<T>, z: Node?<T>, y: Node?<T>,
                     q: Node?<T>, ghost dir: bool, p: Node<T>, ghost f: Frame<T>, cmp: int)
      returns (ghost i': nat, k': nat, z': Node?<T>, y': Node?<T>, dir': bool)
    requires Path(c, i, da, k, root, z, y, q, dir) && |c| < da.Length && (c == [] ==> p == root)
    requires f.node == p && f.bal == p.balance && f.dir == (cmp > 0)
    modifies da
    ensures Path(c + [f], i', da, k', root, z', y', p, dir') && dir' == (cmp > 0)
  {
    i', k', z', y' := i, k, z, y;
    if p.balance != 0 {
      i', z', y', k' := |c|, q, p, 0;
    }
    dir' := cmp > 0;
    da[k'] := dir';
    k' := k' + 1;
  }

  lemma HoleReached<T>(c: Context<T>, d: Context<T>, u: Tree<T>, root: Node?<T>, p: Node?<T>)
    requires Focus(c, Plug(d, u), root, p) && u.Bin?
    ensures p == u.node <==> d == []
    ensures d != [] ==> p == d[0].node
  {
    if d != [] {
      PlugFirst(d, u);
      NodesOfPlug(d[1..], u);
    }
  }

  lemma {:induction false} FrameNode<T>(d: Context<T>, k: nat)
    requires k < |d|
    ensures d[k].node in ContextNodes(d)
  {
    if k < |d| - 1 { FrameNode(d[..|d| - 1], k); }
  }

  /** Which link of z leads to y can be told by looking at its left one. */
  lemma HoleDirection<T>(c: Context<T>, t: Tree<T>, root: Node?<T>, y: Node<T>)
    requires Focus(c, t, root, y) && c != []
    ensures c[|c| - 1].dir == (y != c[|c| - 1].node.link0)
  {
    var f := c[|c| - 1];
    FocusRoot(c, t, root, y);
    if f.dir { SiblingRoot(f.sibling, f.node.link0); }
  }

  lemma SiblingRoot<T>(t: Tree<T>, p: Node?<T>)
    requires Rep(t, p)
    ensures p == null || p in Nodes(t)
  {
  }

  lemma EvenAgain<T>(t: Tree<T>, t0: Tree<T>, bal: int, y: Node<T>, c: Context<T>)
    requires Rep(t, y) && OffByOne(t0, t, bal) && y.balance != -2 && y.balance != 2
    requires ContextBalanced(c, Height(t0)) && (bal == 0 ==> c == [])
    ensures Balanced(t) && ContextBalanced(c, Height(t))
  {
  }

  lemma {:induction false} ContextAppend<T>(c: Context<T>, d: Context<T>)
    ensures ContextNodes(c + d) == ContextNodes(c) + ContextNodes(d)
  {
    if d == [] {
      assert c + d == c;
    } else {
      assert (c + d)[..|c + d| - 1] == c + d[..|d| - 1];
      ContextAppend(c, d[..|d| - 1]);
    }
  }

  /** A new leaf at the end of the path: what it does to the two halves of the path. */
  lemma LeafAttached<T>(c: Context<T>, d: Context<T>, root: Node?<T>, n: Node<T>, u: Tree<T>)
    requires Focus(c + d, u, root, n) && u == Bin(Leaf, n, 0, Leaf) && d != []
    ensures Focus(c, Plug(d, u), root, d[0].node)
  {
    FocusUpTo(c, d, u, root, n);
    PlugFirst(d, u);
  }

  lemma PathBalanced<T>(c: Context<T>, d: Context<T>, tree: Tree<T>, u: Tree<T>)
    requires tree == Plug(c + d, Leaf) && Balanced(tree) && d != [] && AllEven(d[1..]) && Balanced(u) && Height(u) == 1
    ensures ContextBalanced(c, Height(Plug(d, Leaf))) && OffByOne(Plug(d, Leaf), Plug(AllGrown(d), u), d[0].bal)
  {
    hide OffByOne, Balanced, Height;
    PlugAppend(c, d, Leaf);
    PlugBalanced(c, Plug(d, Leaf));
    GrownAtTop(d, u, Plug(d, Leaf), Plug(AllGrown(d), u));
  }

  /** The new node stands where the walk ended. */
  lemma InsertedInOrder<T>(c: Context<T>, d: Context<T>, n: Node<T>, u: Tree<T>, t: Tree<T>)
    requires u == Bin(Leaf, n, 0, Leaf) && InOrder(t) == InOrder(Plug(AllGrown(d), u))
    ensures InOrder(Plug(c, t)) == Before(c + d) + [n] + After(c + d)
  {
    hide Before, After, Plug;
    GrownInOrder(d, u, u);
    PlugInOrder(c, t);
    PlugInOrder(c, Plug(d, u));
    PlugAppend(c, d, u);
    PlugInOrder(c + d, u);
    LeafInOrder(n);
  }

  lemma LeafInOrder<T>(n: Node<T>)
    ensures InOrder(Bin(Leaf, n, 0, Leaf)) == [n]
  {
  }

  /** The tree in the heap, balanced. */
  ghost predicate Holds<T>(tree: Tree<T>, root: Node?<T>)
    reads Nodes(tree)
  {
    Focus([], tree, root, root) && Balanced(tree)
  }

  class AvlTable<T(==)> {
    var root: Node?<T>
    const compare: (T, T) -> int
    var count: nat
    ghost var tree: Tree<T>

    ghost predicate Valid()
      reads this, Nodes(tree)
    {
      && Focus([], tree, root, root) && Balanced(tree)
      && Sorted(compare, InOrder(tree)) && count == |InOrder(tree)|
    }

    /** The nodes in ascending order. */
    ghost function Contents(): seq<Node<T>>
      reads this
    {
      InOrder(tree)
    }

    constructor (compare: (T, T) -> int)
      ensures Valid() && Contents() == [] && this.compare == compare
    {
      this.compare := compare;
      root, count, tree := null, 0, Leaf;
    }

    method Find(item: T) returns (r: Option<T>)
      requires Valid() && Orders(compare, Items(Contents()) + {item})
      ensures r.Some? ==> r.value in Items(Contents()) && Compare(compare, item, r.value) == 0
      ensures r.None? ==> forall x :: x in Items(Contents()) ==> Compare(compare, item, x) != 0
    {
      hide Orders, Sorted, Balanced, Fits, Search, Contents, Searchable, Distinct, Items, InOrder, Nodes;
      SearchStart(compare, item, tree);
      TreeContents(this, item);
      ghost var t, before, after := tree, [], [];
      var p := root;
      while p != null
        invariant Rep(t, p) && Search(compare, item, Contents(), before, t, after)
        decreases t
      {
        SearchStep(compare, item, Contents(), before, t, after);
        SearchHit(compare, item, Contents(), before, t, after);
        var c := Compare(compare, item, p.data);
        if c < 0 {
          after, t, p := [t.node] + InOrder(t.right) + after, t.left, p.link0;
        } else if c > 0 {
          before, t, p := before + (InOrder(t.left) + [t.node]), t.right, p.link1;
        } else {
          return Some(p.data);
        }
      }
      SearchMiss(compare, item, Contents(), before, after);
      return None;
    }

    /** `link[dir]` of z, or the root when z stands for the table. */
    method SetLink(z: Node?<T>, dir: bool, w: Node?<T>, ghost c: Context<T>, ghost t: Tree<T>, ghost q: Node?<T>)
      requires RepContext(c, root, q) && Rep(t, w) && ContextDistinct(c) && Distinct(t) && ContextNodes(c) !! Nodes(t)
      requires if c == [] then z == null else z == c[|c| - 1].node && dir == c[|c| - 1].dir
      modifies `root, if z != null then {z} else {}
      ensures Focus(c, t, root, w) && (z != null ==> root == old(root))
    {
      if z == null {
        root := w;
      } else if dir {
        z.link1 := w;
      } else {
        z.link0 := w;
      }
    }

    /** The walk down: either the item is there, or its place is free. */
    method Descend(item: T, da: array<bool>)
        returns (z: Node?<T>, y: Node?<T>, p: Node?<T>, q: Node?<T>, dir: bool, k: nat, ghost c: Context<T>, ghost i: nat, ghost t: Tree<T>)
      requires Valid() && Searchable(compare, item, Contents()) && da.Length == AVL_MAX_HEIGHT && count < 0x1_0000_0000_0000_0000
      modifies da
      ensures p != null ==> p in Contents() && Compare(compare, item, p.data) == 0
      ensures p == null ==> Focus(c, Leaf, root, null) && Plug(c, Leaf) == tree && Path(c, i, da, k, root, z, y, q, dir)
                            && Search(compare, item, Contents(), Before(c), Leaf, After(c))
    {
      hide Orders, Sorted, Balanced, Searchable, Path, Search, Before, After, Plug;
      z, y, p, q, dir, k, c, i, t := null, root, root, null, false, 0, [], 0, tree;
      StartPath(da, root);
      DescentStart(compare, item, tree, root);
      HeightBound(tree);
      while p != null
        invariant Descent(compare, item, tree, c, t, root, p) && Path(c, i, da, k, root, z, y, q, dir) && (c == [] ==> p == root)
        decreases t
      {
        SearchHit(compare, item, Contents(), Before(c), t, After(c));
        var cmp := Compare(compare, item, p.data);
        if cmp == 0 { return; }
        ghost var f := Frame(p, p.balance, if cmp > 0 then t.left else t.right, cmp > 0);
        DescentStep(compare, item, tree, c, t, root, p, f);
        DescentBound(c, t);
        ContextAllocated(c + [f]);
        Allocated(t);
        i, k, z, y, dir := PathStep(c, i, da, k, root, z, y, q, dir, p, f, cmp);
        c, t := c + [f], if cmp > 0 then t.right else t.left;
        q := p;
        p := if dir then p.link1 else p.link0;
      }
    }

    method Bump(p: Node<T>, right: bool, ghost c: Context<T>, ghost f: Frame<T>, ghost t: Tree<T>)
      requires Focus(c, Fill(f, t), root, p) && p == f.node && right == f.dir
      modifies p`balance
      ensures Focus(c, Fill(Grown(f), t), root, p) && Focus(c + [Grown(f)], t, root, Hole(f))
    {
      if right {
        p.balance := p.balance + 1;
      } else {
        p.balance := p.balance - 1;
      }
      FocusDown(c, Grown(f), t, root);
    }

    /** The balances from y down to the new node. */
    method UpdateBalances(y: Node<T>, n: Node<T>, da: array<bool>, ghost c: Context<T>, ghost d: Context<T>, ghost u: Tree<T>)
      requires Focus(c, Plug(d, u), root, y) && u == Bin(Leaf, n, 0, Leaf)
      requires d != [] && |d| <= da.Length && forall j :: 0 <= j < |d| ==> da[j] == d[j].dir
      modifies ContextNodes(d)
      ensures Focus(c, Plug(AllGrown(d), u), root, y)
    {
      hide Focus, Plug, ContextNodes;
      ghost var e := AllGrown(d);
      var p, k := y, 0;
      assert c + e[..0] == c && d[0..] == d;
      HoleReached(c, d, u, root, p);
      while p != n
        invariant k <= |d| && Focus(c + e[..k], Plug(d[k..], u), root, p) && (p == n <==> k == |d|)
        invariant forall j :: 0 <= j < |d| ==> da[j] == d[j].dir
        decreases |d| - k
      {
        PlugFirst(d[k..], u);
        assert d[k..][1..] == d[k + 1..] && c + e[..k + 1] == c + e[..k] + [e[k]];
        HoleReached(c + e[..k], d[k..], u, root, p);
        FrameNode(d, k);
        Bump(p, da[k], c + e[..k], d[k], Plug(d[k + 1..], u));
        p := if da[k] then p.link1 else p.link0;
        k := k + 1;
        HoleReached(c + e[..k], d[k..], u, root, p);
      }
      assert c + e[..k] == c + e && d[k..] == [];
      PlugNone(u);
      FocusUpTo(c, e, u, root, p);
      PlugFirst(e, u);
    }

    /** The rotation at y, whose balance is 2 or -2. */
    static method RotateAt(y: Node<T>, ghost t: Tree<T>, ghost t0: Tree<T>, ghost bal: int) returns (w: Node<T>, ghost t': Tree<T>)
      requires Rep(t, y) && Distinct(t) && OffByOne(t0, t, bal) && (y.balance == -2 || y.balance == 2)
      modifies Nodes(t)
      ensures Rep(t', w) && Rotated(t, t') && Balanced(t') && Height(t') == Height(t0)
    {
      hide FixedLeft, FixedRight, Rotated, Distinct;
      if y.balance == -2 {
        FixedLeftBalanced(t);
        FixedLeftSame(t);
        t' := FixedLeft(t);
        w := FixLeft(y, t);
      } else {
        FixedRightBalanced(t);
        FixedRightSame(t);
        t' := FixedRight(t);
        w := FixRight(y, t);
      }
    }

    /** Rotate at y if need be, and hang the new subtree below z. */
    method Rebalance(z: Node?<T>, y: Node<T>, ghost c: Context<T>, ghost t: Tree<T>, ghost t0: Tree<T>, ghost bal: int)
        returns (ghost t': Tree<T>)
      requires Focus(c, t, root, y) && OffByOne(t0, t, bal) && ContextBalanced(c, Height(t0)) && (bal == 0 ==> c == [])
      requires z == if c == [] then null else c[|c| - 1].node
      modifies `root, Nodes(t), ContextNodes(c)
      ensures Focus(c, t', root, Root(t')) && Balanced(Plug(c, t')) && InOrder(t') == InOrder(t) && Nodes(t') == Nodes(t)
    {
      hide Plug, Balanced, Height, OffByOne, InOrder, Nodes, Rep, Distinct;
      FocusRoot(c, t, root, y);
      t' := t;
      if y.balance != -2 && y.balance != 2 {
        EvenAgain(t, t0, bal, y, c);
        PlugBalanced(c, t);
        return;
      }
      ContextAllocated(c);
      if c != [] { HoleDirection(c, t, root, y); }
      var dir := z != null && y != z.link0;
      var w;
      w, t' := RotateAt(y, t, t0, bal);
      SetLink(z, dir, w, c, t', y);
      FocusRoot(c, t', root, w);
      PlugBalanced(c, t');
    }

    /** The second part of an insertion: balances from y down, and the rotation at y. */
    method Restore(z: Node?<T>, y: Node<T>, n: Node<T>, da: array<bool>, ghost c: Context<T>, ghost i: nat, ghost u: Tree<T>)
        returns (ghost t: Tree<T>)
      requires i < |c| && Focus(c, u, root, n) && u == Bin(Leaf, n, 0, Leaf) && Balanced(Plug(c, Leaf))
      requires Path(c, i, da, |c| - i, root, z, y, c[|c| - 1].node, c[|c| - 1].dir)
      modifies `root, ContextNodes(c), n
      ensures Holds(t, root) && InOrder(t) == Before(c) + [n] + After(c) && Nodes(t) == ContextNodes(c) + {n}
    {
      hide *;
      ghost var top, d := c[..i], c[i..];
      PathFacts(c, i, top, d, da, root, z, y);
      ContextAllocated(c);
      LeafAttached(top, d, root, n, u);
      LeafBalanced(n);
      PathBalanced(top, d, Plug(c, Leaf), u);
      SplitNodes(top, d, u);
      UpdateBalances(y, n, da, top, d, u);
      ghost var t' := Rebalance(z, y, top, Plug(AllGrown(d), u), Plug(d, Leaf), d[0].bal);
      InsertedInOrder(top, d, n, u, t');
      NodesOfPlug(top, t');
      FocusAllUp(top, t', root, Root(t'));
      t := Plug(top, t');
      HoldsNow(t, root);
    }

    /** Is there an item equal to this one? */
    ghost predicate Has(item: T)
      reads this
    {
      exists n :: n in Contents() && Compare(compare, item, n.data) == 0
    }

    /** The node that holds the item, or an equal one; a new node goes where the order wants it. */
    method Probe(item: T) returns (n: Node<T>)
      requires Valid() && Searchable(compare, item, Contents()) && count < 0x1_0000_0000_0000_0000
      modifies this, Nodes(tree)
      ensures Valid() && fresh(Nodes(tree) - old(Nodes(tree)))
      ensures old(Has(item)) ==> Contents() == old(Contents()) && n in Contents() && Compare(compare, item, n.data) == 0
      ensures !old(Has(item)) ==> fresh(n) && n.data == item && Inserted(old(Contents()), n, Contents())
    {
      hide *;
      ValidParts(this);
      Allocated(tree);
      var da := new bool[AVL_MAX_HEIGHT];
      var z, y, p, q, dir, k;
      ghost var c, i, t;
      z, y, p, q, dir, k, c, i, t := Descend(item, da);
      if p != null {
        Found(this, item, p);
        return p;
      }
      Missed(this, item, c);
      PathAfter(c, i, da, k, root, z, y, q, dir);
      n := Attach(item, da, q, dir, c);
      ghost var u := Bin(Leaf, n, 0, Leaf);
      if y == null {
        FirstNode(root, n, u, c);
        Allocated(u);
        tree := u;
      } else {
        tree := Restore(z, y, n, da, c, i, u);
      }
      Allocated(tree);
      count := count + 1;
      ValidAgain(this, item, old(Contents()), c, n);
    }

    /** `avl_insert`: nothing, or the equal item that was there already. */
    method Insert(item: T) returns (duplicate: Option<T>, ghost n: Node<T>)
      requires Valid() && Searchable(compare, item, Contents()) && count < 0x1_0000_0000_0000_0000
      modifies this, Nodes(tree)
      ensures Valid() && fresh(Nodes(tree) - old(Nodes(tree)))
      ensures old(Has(item)) ==> Contents() == old(Contents())
      ensures old(Has(item)) && duplicate.Some? ==> duplicate.value in Items(Contents()) && Compare(compare, item, duplicate.value) == 0
      ensures old(Has(item)) && duplicate.None? ==> item in Items(Contents())
      ensures !old(Has(item)) ==> duplicate.None? && fresh(n) && n.data == item && Inserted(old(Contents()), n, Contents())
    {
      hide Valid, Searchable, Nodes, Contents, Has, Inserted;
      var p := Probe(item);
      n := p;
      if old(Has(item)) { HasItem(p, Contents()); }
      duplicate := if p.data == item then None else Some(p.data);
    }

    method Attach(item: T, da: array<bool>, q: Node?<T>, dir: bool, ghost c: Context<T>) returns (n: Node<T>)
      requires Focus(c, Leaf, root, null)
      requires if c == [] then q == null else q == c[|c| - 1].node && dir == c[|c| - 1].dir
      modifies `root, ContextNodes(c)
      ensures fresh(n) && n.data == item && Focus(c, Bin(Leaf, n, 0, Leaf), root, n) && (c != [] ==> root == old(root))
    {
      hide *;
      ContextAllocated(c);
      Allocated<T>(Leaf);
      n := new Node(item);
      if c != [] { FrameNode(c, |c| - 1); }
      LeafFits(c, root, n);
      SetLink(q, dir, n, c, Bin(Leaf, n, 0, Leaf), null);
    }
  }

  /** One more node somewhere in a sequence. */
  ghost predicate Inserted<T>(s: seq<Node<T>>, n: Node<T>, t: seq<Node<T>>) {
    exists k :: 0 <= k <= |s| && t == s[..k] + [n] + s[k..]
  }

  lemma HasItem<T>(n: Node<T>, s: seq<Node<T>>)
    requires n in s
    ensures n.data in Items(s)
  {
  }

  lemma TreeContents<T>(a: AvlTable<T>, item: T)
    requires a.Valid() && Orders(a.compare, Items(a.Contents()) + {item})
    ensures a.Contents() == InOrder(a.tree) && Searchable(a.compare, item, a.Contents())
  {
  }

  lemma ValidParts<T>(a: AvlTable<T>)
    requires a.Valid()
    ensures Focus([], a.tree, a.root, a.root) && Balanced(a.tree)
    ensures a.Contents() == InOrder(a.tree) && Sorted(a.compare, InOrder(a.tree)) && a.count == |InOrder(a.tree)|
  {
  }

  lemma Found<T>(a: AvlTable<T>, item: T, p: Node<T>)
    requires p in a.Contents() && Compare(a.compare, item, p.data) == 0
    ensures a.Has(item)
  {
  }

  lemma Missed<T>(a: AvlTable<T>, item: T, c: Context<T>)
    requires Searchable(a.compare, item, a.Contents()) && Search(a.compare, item, a.Contents(), Before(c), Leaf, After(c))
    requires Plug(c, Leaf) == a.tree
    ensures !a.Has(item) && Nodes(a.tree) == ContextNodes(c)
  {
    SearchMiss(a.compare, item, a.Contents(), Before(c), After(c));
    NodesOfPlug(c, Leaf);
  }

  lemma LeafFits<T>(c: Context<T>, root: Node?<T>, n: Node<T>)
    requires Focus(c, Leaf, root, null) && n !in ContextNodes(c) && n.link0 == n.link1 == null && n.balance == 0
    ensures var u := Bin(Leaf, n, 0, Leaf);
            RepContext(c, root, null) && Rep(u, n) && ContextDistinct(c) && Distinct(u) && ContextNodes(c) !! Nodes(u)
  {
  }

  lemma PathAfter<T>(c: Context<T>, i: nat, da: array<bool>, k: nat, root: Node?<T>, z: Node?<T>, y: Node?<T>, q: Node?<T>, dir: bool)
    requires Path(c, i, da, k, root, z, y, q, dir) && Focus(c, Leaf, root, null)
    ensures if c == [] then q == null else q == c[|c| - 1].node && dir == c[|c| - 1].dir
    ensures (y == null <==> c == []) && (c != [] ==> i < |c|)
    ensures c != [] ==> Path(c, i, da, |c| - i, root, z, y, c[|c| - 1].node, c[|c| - 1].dir)
  {
  }

  lemma FirstNode<T>(root: Node?<T>, n: Node<T>, u: Tree<T>, c: Context<T>)
    requires c == [] && Focus(c, u, root, n) && u == Bin(Leaf, n, 0, Leaf)
    ensures Holds(u, root) && InOrder(u) == Before(c) + [n] + After(c) && Nodes(u) == ContextNodes(c) + {n}
  {
  }

  /** A table with one more node where the search ended is as it should be. */
  lemma ValidAgain<T>(a: AvlTable<T>, item: T, whole: seq<Node<T>>, c: Context<T>, n: Node<T>)
    requires Holds(a.tree, a.root) && InOrder(a.tree) == Before(c) + [n] + After(c) && n.data == item
    requires Search(a.compare, item, whole, Before(c), Leaf, After(c)) && Sorted(a.compare, whole) && a.count == |whole| + 1
    ensures a.Valid() && Inserted(whole, n, a.Contents())
  {
    hide Before, After, Fits, Sorted, Inserted, Focus;
    WholeContext(a.compare, item, whole, c);
    FitsSorted(a.compare, n, Before(c), After(c));
    InsertedBetween(Before(c), n, After(c));
  }

  lemma WholeContext<T>(cmp: (T, T) -> int, item: T, whole: seq<Node<T>>, c: Context<T>)
    requires Search(cmp, item, whole, Before(c), Leaf, After(c))
    ensures whole == Before(c) + After(c) && Fits(cmp, item, Before(c), After(c))
  {
  }

  lemma InsertedBetween<T>(b: seq<Node<T>>, n: Node<T>, a: seq<Node<T>>)
    ensures Inserted(b + a, n, b + [n] + a)
  {
    assert (b + a)[..|b|] == b && (b + a)[|b|..] == a;
  }

  lemma PathFacts<T>(c: Context<T>, i: nat, top: Context<T>, d: Context<T>, da: array<bool>, root: Node?<T>, z: Node?<T>, y: Node<T>)
    requires i < |c| && top == c[..i] && d == c[i..] && Path(c, i, da, |c| - i, root, z, y, c[|c| - 1].node, c[|c| - 1].dir)
    ensures c == top + d && d != [] && |d| <= da.Length && (forall j :: 0 <= j < |d| ==> da[j] == d[j].dir)
    ensures y == d[0].node && AllEven(d[1..]) && (d[0].bal == 0 ==> top == [])
    ensures z == if top == [] then null else top[|top| - 1].node
  {
  }

  lemma SplitNodes<T>(top: Context<T>, d: Context<T>, u: Tree<T>)
    ensures ContextNodes(top + d) == ContextNodes(top) + ContextNodes(d)
    ensures Nodes(Plug(AllGrown(d), u)) == ContextNodes(d) + Nodes(u)
    ensures u.Bin? && u.left.Leaf? && u.right.Leaf? ==> Nodes(u) == {u.node}
  {
    ContextAppend(top, d);
    GrownInOrder(d, u, u);
    NodesOfPlug(d, u);
  }

  lemma HoldsNow<T>(t: Tree<T>, root: Node?<T>)
    requires Focus([], t, root, root) && Balanced(t)
    ensures Holds(t, root)
  {
  }

  lemma LeafBalanced<T>(n: Node<T>)
    ensures Balanced(Bin(Leaf, n, 0, Leaf)) && Height(Bin(Leaf, n, 0, Leaf)) == 1
  {
  }

  lemma ItemsOfThree<T>(b: seq<Node<T>>, n: Node<T>, a: seq<Node<T>>)
    ensures Items(b + [n] + a) == Items(b + a) + {n.data}
  {
    var s, t := b + [n] + a, b + a;
    assert forall x {:trigger x in s} :: x in s <==> x in t || x == n;
    assert t <= t && n in s;
    forall d ensures d in Items(s) <==> d in Items(t) + {n.data} {
      if d in Items(t) { var x :| x in t && x.data == d; assert x in s; }
    }
  }

  /** In a sorted sequence different positions hold different items. */
  lemma SortedApart<T>(cmp: (T, T) -> int, t: seq<Node<T>>, i: nat, j: nat)
    requires Sorted(cmp, t) && Orders(cmp, Items(t)) && i < |t| && j < |t| && i != j
    ensures t[i].data != t[j].data
  {
    var a, b := t[i].data, t[j].data;
    HasItem(t[i], t);
    HasItem(t[j], t);
    assert Compare(cmp, a, b) < 0 || Compare(cmp, b, a) < 0;
  }

  /** One node more is exactly one item more. */
  lemma OneItemMore<T>(cmp: (T, T) -> int, s: seq<Node<T>>, n: Node<T>, t: seq<Node<T>>)
    requires Inserted(s, n, t) && Sorted(cmp, t) && Orders(cmp, Items(t))
    ensures Items(t) == Items(s) + {n.data} && n.data !in Items(s) && |t| == |s| + 1
  {
    hide Sorted, Orders;
    var k :| 0 <= k <= |s| && t == s[..k] + [n] + s[k..];
    InsertedItems(s, n, k);
    forall i | 0 <= i < |s| ensures s[i].data != n.data {
      var j := if i < k then i else i + 1;
      InsertedAt(s, n, k, i);
      SortedApart(cmp, t, k, j);
    }
  }

  lemma InsertedItems<T>(s: seq<Node<T>>, n: Node<T>, k: nat)
    requires k <= |s|
    ensures Items(s[..k] + [n] + s[k..]) == Items(s) + {n.data}
  {
    hide Items;
    ItemsOfThree(s[..k], n, s[k..]);
    assert s == s[..k] + s[k..];
  }

  lemma InsertedAt<T>(s: seq<Node<T>>, n: Node<T>, k: nat, i: nat)
    requires k <= |s| && i < |s|
    ensures var t := s[..k] + [n] + s[k..]; |t| == |s| + 1 && t[k] == n && t[if i < k then i else i + 1] == s[i]
  {
  }
}
