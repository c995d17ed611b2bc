/** The shape of an AVL tree apart from the heap: trees of nodes with their stored balances,
    trees with a hole, order, height and balance. */
module AvlTree {
  import opened Wrappers

  class Node<T> {
    const data: T
    var link0: Node?<T>
    var link1: Node?<T>
    var balance: int

    constructor (data: T)
      ensures this.data == data && link0 == null && link1 == null && balance == 0
    {
      this.data := data;
      link0, link1, balance := null, null, 0;
    }
  }

  datatype Tree<T> = Leaf | Bin(left: Tree<T>, node: Node<T>, bal: int, right: Tree<T>)

  /** One step from a node towards a hole: the hole is in its right subtree if `dir`. */
  datatype Frame<T> = Frame(node: Node<T>, bal: int, sibling: Tree<T>, dir: bool)

  /** The steps from the root to a hole. */
  type Context<T> = seq<Frame<T>>

  ghost function Root<T>(t: Tree<T>): Node?<T> {
    if t.Leaf? then null else t.node
  }

  ghost function Nodes<T>(t: Tree<T>): set<Node<T>> {
    match t
    case Leaf => {}
    case Bin(l, n, _, r) => Nodes(l) + {n} + Nodes(r)
  }

  ghost function InOrder<T>(t: Tree<T>): seq<Node<T>> {
    match t
    case Leaf => []
    case Bin(l, n, _, r) => InOrder(l) + [n] + InOrder(r)
  }

  ghost function Height<T>(t: Tree<T>): nat {
    match t
    case Leaf => 0
    case Bin(l, _, _, r) => 1 + if Height(l) > Height(r) then Height(l) else Height(r)
  }

  /** The AVL invariant with the stored balances: right height minus left height, at most 1 apart. */
  ghost predicate Balanced<T>(t: Tree<T>) {
    match t
    case Leaf => true
    case Bin(l, _, b, r) => -1 <= b <= 1 && b == Height(r) - Height(l) && Balanced(l) && Balanced(r)
  }

  ghost predicate Distinct<T>(t: Tree<T>) {
    match t
    case Leaf => true
    case Bin(l, n, _, r) => n !in Nodes(l) && n !in Nodes(r) && Nodes(l) !! Nodes(r) && Distinct(l) && Distinct(r)
  }

  // ---- Trees with a hole ----

  ghost function Fill<T>(f: Frame<T>, t: Tree<T>): Tree<T> {
    if f.dir then Bin(f.sibling, f.node, f.bal, t) else Bin(t, f.node, f.bal, f.sibling)
  }

  ghost function Plug<T>(c: Context<T>, t: Tree<T>): Tree<T> {
    if c == [] then t else Plug(c[..|c| - 1], Fill(c[|c| - 1], t))
  }

  ghost function ContextNodes<T>(c: Context<T>): set<Node<T>> {
    if c == [] then {} else ContextNodes(c[..|c| - 1]) + {c[|c| - 1].node} + Nodes(c[|c| - 1].sibling)
  }

  ghost predicate ContextDistinct<T>(c: Context<T>) {
    c != [] ==>
      var f := c[|c| - 1];
      var up := c[..|c| - 1];
      && ContextDistinct(up) && Distinct(f.sibling)
      && f.node !in Nodes(f.sibling) && f.node !in ContextNodes(up) && Nodes(f.sibling) !! ContextNodes(up)
  }

  ghost function FrameBefore<T>(f: Frame<T>): seq<Node<T>> {
    if f.dir then InOrder(f.sibling) + [f.node] else []
  }

  ghost function FrameAfter<T>(f: Frame<T>): seq<Node<T>> {
    if f.dir then [] else [f.node] + InOrder(f.sibling)
  }

  /** What stands before the hole. */
  ghost function Before<T>(c: Context<T>): seq<Node<T>> {
    if c == [] then [] else Before(c[..|c| - 1]) + FrameBefore(c[|c| - 1])
  }

  /** What stands after the hole. */
  ghost function After<T>(c: Context<T>): seq<Node<T>> {
    if c == [] then [] else FrameAfter(c[|c| - 1]) + After(c[..|c| - 1])
  }

  ghost predicate FrameBalanced<T>(f: Frame<T>, h: nat) {
    && -1 <= f.bal <= 1 && Balanced(f.sibling)
    && f.bal == (if f.dir then h - Height(f.sibling) else Height(f.sibling) - h)
  }

  ghost function FrameHeight<T>(f: Frame<T>, h: nat): nat {
    1 + if h > Height(f.sibling) then h else Height(f.sibling)
  }

  /** Every frame is balanced if the hole has height h. */
  ghost predicate ContextBalanced<T>(c: Context<T>, h: nat) {
    c != [] ==> FrameBalanced(c[|c| - 1], h) && ContextBalanced(c[..|c| - 1], FrameHeight(c[|c| - 1], h))
  }

  lemma FillInOrder<T>(f: Frame<T>, t: Tree<T>)
    ensures InOrder(Fill(f, t)) == FrameBefore(f) + InOrder(t) + FrameAfter(f)
  {
    if !f.dir { assert InOrder(t) + [f.node] + InOrder(f.sibling) == InOrder(t) + ([f.node] + InOrder(f.sibling)); }
  }

  lemma Regroup<A>(a: seq<A>, b: seq<A>, c: seq<A>, d: seq<A>, e: seq<A>)
    ensures a + (b + c + d) + e == (a + b) + c + (d + e)
  {
  }

  lemma {:induction false} PlugInOrder<T>(c: Context<T>, t: Tree<T>)
    ensures InOrder(Plug(c, t)) == Before(c) + InOrder(t) + After(c)
  {
    hide FrameBefore, FrameAfter, Fill, InOrder;
    if c != [] {
      var f, up := c[|c| - 1], c[..|c| - 1];
      PlugInOrder(up, Fill(f, t));
      FillInOrder(f, t);
      Regroup(Before(up), FrameBefore(f), InOrder(t), FrameAfter(f), After(up));
    }
  }

  lemma FillBalanced<T>(f: Frame<T>, t: Tree<T>)
    ensures Balanced(Fill(f, t)) <==> Balanced(t) && FrameBalanced(f, Height(t))
    ensures Height(Fill(f, t)) == FrameHeight(f, Height(t))
  {
  }

  lemma {:induction false} PlugBalanced<T>(c: Context<T>, t: Tree<T>)
    ensures Balanced(Plug(c, t)) <==> Balanced(t) && ContextBalanced(c, Height(t))
  {
    hide FrameBalanced, FrameHeight, Fill, Balanced, Height;
    if c != [] {
      FillBalanced(c[|c| - 1], t);
      PlugBalanced(c[..|c| - 1], Fill(c[|c| - 1], t));
    }
  }

  lemma {:induction false} PlugHeight<T>(c: Context<T>, t: Tree<T>)
    ensures |c| + Height(t) <= Height(Plug(c, t))
  {
    if c != [] { PlugHeight(c[..|c| - 1], Fill(c[|c| - 1], t)); }
  }

  lemma {:induction false} PlugAppend<T>(c: Context<T>, d: Context<T>, t: Tree<T>)
    ensures Plug(c + d, t) == Plug(c, Plug(d, t))
  {
    if d == [] {
      assert c + d == c;
    } else {
      var n := |d| - 1;
      assert (c + d)[..|c + d| - 1] == c + d[..n];
      PlugAppend(c, d[..n], Fill(d[n], t));
    }
  }

  lemma SetOfThree<T>(s: seq<Node<T>>, n: Node<T>, t: seq<Node<T>>)
    ensures AsSet(s + [n] + t) == AsSet(s) + {n} + AsSet(t)
  {
    var u := s + [n] + t;
    assert forall x {:trigger x in u} :: x in u <==> x in s || x == n || x in t;
  }

  lemma {:induction false} InOrderSet<T>(t: Tree<T>)
    ensures AsSet(InOrder(t)) == Nodes(t)
  {
    if t.Bin? {
      InOrderSet(t.left);
      InOrderSet(t.right);
      SetOfThree(InOrder(t.left), t.node, InOrder(t.right));
    }
  }

  // ---- Order ----

  function Compare<T>(cmp: (T, T) -> int, a: T, b: T): int {
    cmp(a, b)
  }

  /** The comparator is a strict order on these items, up to items that compare equal. */
  ghost predicate Orders<T>(cmp: (T, T) -> int, items: set<T>) {
    && (forall a, b :: a in items && b in items ==> (Compare(cmp, a, b) < 0 <==> Compare(cmp, b, a) > 0))
    && (forall a, b, c :: a in items && b in items && c in items && Compare(cmp, a, b) < 0 && Compare(cmp, b, c) < 0
          ==> Compare(cmp, a, c) < 0)
  }

  ghost predicate Sorted<T>(cmp: (T, T) -> int, s: seq<Node<T>>) {
    forall i, j :: 0 <= i < j < |s| ==> Compare(cmp, s[i].data, s[j].data) < 0
  }

  ghost function Items<T>(s: seq<Node<T>>): set<T> {
    set n | n in s :: n.data
  }

  /** Where an item belongs: after everything before the hole, before everything after it. */
  ghost predicate Fits<T>(cmp: (T, T) -> int, item: T, before: seq<Node<T>>, after: seq<Node<T>>) {
    && (forall n :: n in before ==> Compare(cmp, n.data, item) < 0)
    && (forall n :: n in after ==> Compare(cmp, item, n.data) < 0)
  }

  lemma FitsRight<T>(cmp: (T, T) -> int, item: T, before: seq<Node<T>>, l: seq<Node<T>>, n: Node<T>, r: seq<Node<T>>, after: seq<Node<T>>)
    requires Orders(cmp, Items(before + (l + [n] + r) + after) + {item}) && Sorted(cmp, before + (l + [n] + r) + after)
    requires Fits(cmp, item, before, after) && Compare(cmp, item, n.data) > 0
    ensures Fits(cmp, item, before + (l + [n]), after)
  {
    var all, k := before + (l + [n] + r) + after, |before| + |l|;
    assert all[k] == n;
    forall x | x in before + (l + [n]) ensures Compare(cmp, x.data, item) < 0 {
      if x in l {
        var i :| 0 <= i < |l| && l[i] == x;
        assert all[|before| + i] == x;
        assert x.data in Items(all) && n.data in Items(all);
      } else if x == n {
        assert n.data in Items(all);
      }
    }
  }

  lemma FitsLeft<T>(cmp: (T, T) -> int, item: T, before: seq<Node<T>>, l: seq<Node<T>>, n: Node<T>, r: seq<Node<T>>, after: seq<Node<T>>)
    requires Orders(cmp, Items(before + (l + [n] + r) + after) + {item}) && Sorted(cmp, before + (l + [n] + r) + after)
    requires Fits(cmp, item, before, after) && Compare(cmp, item, n.data) < 0
    ensures Fits(cmp, item, before, [n] + r + after)
  {
    var all, k := before + (l + [n] + r) + after, |before| + |l|;
    assert all[k] == n;
    forall x | x in [n] + r + after ensures Compare(cmp, item, x.data) < 0 {
      if x in r {
        var i :| 0 <= i < |r| && r[i] == x;
        assert all[k + 1 + i] == x;
        assert x.data in Items(all) && n.data in Items(all);
      }
    }
  }

  lemma FitsSorted<T>(cmp: (T, T) -> int, n: Node<T>, before: seq<Node<T>>, after: seq<Node<T>>)
    requires Sorted(cmp, before + after) && Fits(cmp, n.data, before, after)
    ensures Sorted(cmp, before + [n] + after)
  {
    var s, t, k := before + after, before + [n] + after, |before|;
    forall i, j | 0 <= i < j < |t| ensures Compare(cmp, t[i].data, t[j].data) < 0 {
      var i', j' := if i < k then i else i - 1, if j < k then j else j - 1;
      if i != k && j != k {
        assert t[i] == s[i'] && t[j] == s[j'];
      } else if i == k {
        assert t[j] == after[j - k - 1];
      }
    }
  }

  lemma SortedWithout<T>(cmp: (T, T) -> int, before: seq<Node<T>>, n: Node<T>, after: seq<Node<T>>)
    requires Sorted(cmp, before + [n] + after)
    ensures Sorted(cmp, before + after)
  {
    var s, t, k := before + [n] + after, before + after, |before|;
    forall i, j | 0 <= i < j < |t| ensures Compare(cmp, t[i].data, t[j].data) < 0 {
      var i', j' := if i < k then i else i + 1, if j < k then j else j + 1;
      assert t[i] == s[i'] && t[j] == s[j'];
    }
  }
}
