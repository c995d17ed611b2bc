/** What happens to order and balance along a path when a node at its end is taken out. */
module AvlShrink {
  import opened AvlTree
  import opened AvlFocus

  /** The frame above a subtree that lost one level. */
  function Shrunk<T>(f: Frame<T>): Frame<T> {
    f.(bal := if f.dir then f.bal - 1 else f.bal + 1)
  }

  /** What the balance of a node says after one of its subtrees, now t, lost a level. */
  ghost predicate ShrinkCases<T>(f: Frame<T>, t: Tree<T>, y: Tree<T>) {
    var before := FrameHeight(f, Height(t) + 1);
    && y.Bin? && -2 <= y.bal <= 2 && y.bal == Height(y.right) - Height(y.left) && Balanced(y.left) && Balanced(y.right)
    && y.bal == Shrunk(f).bal && y.bal != (if f.dir then 2 else -2)
    && (y.bal == (if f.dir then -1 else 1) ==> Balanced(y) && Height(y) == before)
    && (y.bal == 0 ==> Balanced(y) && Height(y) + 1 == before)
    && (y.bal == (if f.dir then -2 else 2) ==> Height(y) == before)
    && y.bal != (if f.dir then 1 else -1)
  }

  lemma FrameShrinks<T>(f: Frame<T>, t: Tree<T>)
    requires FrameBalanced(f, Height(t) + 1) && Balanced(t)
    ensures ShrinkCases(f, t, Fill(Shrunk(f), t))
  {
    hide Balanced, Height;
    FilledHeight(Shrunk(f), t);
    FilledBalanced(Shrunk(f), t);
  }

  lemma FilledHeight<T>(f: Frame<T>, t: Tree<T>)
    ensures Height(Fill(f, t)) == FrameHeight(f, Height(t))
  {
  }

  lemma FilledBalanced<T>(f: Frame<T>, t: Tree<T>)
    requires Balanced(f.sibling) && Balanced(t)
    ensures Balanced(Fill(f, t)) <==> FrameBalanced(f, Height(t))
  {
  }

  /** All steps of the context go to the left. */
  ghost predicate AllLeft<T>(e: Context<T>) {
    forall i :: 0 <= i < |e| ==> !e[i].dir
  }

  lemma LeftFill<T>(f: Frame<T>, s: Node<T>, t: Tree<T>, u: Tree<T>)
    requires !f.dir && InOrder(u) == [s] + InOrder(t)
    ensures InOrder(Fill(f, u)) == [s] + InOrder(Fill(f, t))
  {
    var rest := [f.node] + InOrder(f.sibling);
    hide InOrder;
    FillInOrder(f, t);
    FillInOrder(f, u);
    Prepend(s, InOrder(t), FrameAfter(f));
  }

  lemma Prepend<A>(x: A, s: seq<A>, t: seq<A>)
    ensures ([x] + s) + t == [x] + (s + t)
  {
  }

  /** The leftmost node of a subtree is its first. */
  lemma {:induction false} LeftmostFirst<T>(e: Context<T>, s: Node<T>, b: int, t: Tree<T>, u: Tree<T>)
    requires AllLeft(e) && InOrder(u) == [s] + InOrder(t)
    ensures InOrder(Plug(e, u)) == [s] + InOrder(Plug(e, t))
  {
    if e != [] {
      var n := |e| - 1;
      LeftFill(e[n], s, t, u);
      LeftmostFirst(e[..n], s, b, Fill(e[n], t), Fill(e[n], u));
    }
  }

  /** Balance does not depend on which node a frame has. */
  lemma {:induction false} SwappedFrame<T>(c: Context<T>, f: Frame<T>, g: Frame<T>, e: Context<T>, h: nat)
    requires f.bal == g.bal && f.dir == g.dir && f.sibling == g.sibling && ContextBalanced(c + [f] + e, h)
    ensures ContextBalanced(c + [g] + e, h)
  {
    hide FrameBalanced;
    LastFrame(c, f, e);
    LastFrame(c, g, e);
    if e == [] {
      SameBalance(f, g, h);
    } else {
      var n := |e| - 1;
      SwappedFrame(c, f, g, e[..n], FrameHeight(e[n], h));
    }
  }

  lemma SameBalance<T>(f: Frame<T>, g: Frame<T>, h: nat)
    requires f.bal == g.bal && f.dir == g.dir && f.sibling == g.sibling
    ensures FrameBalanced(f, h) == FrameBalanced(g, h) && FrameHeight(f, h) == FrameHeight(g, h)
  {
  }

  /** The last frame of a context that goes through f, and the frames above it. */
  lemma LastFrame<T>(c: Context<T>, f: Frame<T>, e: Context<T>)
    ensures var whole := c + [f] + e; var up := whole[..|whole| - 1];
            if e == [] then up == c && whole[|whole| - 1] == f
            else up == c + [f] + e[..|e| - 1] && whole[|whole| - 1] == e[|e| - 1]
  {
  }

  /** The order without the node p, of which l and r are the subtrees. */
  ghost function Without<T>(c: Context<T>, l: Tree<T>, r: Tree<T>): seq<Node<T>> {
    Before(c) + (InOrder(l) + InOrder(r)) + After(c)
  }

  /** The path ends at t, one level lower than the frames above expect unless `done`. */
  ghost predicate Short<T>(c: Context<T>, t: Tree<T>, done: bool) {
    Balanced(t) && ContextBalanced(c, Height(t) + if done then 0 else 1)
  }

  lemma ShortDone<T>(c: Context<T>, t: Tree<T>, done: bool)
    requires Short(c, t, done) && (done || c == [])
    ensures Balanced(Plug(c, t))
  {
    PlugBalanced(c, t);
  }

  /** p has no right subtree: its left one takes its place. */
  lemma WithoutRight<T>(c: Context<T>, l: Tree<T>, p: Node<T>, b: int)
    requires Balanced(Plug(c, Bin(l, p, b, Leaf)))
    ensures Short(c, l, false) && Before(c) + InOrder(l) + After(c) == Without(c, l, Leaf)
  {
    PlugBalanced(c, Bin(l, p, b, Leaf));
    assert InOrder(l) + InOrder<T>(Leaf) == InOrder(l);
  }

  /** The right child has no left subtree: it takes the place of p. */
  lemma WithChild<T>(c: Context<T>, l: Tree<T>, p: Node<T>, b: int, s: Node<T>, bs: int, t: Tree<T>, f: Frame<T>)
    requires Balanced(Plug(c, Bin(l, p, b, Bin(Leaf, s, bs, t)))) && f == Frame(s, b, l, true)
    ensures Short(c + [f], t, false) && Before(c + [f]) + InOrder(t) + After(c + [f]) == Without(c, l, Bin(Leaf, s, bs, t))
  {
    WithSuccessor(c, l, p, b, [], s, bs, t, f);
    assert c + [f] + [] == c + [f];
    assert Plug([], Bin(Leaf, s, bs, t)) == Bin(Leaf, s, bs, t);
  }

  /** The leftmost node s of the right subtree takes the place of p. */
  lemma WithSuccessor<T>(c: Context<T>, l: Tree<T>, p: Node<T>, b: int, e: Context<T>, s: Node<T>, bs: int, t: Tree<T>, f: Frame<T>)
    requires Balanced(Plug(c, Bin(l, p, b, Plug(e, Bin(Leaf, s, bs, t))))) && AllLeft(e) && f == Frame(s, b, l, true)
    ensures Short(c + [f] + e, t, false)
    ensures Before(c + [f] + e) + InOrder(t) + After(c + [f] + e) == Without(c, l, Plug(e, Bin(Leaf, s, bs, t)))
  {
    hide Balanced, ContextBalanced, Before, After, Plug, InOrder, FrameBefore, FrameAfter;
    var g, u := Frame(p, b, l, true), Bin(Leaf, s, bs, t);
    FillDown(c, g, e, u);
    PlugBalanced(c + [g] + e, u);
    LeftmostTree(s, bs, t);
    SwappedFrame(c, g, f, e, Height(u));
    LeftmostFirst(e, s, bs, t, u);
    FillDown(c, f, e, t);
    PlugInOrder(c + [f] + e, t);
    PlugInOrder(c, Fill(f, Plug(e, t)));
    FillInOrder(f, Plug(e, t));
    RightFrame(f);
    Between(InOrder(l), s, InOrder(Plug(e, t)));
  }

  lemma RightFrame<T>(f: Frame<T>)
    requires f.dir
    ensures FrameBefore(f) == InOrder(f.sibling) + [f.node] && FrameAfter(f) == []
  {
  }

  lemma Between<A>(l: seq<A>, x: A, r: seq<A>)
    ensures (l + [x]) + r + [] == l + ([x] + r)
  {
  }

  lemma FillDown<T>(c: Context<T>, f: Frame<T>, e: Context<T>, t: Tree<T>)
    ensures Plug(c + [f] + e, t) == Plug(c, Fill(f, Plug(e, t)))
  {
    PlugAppend(c + [f], e, t);
    PlugAppend(c, [f], Plug(e, t));
    assert Plug([f], Plug(e, t)) == Fill(f, Plug(e, t)) by {
      assert [f][..0] == [];
      assert Plug([], Fill(f, Plug(e, t))) == Fill(f, Plug(e, t));
    }
  }

  lemma LeftmostTree<T>(s: Node<T>, b: int, t: Tree<T>)
    ensures InOrder(Bin(Leaf, s, b, t)) == [s] + InOrder(t)
    ensures Balanced(Bin(Leaf, s, b, t)) ==> Balanced(t) && Height(Bin(Leaf, s, b, t)) == Height(t) + 1
  {
  }
}
