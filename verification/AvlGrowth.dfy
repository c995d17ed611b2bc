/** What happens to the balances along a path when the subtree at its end grows by one level. */
module AvlGrowth {
  import opened AvlTree
  import opened AvlFocus

  function Grown<T>(f: Frame<T>): Frame<T> {
    f.(bal := if f.dir then f.bal + 1 else f.bal - 1)
  }

  function AllGrown<T>(d: Context<T>): (e: Context<T>)
    ensures |e| == |d| && forall i :: 0 <= i < |d| ==> e[i] == Grown(d[i])
  {
    seq(|d|, i requires 0 <= i < |d| => Grown(d[i]))
  }

  ghost predicate AllEven<T>(d: Context<T>) {
    forall i :: 0 <= i < |d| ==> d[i].bal == 0
  }

  /** Through even frames growth is passed on to the top. */
  lemma {:induction false} EvenFramesGrow<T>(d: Context<T>, t: Tree<T>, u: Tree<T>)
    requires AllEven(d) && Balanced(Plug(d, t)) && Balanced(u) && Height(u) == Height(t) + 1
    ensures Balanced(Plug(AllGrown(d), u)) && Height(Plug(AllGrown(d), u)) == Height(Plug(d, t)) + 1
  {
    if d != [] {
      var n := |d| - 1;
      var f, e := d[n], AllGrown(d);
      assert e[..n] == AllGrown(d[..n]);
      PlugBalanced(d[..n], Fill(f, t));
      FillGrows(f, t, u);
      EvenFramesGrow(d[..n], Fill(f, t), Fill(Grown(f), u));
    }
  }

  lemma FillGrows<T>(f: Frame<T>, t: Tree<T>, u: Tree<T>)
    requires f.bal == 0 && Balanced(Fill(f, t)) && Balanced(u) && Height(u) == Height(t) + 1
    ensures Balanced(Fill(Grown(f), u)) && Height(Fill(Grown(f), u)) == Height(Fill(f, t)) + 1
  {
  }

  /** The root of a grown path is not even. */
  lemma GrownRoot<T>(d: Context<T>, u: Tree<T>)
    requires AllEven(d) && d != []
    ensures Plug(AllGrown(d), u).Bin? && Plug(AllGrown(d), u).bal != 0
  {
    var e := AllGrown(d);
    assert e == [e[0]] + e[1..];
    PlugAppend([e[0]], e[1..], u);
    PlugOne(e[0], Plug(e[1..], u));
  }

  lemma PlugOne<T>(f: Frame<T>, t: Tree<T>)
    ensures Plug([f], t) == Fill(f, t)
  {
    assert [f][..0] == [];
    assert Plug([], Fill(f, t)) == Fill(f, t);
  }

  lemma PlugFirst<T>(d: Context<T>, t: Tree<T>)
    requires d != []
    ensures Plug(d, t) == Fill(d[0], Plug(d[1..], t))
  {
    assert d == [d[0]] + d[1..];
    PlugAppend([d[0]], d[1..], t);
    PlugOne(d[0], Plug(d[1..], t));
  }

  /** Either balanced again, with the height it had, or two levels too high on one side and x there is not even. */
  ghost predicate OffByOne<T>(y: Tree<T>, y': Tree<T>, bal: int) {
    && y'.Bin? && -2 <= y'.bal <= 2 && y'.bal == Height(y'.right) - Height(y'.left)
    && Balanced(y'.left) && Balanced(y'.right)
    && (-1 <= y'.bal <= 1 ==> Balanced(y') && (bal != 0 ==> Height(y') == Height(y)))
    && (y'.bal == -2 ==> y'.left.Bin? && y'.left.bal != 0 && Height(y') == Height(y) + 1)
    && (y'.bal == 2 ==> y'.right.Bin? && y'.right.bal != 0 && Height(y') == Height(y) + 1)
  }

  lemma FrameGrows<T>(f: Frame<T>, t: Tree<T>, u: Tree<T>)
    requires Balanced(Fill(f, t)) && Balanced(u) && Height(u) == Height(t) + 1
    requires Height(t) > 0 ==> u.Bin? && u.bal != 0
    ensures OffByOne(Fill(f, t), Fill(Grown(f), u), f.bal)
  {
  }

  /** The subtree at the lowest uneven node of the path after the growth. */
  lemma GrownAtTop<T>(d: Context<T>, u: Tree<T>, y: Tree<T>, y': Tree<T>)
    requires d != [] && AllEven(d[1..]) && Balanced(u) && Height(u) == 1
    requires y == Plug(d, Leaf) && Balanced(y) && y' == Plug(AllGrown(d), u)
    ensures OffByOne(y, y', d[0].bal)
  {
    hide Balanced, Height, OffByOne, Plug, Fill;
    var f, rest := d[0], d[1..];
    var t, t' := Plug(rest, Leaf), Plug(AllGrown(rest), u);
    PlugFirst(d, Leaf);
    PlugFirst(AllGrown(d), u);
    assert AllGrown(d)[1..] == AllGrown(rest);
    FillBalanced(f, t);
    LeafHeight<T>();
    EvenFramesGrow(rest, Leaf, u);
    if rest != [] { GrownRoot(rest, u); } else { PlugNone<T>(Leaf); }
    FrameGrows(f, t, t');
  }

  lemma LeafHeight<T>()
    ensures Height<T>(Leaf) == 0
  {
  }

  lemma PlugNone<T>(t: Tree<T>)
    ensures Plug([], t) == t
  {
  }

  lemma {:induction false} GrownInOrder<T>(d: Context<T>, t: Tree<T>, u: Tree<T>)
    requires InOrder(t) == InOrder(u) && Nodes(t) == Nodes(u)
    ensures InOrder(Plug(AllGrown(d), u)) == InOrder(Plug(d, t)) && Nodes(Plug(AllGrown(d), u)) == Nodes(Plug(d, t))
  {
    if d != [] {
      var n := |d| - 1;
      assert AllGrown(d)[..n] == AllGrown(d[..n]);
      GrownInOrder(d[..n], Fill(d[n], t), Fill(Grown(d[n]), u));
    }
  }
}
