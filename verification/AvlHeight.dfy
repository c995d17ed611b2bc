/** Why stacks of 92 entries suffice: an AVL tree of h levels has at least Fib(h + 2) - 1 nodes. */
module AvlHeight {
  import opened AvlTree

  const AVL_MAX_HEIGHT: nat := 92

  ghost function Fib(n: nat): nat {
    if n < 2 then n else Fib(n - 1) + Fib(n - 2)
  }

  ghost function Size<T>(t: Tree<T>): nat {
    |InOrder(t)|
  }

  lemma {:induction false} FibRises(m: nat, n: nat)
    requires m <= n
    ensures Fib(m) <= Fib(n)
  {
    if m < n {
      FibRises(m, n - 1);
      if n == 1 { assert Fib(0) == 0; }
    }
  }

  lemma TallerSide(l: nat, r: nat, h: nat)
    requires -1 <= r - l <= 1 && h == 1 + if l > r then l else r
    ensures Fib(l + 2) - 1 + 1 + Fib(r + 2) - 1 >= Fib(h + 2) - 1
  {
    assert Fib(h + 2) == Fib(h + 1) + Fib(h);
    FibRises(h, (if l == h - 1 then r else l) + 2);
  }

  /** The minimal size of an AVL tree by its height. */
  lemma {:induction false} SizeByHeight<T>(t: Tree<T>)
    requires Balanced(t)
    ensures Size(t) >= Fib(Height(t) + 2) - 1
  {
    match t
    case Leaf =>
      assert Fib(2) == 1;
    case Bin(l, _, _, r) =>
      SizeByHeight(l);
      SizeByHeight(r);
      TallerSide(Height(l), Height(r), Height(t));
  }

  lemma FibStep(n: nat)
    ensures Fib(n + 2) == Fib(n + 1) + Fib(n)
  {
  }

  lemma Fib5Later(n: nat, a: nat, b: nat)
    requires Fib(n) == a && Fib(n + 1) == b
    ensures Fib(n + 5) == 3 * a + 5 * b && Fib(n + 6) == 5 * a + 8 * b
  {
    hide Fib;
    FibStep(n);
    FibStep(n + 1);
    FibStep(n + 2);
    FibStep(n + 3);
    FibStep(n + 4);
  }

  lemma Fib20Later(n: nat, a: nat, b: nat)
    requires Fib(n) == a && Fib(n + 1) == b
    ensures Fib(n + 20) == 4181 * a + 6765 * b && Fib(n + 21) == 6765 * a + 10946 * b
  {
    hide Fib;
    Fib5Later(n, a, b);
    Fib5Later(n + 5, 3 * a + 5 * b, 5 * a + 8 * b);
    Fib5Later(n + 10, 34 * a + 55 * b, 55 * a + 89 * b);
    Fib5Later(n + 15, 377 * a + 610 * b, 610 * a + 987 * b);
  }

  lemma Fib0()
    ensures Fib(0) == 0 && Fib(1) == 1
  {
  }

  lemma Fib94()
    ensures Fib(94) == 19740274219868223167
  {
    hide Fib;
    Fib0();
    Fib20Later(0, 0, 1);
    Fib20Later(20, 6765, 10946);
    Fib20Later(40, 102334155, 165580141);
    Fib20Later(60, 1548008755920, 2504730781961);
    Fib5Later(80, 23416728348467685, 37889062373143906);
    Fib5Later(85, 259695496911122585, 420196140727489673);
    FibStep(90);
    FibStep(91);
    FibStep(92);
  }

  /** A tree of fewer than 2^64 nodes has at most 91 levels, so that the arrays never overflow. */
  lemma HeightBound<T>(t: Tree<T>)
    requires Balanced(t) && Size(t) < 0x1_0000_0000_0000_0000
    ensures Height(t) < AVL_MAX_HEIGHT
  {
    hide Balanced, Height, Size, Fib;
    if Height(t) >= AVL_MAX_HEIGHT {
      SizeByHeight(t);
      FibRises(94, Height(t) + 2);
      Fib94();
    }
  }
}
