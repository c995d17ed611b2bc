module Wrappers {
  datatype Option<+T> = None | Some(value: T)

  lemma Element<T>(s: set<T>) returns (x: T)
    requires s != {}
    ensures x in s
  {
    x :| x in s;
  }

  ghost function AsSet<T>(s: seq<T>): set<T> {
    set x | x in s
  }

  function CountOf<T(==)>(s: seq<T>, x: T): nat {
    if s == [] then 0 else CountOf(s[..|s| - 1], x) + if s[|s| - 1] == x then 1 else 0
  }

  lemma CountAppend<T>(s: seq<T>, x: T, y: T)
    ensures CountOf(s + [x], y) == CountOf(s, y) + if x == y then 1 else 0
  {
    assert (s + [x])[..|s|] == s;
  }
}
