/** The index of memory accesses: how often each instruction accessed each address. It is a
    list and, over the same records, an AVL tree whose comparator narrows a 64-bit difference. */
module MemIndex {
  import opened Wrappers
  import opened AvlTree
  import opened AvlFocus
  import opened AvlTable

  const TWO_31 := 0x8000_0000
  const TWO_32 := 0x1_0000_0000

  /** A difference of unsigned 64-bit numbers returned as a 32-bit `int`. */
  function Narrow(d: int): int {
    if d % TWO_32 < TWO_31 then d % TWO_32 else d % TWO_32 - TWO_32
  }

  datatype Key = Key(ins: int, mem: int)

  /** `mem_info_t`. */
  class MemInfo {
    const key: Key
    const size: int
    const direction: bool
    const next: MemInfo?
    var counter: nat

    constructor (key: Key, size: int, direction: bool, next: MemInfo?)
      ensures this.key == key && this.size == size && this.direction == direction && this.next == next && counter == 0
    {
      this.key, this.size, this.direction, this.next, counter := key, size, direction, next, 0;
    }
  }

  /** `mem_comparison_func`. */
  function CompareKeys(a: Key, b: Key): int {
    if a.ins == b.ins && a.mem != b.mem then Narrow(a.mem - b.mem) else Narrow(a.ins - b.ins)
  }

  function MemCompare(a: MemInfo, b: MemInfo): int {
    CompareKeys(a.key, b.key)
  }

  /** Instruction addresses and data addresses each lie in a window of 2^31 bytes. */
  datatype Window = Window(ins: int, mem: int)

  predicate InWindow(w: Window, k: Key) {
    w.ins <= k.ins < w.ins + TWO_31 && w.mem <= k.mem < w.mem + TWO_31
  }

  lemma NarrowIsExact(d: int)
    requires -TWO_31 < d < TWO_31
    ensures Narrow(d) == d
  {
    if d < 0 { assert d % TWO_32 == d + TWO_32; }
  }

  /** Within the windows the comparator is lexicographic. */
  lemma WindowCompare(w: Window, a: Key, b: Key)
    requires InWindow(w, a) && InWindow(w, b)
    ensures CompareKeys(a, b) == if a.ins == b.ins then a.mem - b.mem else a.ins - b.ins
  {
    NarrowIsExact(a.ins - b.ins);
    NarrowIsExact(a.mem - b.mem);
  }

  lemma WindowOrders(w: Window, items: set<MemInfo>)
    requires forall m :: m in items ==> InWindow(w, m.key)
    ensures Orders(MemCompare, items)
  {
    forall a, b | a in items && b in items
      ensures Compare(MemCompare, a, b) == if a.key.ins == b.key.ins then a.key.mem - b.key.mem else a.key.ins - b.key.ins
    {
      WindowCompare(w, a.key, b.key);
    }
  }

  function Diff(x: int, y: int): int {
    Narrow(x - y)
  }

  /** The narrowed difference strictly orders all addresses below n. */
  ghost predicate OrdersRange(n: nat) {
    && (forall x, y :: 0 <= x < n && 0 <= y < n ==> (Diff(x, y) < 0 <==> Diff(y, x) > 0) && (Diff(x, y) == 0 ==> x == y))
    && (forall x, y, z :: 0 <= x < n && 0 <= y < n && 0 <= z < n && Diff(x, y) < 0 && Diff(y, z) < 0 ==> Diff(x, z) < 0)
  }

  /** It does so exactly if there are at most 2^31 of them. */
  lemma OrderByWindow(n: nat)
    ensures OrdersRange(n) <==> n <= TWO_31
  {
    hide Narrow;
    if n <= TWO_31 {
      forall x, y | 0 <= x < n && 0 <= y < n ensures Diff(x, y) == x - y {
        NarrowIsExact(x - y);
      }
    } else {
      HalfTurn();
      assert !(Diff(0, TWO_31) < 0 <==> Diff(TWO_31, 0) > 0);
    }
  }

  lemma HalfTurn()
    ensures Diff(0, TWO_31) == -TWO_31 && Diff(TWO_31, 0) == -TWO_31
  {
  }

  /** Addresses 2^32 apart count as one. */
  lemma AliasedAddresses(ins: int, mem: int)
    ensures CompareKeys(Key(ins, mem), Key(ins, mem + TWO_32)) == 0
  {
    assert (mem - (mem + TWO_32)) % TWO_32 == 0;
  }

  // ---- The index ----

  ghost predicate Linked(list: MemInfo?, entries: seq<MemInfo>) {
    && list == (if entries == [] then null else entries[0])
    && forall i {:trigger entries[i].next} :: 0 <= i < |entries| ==> entries[i].next == if i + 1 < |entries| then entries[i + 1] else null
  }

  /** One record for each pair of instruction and address. */
  ghost predicate OnePerKey(entries: seq<MemInfo>) {
    forall i, j :: 0 <= i < j < |entries| ==> entries[i].key != entries[j].key
  }

  ghost predicate Recorded(entries: seq<MemInfo>, k: Key) {
    exists i :: 0 <= i < |entries| && entries[i].key == k
  }

  ghost predicate Complete(entries: seq<MemInfo>, accesses: seq<Key>) {
    forall k :: k in accesses ==> Recorded(entries, k)
  }

  ghost predicate Counted(entries: seq<MemInfo>, accesses: seq<Key>)
    reads entries
  {
    forall i :: 0 <= i < |entries| ==> entries[i].counter == CountOf(accesses, entries[i].key)
  }

  ghost predicate AllIn(w: Window, entries: seq<MemInfo>) {
    forall i :: 0 <= i < |entries| ==> InWindow(w, entries[i].key)
  }

  class MemIndex {
    const tree: AvlTable<MemInfo>
    var list: MemInfo?
    ghost const window: Window
    ghost var entries: seq<MemInfo>
    ghost var accesses: seq<Key>

    ghost predicate Valid()
      reads this, tree, Nodes(tree.tree), entries
    {
      && tree.Valid() && tree.compare == MemCompare && Items(tree.Contents()) == AsSet(entries) && tree.count == |entries|
      && Linked(list, entries) && OnePerKey(entries) && AllIn(window, entries)
      && Complete(entries, accesses) && Counted(entries, accesses)
    }

    constructor (ghost window: Window)
      ensures Valid() && accesses == [] && entries == [] && this.window == window && fresh(tree)
    {
      tree := new AvlTable(MemCompare);
      list, entries, accesses := null, [], [];
      this.window := window;
    }

    /** The search with a record made up for it. */
    method Lookup(key: Key) returns (m: Option<MemInfo>)
      requires Valid() && InWindow(window, key)
      ensures m.Some? <==> Recorded(entries, key)
      ensures m.Some? ==> m.value in entries && m.value.key == key
    {
      hide AvlTable.Valid, OnePerKey, Counted, Complete, Orders, Linked;
      Allocated(tree.tree);
      var tmp := new MemInfo(key, 0, false, null);
      WindowOfAll(window, entries, tmp);
      m := tree.Find(tmp);
      if m.Some? {
        EqualKeys(window, tmp.key, m.value.key);
        FoundRecord(entries, m.value, key);
      } else {
        NoRecord(window, entries, tmp);
      }
    }

    method AddRecord(key: Key, size: int, direction: bool) returns (m: MemInfo)
      requires Valid() && InWindow(window, key) && !Recorded(entries, key) && tree.count < 0x1_0000_0000_0000_0000
      modifies this, tree, Nodes(tree.tree)
      ensures Valid() && accesses == old(accesses) && fresh(m) && m.key == key && m.size == size && m.direction == direction
      ensures entries == [m] + old(entries)
      ensures fresh(Nodes(tree.tree) - old(Nodes(tree.tree)))
    {
      hide *;
      Allocated(tree.tree);
      Parts(this);
      ghost var before, nodes := tree.Contents(), Nodes(tree.tree);
      m := new MemInfo(key, size, direction, list);
      NewItem(window, entries, m, before);
      InsertReady(tree, m, before);
      var duplicate;
      ghost var n;
      duplicate, n := tree.Insert(m);
      assert forall o :: o in Nodes(tree.tree) && o !in nodes ==> !old(allocated(o));
      Pushed(window, list, entries, accesses, m);
      OneMore(tree, before, n, m, entries);
      list := m;
      entries := [m] + entries;
      Whole(this);
    }

    method Increment(m: MemInfo)
      requires Valid() && m in entries
      modifies m, `accesses
      ensures Valid() && accesses == old(accesses) + [m.key]
    {
      hide AvlTable.Valid, Linked, CountOf, AllIn;
      Allocated(tree.tree);
      forall k ensures CountOf(accesses + [m.key], k) == CountOf(accesses, k) + if m.key == k then 1 else 0 {
        CountAppend(accesses, m.key, k);
      }
      FoundRecord(entries, m, m.key);
      m.counter := m.counter + 1;
      accesses := accesses + [m.key];
    }

    /** `memaccess_data_cb`. */
    method MemAccess(key: Key, size: int, direction: bool)
      requires Valid() && InWindow(window, key) && tree.count < 0x1_0000_0000_0000_0000
      modifies this, tree, Nodes(tree.tree), entries
      ensures Valid() && accesses == old(accesses) + [key] && fresh(Nodes(tree.tree) - old(Nodes(tree.tree)))
      ensures if old(Recorded(entries, key)) then entries == old(entries)
              else entries != [] && fresh(entries[0]) && entries == [entries[0]] + old(entries)
                   && entries[0].key == key && entries[0].size == size && entries[0].direction == direction
    {
      hide *;
      Allocated(tree.tree);
      ghost var nodes := Nodes(tree.tree);
      var found := Lookup(key);
      var m;
      if found.None? {
        m := AddRecord(key, size, direction);
      } else {
        m := found.value;
      }
      Increment(m);
      assert forall o :: o in Nodes(tree.tree) && o !in nodes ==> !old(allocated(o));
    }
  }

  lemma Parts(x: MemIndex)
    requires x.Valid()
    ensures x.tree.Valid() && x.tree.compare == MemCompare && Items(x.tree.Contents()) == AsSet(x.entries)
    ensures x.tree.count == |x.entries| && Rest(x.window, x.list, x.entries, x.accesses)
  {
  }

  lemma Whole(x: MemIndex)
    requires x.tree.Valid() && x.tree.compare == MemCompare && Items(x.tree.Contents()) == AsSet(x.entries)
    requires x.tree.count == |x.entries| && Rest(x.window, x.list, x.entries, x.accesses)
    ensures x.Valid()
  {
  }

  ghost predicate Rest(w: Window, list: MemInfo?, entries: seq<MemInfo>, accesses: seq<Key>)
    reads entries
  {
    Linked(list, entries) && OnePerKey(entries) && AllIn(w, entries) && Complete(entries, accesses) && Counted(entries, accesses)
  }

  lemma {:induction false} NotAccessed(accesses: seq<Key>, k: Key)
    requires k !in accesses
    ensures CountOf(accesses, k) == 0
  {
    if accesses != [] { NotAccessed(accesses[..|accesses| - 1], k); }
  }

  /** A record with counter 0 at the head of the list, for a pair that has none. */
  lemma Pushed(w: Window, list: MemInfo?, entries: seq<MemInfo>, accesses: seq<Key>, m: MemInfo)
    requires Rest(w, list, entries, accesses) && m.next == list && m.counter == 0 && InWindow(w, m.key) && !Recorded(entries, m.key)
    ensures Rest(w, m, [m] + entries, accesses)
  {
    var more := [m] + entries;
    assert forall i :: 0 < i < |more| ==> more[i] == entries[i - 1];
    forall i {:trigger more[i].next} | 0 <= i < |more| ensures more[i].next == if i + 1 < |more| then more[i + 1] else null {
      if i > 0 { var p := i - 1; assert more[i] == entries[p] && entries[p].next == if p + 1 < |entries| then entries[p + 1] else null; }
      if i < |entries| { assert more[i + 1] == entries[i]; }
    }
    forall k | k in accesses ensures Recorded(more, k) {
      assert Recorded(entries, k);
      var i :| 0 <= i < |entries| && entries[i].key == k;
      assert more[i + 1].key == k;
    }
    assert m.key !in accesses;
    NotAccessed(accesses, m.key);
  }

  lemma NewItem(w: Window, entries: seq<MemInfo>, m: MemInfo, nodes: seq<Node<MemInfo>>)
    requires AllIn(w, entries) && InWindow(w, m.key) && !Recorded(entries, m.key) && Items(nodes) == AsSet(entries)
    ensures Orders(MemCompare, Items(nodes) + {m})
    ensures forall n :: n in nodes ==> Compare(MemCompare, m, n.data) != 0
  {
    hide Orders, Compare;
    WindowOfAll(w, entries, m);
    forall n | n in nodes ensures Compare(MemCompare, m, n.data) != 0 {
      assert n.data in AsSet(entries);
      NotEqual(w, entries, m, n.data);
    }
  }

  lemma NotEqual(w: Window, entries: seq<MemInfo>, m: MemInfo, e: MemInfo)
    requires AllIn(w, entries) && InWindow(w, m.key) && !Recorded(entries, m.key) && e in entries
    ensures Compare(MemCompare, m, e) != 0
  {
    EqualKeys(w, m.key, e.key);
  }

  lemma InsertReady(tree: AvlTable<MemInfo>, m: MemInfo, before: seq<Node<MemInfo>>)
    requires tree.Valid() && tree.compare == MemCompare && before == tree.Contents() && Orders(MemCompare, Items(before) + {m})
    requires forall n :: n in before ==> Compare(MemCompare, m, n.data) != 0
    ensures Searchable(tree.compare, m, tree.Contents()) && !tree.Has(m) && |before| == tree.count
  {
  }

  lemma OneMore(tree: AvlTable<MemInfo>, before: seq<Node<MemInfo>>, n: Node<MemInfo>, m: MemInfo, entries: seq<MemInfo>)
    requires tree.Valid() && Inserted(before, n, tree.Contents()) && n.data == m
    requires Items(before) == AsSet(entries) && |before| == |entries|
    ensures Items(tree.Contents()) == AsSet([m] + entries) && tree.count == |[m] + entries|
  {
    ValidParts(tree);
    var k :| 0 <= k <= |before| && tree.Contents() == before[..k] + [n] + before[k..];
    ItemsOfThree(before[..k], n, before[k..]);
    assert before == before[..k] + before[k..];
    assert forall x {:trigger x in AsSet([m] + entries)} :: x in AsSet([m] + entries) <==> x == m || x in AsSet(entries);
  }

  lemma WindowOfAll(w: Window, entries: seq<MemInfo>, m: MemInfo)
    requires AllIn(w, entries) && InWindow(w, m.key)
    ensures Orders(MemCompare, AsSet(entries) + {m})
  {
    WindowOrders(w, AsSet(entries) + {m});
  }

  lemma EqualKeys(w: Window, a: Key, b: Key)
    requires InWindow(w, a) && InWindow(w, b)
    ensures CompareKeys(a, b) == 0 <==> a == b
  {
    WindowCompare(w, a, b);
  }

  lemma FoundRecord(entries: seq<MemInfo>, m: MemInfo, key: Key)
    requires m in entries && m.key == key
    ensures Recorded(entries, key)
  {
  }

  lemma NoRecord(w: Window, entries: seq<MemInfo>, tmp: MemInfo)
    requires AllIn(w, entries) && InWindow(w, tmp.key)
    requires forall m :: m in AsSet(entries) ==> Compare(MemCompare, tmp, m) != 0
    ensures !Recorded(entries, tmp.key)
  {
    forall i | 0 <= i < |entries| ensures entries[i].key != tmp.key {
      assert entries[i] in AsSet(entries);
      EqualKeys(w, tmp.key, entries[i].key);
    }
  }

  // ---- The counters as a whole ----

  ghost function SumCounters(entries: seq<MemInfo>, n: nat): nat
    requires n <= |entries|
    reads entries
  {
    if n == 0 then 0 else SumCounters(entries, n - 1) + entries[n - 1].counter
  }

  ghost function SumCounts(entries: seq<MemInfo>, accesses: seq<Key>, n: nat): nat
    requires n <= |entries|
  {
    if n == 0 then 0 else SumCounts(entries, accesses, n - 1) + CountOf(accesses, entries[n - 1].key)
  }

  /** One access more counts once, at the record it belongs to. */
  lemma {:induction false} OneAccessMore(entries: seq<MemInfo>, accesses: seq<Key>, x: Key, i: nat, n: nat)
    requires n <= |entries| && OnePerKey(entries) && i < |entries| && entries[i].key == x
    ensures SumCounts(entries, accesses + [x], n) == SumCounts(entries, accesses, n) + if i < n then 1 else 0
  {
    if n > 0 {
      OneAccessMore(entries, accesses, x, i, n - 1);
      CountAppend(accesses, x, entries[n - 1].key);
    }
  }

  lemma {:induction false} NoAccesses(entries: seq<MemInfo>, n: nat)
    requires n <= |entries|
    ensures SumCounts(entries, [], n) == 0
  {
    if n > 0 { NoAccesses(entries, n - 1); }
  }

  lemma {:induction false} EachAccessOnce(entries: seq<MemInfo>, accesses: seq<Key>)
    requires OnePerKey(entries) && Complete(entries, accesses)
    ensures SumCounts(entries, accesses, |entries|) == |accesses|
  {
    if accesses == [] {
      NoAccesses(entries, |entries|);
    } else {
      var rest, x := accesses[..|accesses| - 1], accesses[|accesses| - 1];
      EachAccessOnce(entries, rest);
      assert Recorded(entries, x);
      var i :| 0 <= i < |entries| && entries[i].key == x;
      assert accesses == rest + [x];
      OneAccessMore(entries, rest, x, i, |entries|);
    }
  }

  lemma {:induction false} SumsAgree(entries: seq<MemInfo>, accesses: seq<Key>, n: nat)
    requires n <= |entries| && Counted(entries, accesses)
    ensures SumCounters(entries, n) == SumCounts(entries, accesses, n)
  {
    if n > 0 { SumsAgree(entries, accesses, n - 1); }
  }

  /** The counters add up to the number of accesses, and list and tree hold the same records. */
  lemma CountersAddUp(x: MemIndex)
    requires x.Valid()
    ensures SumCounters(x.entries, |x.entries|) == |x.accesses|
    ensures Items(x.tree.Contents()) == AsSet(x.entries) && |x.tree.Contents()| == |x.entries|
  {
    SumsAgree(x.entries, x.accesses, |x.entries|);
    EachAccessOnce(x.entries, x.accesses);
    ValidParts(x.tree);
  }
}
