/** The table of translated TBs: one record for each base address, so that base addresses
    identify the rows of the golden trace, and neither of the error exits is ever taken. */
module TbInfo {
  import opened Wrappers
  import opened AvlTree
  import opened AvlFocus
  import opened AvlTable

  /** `tb_info_t`. */
  class TbRecord {
    const baseAddress: int
    const size: int
    const instructionCount: int
    const next: TbRecord?

    constructor (baseAddress: int, size: int, instructionCount: int, next: TbRecord?)
      ensures this.baseAddress == baseAddress && this.size == size && this.instructionCount == instructionCount && this.next == next
    {
      this.baseAddress, this.size, this.instructionCount, this.next := baseAddress, size, instructionCount, next;
    }
  }

  /** `tb_comparison_func`. */
  function TbCompare(a: TbRecord, b: TbRecord): int {
    if a.baseAddress < b.baseAddress then -1 else if a.baseAddress > b.baseAddress then 1 else 0
  }

  lemma TbOrders(items: set<TbRecord>)
    ensures Orders(TbCompare, items)
    ensures forall a, b :: a in items && b in items ==> (TbCompare(a, b) < 0 <==> a.baseAddress < b.baseAddress)
  {
  }

  ghost predicate OnePerAddress(entries: seq<TbRecord>) {
    forall i, j :: 0 <= i < j < |entries| ==> entries[i].baseAddress != entries[j].baseAddress
  }

  ghost predicate Recorded(entries: seq<TbRecord>, address: int) {
    exists e :: e in entries && e.baseAddress == address
  }

  /** The list of records, newest first. */
  ghost predicate Chained(list: TbRecord?, entries: seq<TbRecord>) {
    && list == (if entries == [] then null else entries[0])
    && forall i {:trigger entries[i].next} :: 0 <= i < |entries| ==> entries[i].next == if i + 1 < |entries| then entries[i + 1] else null
  }

  lemma ChainedMore(list: TbRecord?, entries: seq<TbRecord>, r: TbRecord)
    requires Chained(list, entries) && r.next == list
    ensures Chained(r, [r] + entries)
  {
    var more := [r] + entries;
    forall i | 0 <= i < |more| ensures more[i].next == if i + 1 < |more| then more[i + 1] else null {
      if i > 0 {
        var p := i - 1;
        assert more[i] == entries[p] && entries[p].next == if p + 1 < |entries| then entries[p + 1] else null;
      }
    }
  }

  /** A TB was translated: its base address, its bytes, its instructions. */
  datatype Translation = Translation(address: int, size: int, count: int)

  /** The first translation of an address. */
  ghost function First(translated: seq<Translation>, address: int): (r: Option<Translation>)
    ensures r.Some? ==> r.value in translated && r.value.address == address
    ensures r.None? ==> forall t :: t in translated ==> t.address != address
  {
    if translated == [] then None
    else if translated[0].address == address then Some(translated[0]) else First(translated[1..], address)
  }

  /** There is a record for each address that was translated, made at its first translation. */
  ghost predicate Firsts(entries: seq<TbRecord>, translated: seq<Translation>) {
    && (forall e :: e in entries ==> First(translated, e.baseAddress) == Some(Translation(e.baseAddress, e.size, e.instructionCount)))
    && (forall a :: First(translated, a).Some? <==> Recorded(entries, a))
  }

  class TbTable {
    const tree: AvlTable<TbRecord>
    var list: TbRecord?
    ghost var entries: seq<TbRecord>
    ghost var translated: seq<Translation>

    ghost predicate Valid()
      reads this, tree, Nodes(tree.tree)
    {
      && tree.Valid() && tree.compare == TbCompare && Items(tree.Contents()) == AsSet(entries) && tree.count == |entries|
      && Chained(list, entries) && OnePerAddress(entries) && Firsts(entries, translated)
    }

    constructor ()
      ensures Valid() && entries == [] && translated == [] && fresh(tree)
    {
      tree := new AvlTable(TbCompare);
      list, entries, translated := null, [], [];
    }

    method Search(address: int) returns (r: Option<TbRecord>)
      requires Valid()
      ensures r.Some? <==> Recorded(entries, address)
      ensures r.Some? ==> r.value in entries && r.value.baseAddress == address
    {
      hide AvlTable.Valid, Orders, OnePerAddress, Firsts, Chained;
      Allocated(tree.tree);
      var tmp := new TbRecord(address, 0, 0, null);
      TbOrders(Items(tree.Contents()) + {tmp});
      r := tree.Find(tmp);
      if r.None? { NoneEqual(entries, tmp); }
    }

    /** `add_tb_info`: the record of a base address, made when the TB is translated for the first time. */
    method AddTbInfo(address: int, size: int, count: int) returns (r: TbRecord?)
      requires Valid() && tree.count < 0xffff_ffff_ffff_ffff
      modifies this, tree, Nodes(tree.tree)
      ensures Valid() && r != null && r in entries && r.baseAddress == address && fresh(Nodes(tree.tree) - old(Nodes(tree.tree)))
      ensures translated == old(translated) + [Translation(address, size, count)]
      ensures First(translated, address) == Some(Translation(address, r.size, r.instructionCount))
      ensures if old(Recorded(entries, address)) then entries == old(entries)
              else entries == [r] + old(entries) && fresh(r) && r.size == size && r.instructionCount == count
    {
      hide *;
      Allocated(tree.tree);
      ghost var nodes, before, last := Nodes(tree.tree), tree.Contents(), Translation(address, size, count);
      var found := Search(address);
      Parts(this);
      if found.Some? {
        TranslatedAgain(entries, translated, last, found.value);
        translated := translated + [last];
        Whole(this);
        return found.value;
      }
      var record := new TbRecord(address, size, count, list);
      InsertReady(tree, record, entries);
      var duplicate;
      ghost var n;
      duplicate, n := tree.Insert(record);
      OneMore(tree, before, n, record, entries);
      FirstsMore(entries, translated, last, record);
      ChainedMore(list, entries, record);
      list, entries, translated := record, [record] + entries, translated + [last];
      Whole(this);
      Allocated(tree.tree);
      assert forall o :: o in Nodes(tree.tree) && o !in nodes ==> !old(allocated(o));
      r := record;
      if duplicate.Some? {
        r := null;
      } else {
        var again := Search(address);
        Same(entries, record, again);
        if again != Some(record) { r := null; }
      }
    }
  }

  lemma NoneEqual(entries: seq<TbRecord>, tmp: TbRecord)
    requires forall e :: e in AsSet(entries) ==> Compare(TbCompare, tmp, e) != 0
    ensures !Recorded(entries, tmp.baseAddress)
  {
    forall e | e in entries ensures e.baseAddress != tmp.baseAddress { assert e in AsSet(entries); }
  }

  lemma Parts(x: TbTable)
    requires x.Valid()
    ensures x.tree.Valid() && x.tree.compare == TbCompare && Items(x.tree.Contents()) == AsSet(x.entries)
    ensures x.tree.count == |x.entries| && OnePerAddress(x.entries) && |x.tree.Contents()| == |x.entries|
    ensures Chained(x.list, x.entries) && Firsts(x.entries, x.translated)
  {
    ValidParts(x.tree);
  }

  lemma Whole(x: TbTable)
    requires x.tree.Valid() && x.tree.compare == TbCompare && Items(x.tree.Contents()) == AsSet(x.entries)
    requires x.tree.count == |x.entries| && OnePerAddress(x.entries)
    requires Chained(x.list, x.entries) && Firsts(x.entries, x.translated)
    ensures x.Valid()
  {
  }

  lemma {:induction false} FirstAppend(translated: seq<Translation>, last: Translation, a: int)
    ensures First(translated + [last], a) == if First(translated, a).Some? then First(translated, a)
                                             else if last.address == a then Some(last) else None
  {
    if translated == [] {
      assert First([], a) == None;
    } else {
      assert (translated + [last])[1..] == translated[1..] + [last];
      FirstAppend(translated[1..], last, a);
    }
  }

  /** A later translation of a recorded address changes nothing. */
  lemma TranslatedAgain(entries: seq<TbRecord>, translated: seq<Translation>, last: Translation, r: TbRecord)
    requires Firsts(entries, translated) && r in entries && r.baseAddress == last.address
    ensures Firsts(entries, translated + [last])
    ensures First(translated + [last], last.address) == Some(Translation(last.address, r.size, r.instructionCount))
    ensures Recorded(entries, last.address)
  {
    forall a ensures First(translated + [last], a) == First(translated, a) { FirstAppend(translated, last, a); }
  }

  lemma FirstsMore(entries: seq<TbRecord>, translated: seq<Translation>, last: Translation, r: TbRecord)
    requires Firsts(entries, translated) && !Recorded(entries, last.address)
    requires r.baseAddress == last.address && r.size == last.size && r.instructionCount == last.count
    ensures Firsts([r] + entries, translated + [last]) && First(translated + [last], last.address) == Some(last)
  {
    var more := [r] + entries;
    forall a ensures First(translated + [last], a) == if a == last.address then Some(last) else First(translated, a) {
      FirstAppend(translated, last, a);
    }
    forall a ensures Recorded(more, a) <==> a == last.address || Recorded(entries, a) {
      assert r in more;
      if Recorded(entries, a) {
        var e :| e in entries && e.baseAddress == a;
        assert e in more;
      }
    }
    forall e | e in entries ensures e.baseAddress != last.address { assert Recorded(entries, e.baseAddress); }
  }

  lemma InsertReady(tree: AvlTable<TbRecord>, m: TbRecord, entries: seq<TbRecord>)
    requires tree.Valid() && tree.compare == TbCompare && Items(tree.Contents()) == AsSet(entries) && !Recorded(entries, m.baseAddress)
    ensures Searchable(tree.compare, m, tree.Contents()) && !tree.Has(m)
  {
    hide Orders;
    TbOrders(Items(tree.Contents()) + {m});
    forall n | n in tree.Contents() ensures Compare(TbCompare, m, n.data) != 0 {
      assert n.data in AsSet(entries);
    }
  }

  lemma OneMore(tree: AvlTable<TbRecord>, before: seq<Node<TbRecord>>, n: Node<TbRecord>, m: TbRecord, entries: seq<TbRecord>)
    requires tree.Valid() && Inserted(before, n, tree.Contents()) && n.data == m && !Recorded(entries, m.baseAddress)
    requires Items(before) == AsSet(entries) && |before| == |entries| && OnePerAddress(entries)
    ensures Items(tree.Contents()) == AsSet([m] + entries) && tree.count == |[m] + entries| && OnePerAddress([m] + entries)
    ensures m in [m] + entries && ([m] + entries)[0] == m
  {
    ValidParts(tree);
    hide Items, Orders, Sorted, Balanced, Focus;
    var k :| 0 <= k <= |before| && tree.Contents() == before[..k] + [n] + before[k..];
    InsertedItems(before, n, k);
    assert forall x {:trigger x in AsSet([m] + entries)} :: x in AsSet([m] + entries) <==> x == m || x in AsSet(entries);
    assert forall i :: 0 < i <= |entries| ==> ([m] + entries)[i] == entries[i - 1];
  }

  /** The search finds the record just made, and no other. */
  lemma Same(entries: seq<TbRecord>, record: TbRecord, r: Option<TbRecord>)
    requires OnePerAddress(entries) && record in entries && (r.Some? <==> Recorded(entries, record.baseAddress))
    requires r.Some? ==> r.value in entries && r.value.baseAddress == record.baseAddress
    ensures r == Some(record)
  {
  }
}
