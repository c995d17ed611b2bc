/** `calculate_trigger_addresses`: the driver that resolves every fault with a negative
    trigger offset, remembering the last answer of each fault address. */
module TriggerTable {
  import opened Trace
  import opened TriggerSearch
  import opened Filters

  class Fault {
    const address: int
    var lifespan: int
    var triggerAddress: int
    var triggerHitcounter: int

    constructor (address: int, lifespan: int, triggerAddress: int, triggerHitcounter: int)
      ensures this.address == address && this.lifespan == lifespan
      ensures this.triggerAddress == triggerAddress && this.triggerHitcounter == triggerHitcounter
    {
      this.address, this.lifespan := address, lifespan;
      this.triggerAddress, this.triggerHitcounter := triggerAddress, triggerHitcounter;
    }

    ghost function Trigger(): Answer
      reads this
    {
      Answer(triggerAddress, triggerHitcounter, lifespan)
    }
  }

  /** The answer owed to a request: an offset (`before.address`), an execution and a lifespan. */
  ghost predicate Answers(info: seq<Tb>, exec: seq<int>, fa: int, before: Answer, after: Answer) {
    if before.address >= 0 || before.hitcounter == 0 then
      after == before
    else if before.lifespan != 0 && before.address + before.lifespan < 0 then
      after == Answer(-1, before.hitcounter, before.lifespan)
    else
      Searched(info, exec, fa, before, after)
  }

  ghost predicate Searched(info: seq<Tb>, exec: seq<int>, fa: int, before: Answer, after: Answer) {
    && ((forall p :: !IsTarget(info, Flat(info, exec), fa, before.hitcounter, p))
        ==> after == Answer(-1, before.hitcounter, before.lifespan))
    && (forall p :: (IsTarget(info, Flat(info, exec), fa, before.hitcounter, p)
                     ==> Resolves(Flat(info, exec), fa, -before.address, before.lifespan, p, after)))
  }

  datatype CacheEntry = CacheEntry(faultLifespan: int, triggerHitcounter: int, triggerAddress: int, answer: Answer)

  ghost predicate CacheHolds(info: seq<Tb>, exec: seq<int>, cache: map<int, CacheEntry>) {
    forall a :: a in cache ==>
      var e := cache[a];
      var before := Answer(e.triggerAddress, e.triggerHitcounter, e.faultLifespan);
      before.address < 0 && before.hitcounter != 0 && Answers(info, exec, a, before, e.answer)
  }

  method ResolveFault(fault: Fault, filters: seq<seq<int>>, exec: seq<int>, info: seq<Tb>, cache: map<int, CacheEntry>)
      returns (cache': map<int, CacheEntry>)
    requires WellFormed(info, exec) && FiltersOf(info, filters) && CacheHolds(info, exec, cache)
    requires fault.triggerHitcounter >= 0
    modifies fault
    ensures Answers(info, exec, fault.address, old(fault.Trigger()), fault.Trigger())
    ensures CacheHolds(info, exec, cache')
  {
    cache' := cache;
    if fault.triggerAddress >= 0 || fault.triggerHitcounter == 0 {
      return;
    }
    if fault.address in cache {
      var e := cache[fault.address];
      if e.faultLifespan == fault.lifespan && e.triggerHitcounter == fault.triggerHitcounter
         && e.triggerAddress == fault.triggerAddress {
        fault.triggerAddress := e.answer.address;
        fault.triggerHitcounter := e.answer.hitcounter;
        fault.lifespan := e.answer.lifespan;
        return;
      }
    }
    var answer;
    if fault.lifespan != 0 && fault.triggerAddress + fault.lifespan < 0 {
      answer := Answer(-1, fault.triggerHitcounter, fault.lifespan);
    } else {
      answer := SearchForFaultLocation(filters, fault.triggerAddress, fault.address,
                                       fault.triggerHitcounter, fault.lifespan, exec, info);
    }
    var entry := CacheEntry(fault.lifespan, fault.triggerHitcounter, fault.triggerAddress, answer);
    cache' := cache[fault.address := entry];
    fault.triggerAddress := answer.address;
    fault.triggerHitcounter := answer.hitcounter;
    fault.lifespan := answer.lifespan;
  }

  method CalculateTriggerAddresses(faults: seq<Fault>, exec: seq<int>, info: seq<Tb>)
    requires WellFormed(info, exec)
    requires forall i, j :: 0 <= i < j < |faults| ==> faults[i] != faults[j]
    requires forall i :: 0 <= i < |faults| ==> faults[i].triggerHitcounter >= 0
    modifies faults
    ensures forall i :: 0 <= i < |faults| ==>
              Answers(info, exec, faults[i].address, old(faults[i].Trigger()), faults[i].Trigger())
  {
    var lists := BuildFilters(info);
    FiltersAreTbs(info, lists);
    var filters := [];
    for i := 0 to |lists|
      invariant |filters| == i && forall j :: 0 <= j < i ==> filters[j] == Reversed(lists[j])
    {
      filters := filters + [Reversed(lists[i])];
    }
    ReversedListsAreFilters(info, lists, filters);
    var cache: map<int, CacheEntry> := map[];
    for i := 0 to |faults|
      invariant CacheHolds(info, exec, cache)
      invariant forall j :: i <= j < |faults| ==> faults[j].Trigger() == old(faults[j].Trigger())
      invariant forall j :: 0 <= j < i ==>
                  Answers(info, exec, faults[j].address, old(faults[j].Trigger()), faults[j].Trigger())
    {
      cache := ResolveFault(faults[i], filters, exec, info, cache);
    }
  }

  lemma ReversedListsAreFilters(info: seq<Tb>, lists: seq<seq<int>>, filters: seq<seq<int>>)
    requires forall f :: f in lists <==> exists i :: 0 <= i < |info| && f == Reversed(info[i].insns)
    requires |filters| == |lists| && forall j :: 0 <= j < |lists| ==> filters[j] == Reversed(lists[j])
    ensures FiltersOf(info, filters)
  {
    forall tb | tb in info ensures tb.insns in filters {
      var i :| 0 <= i < |info| && info[i] == tb;
      assert Reversed(tb.insns) in lists;
      var j :| 0 <= j < |lists| && lists[j] == Reversed(tb.insns);
      ReversedTwice(tb.insns);
      assert filters[j] == tb.insns;
    }
    forall j | 0 <= j < |filters| ensures IsFilter(info, filters[j]) {
      assert lists[j] in lists;
      var i :| 0 <= i < |info| && lists[j] == Reversed(info[i].insns);
      ReversedTwice(info[i].insns);
      assert info[i] in info;
    }
  }
}
