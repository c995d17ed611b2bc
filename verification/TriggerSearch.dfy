/** `calculate_trigger.py`: from a fault instruction, one of its executions and a
    negative offset, find the instruction that must trigger the fault and the hit on
    which it must do so. */
module TriggerSearch {
  import opened Wrappers
  import opened Trace
  import opened HitCounting

  /** What the search writes back into a fault. */
  datatype Answer = Answer(address: int, hitcounter: int, lifespan: int)

  /** The search's filters: the instruction list of every TB, in any order. */
  ghost predicate FiltersOf(info: seq<Tb>, filters: seq<seq<int>>) {
    && (forall tb {:trigger tb.insns in filters} :: tb in info ==> tb.insns in filters)
    && (forall i :: 0 <= i < |filters| ==> IsFilter(info, filters[i]))
  }

  ghost predicate IsFilter(info: seq<Tb>, f: seq<int>) {
    exists tb :: tb in info && tb.insns == f
  }

  /** Flat position p is the occ-th execution of the instruction that holds byte fa. */
  ghost predicate IsTarget(info: seq<Tb>, flat: seq<int>, fa: int, occ: int, p: int) {
    && IsOccurrence(flat, if 0 <= p < |flat| then flat[p] else 0, occ, p)
    && exists t :: t in info && Holds(t, flat[p], fa)
  }

  // ---- find_fault ----

  /** `id <= a & id + size > a`, evaluated for the row of one executed TB. */
  predicate Matches(info: seq<Tb>, id: int, fa: int) {
    exists tb :: tb in info && tb.id == id && Covers(tb, fa)
  }

  /** Positions of the executed TBs whose row matches. */
  function Positions(info: seq<Tb>, exec: seq<int>, fa: int): (r: seq<nat>)
    ensures forall i :: 0 <= i < |r| ==> r[i] < |exec| && Matches(info, exec[r[i]], fa)
  {
    if exec == [] then []
    else
      var n := |exec| - 1;
      Positions(info, exec[..n], fa) + if Matches(info, exec[n], fa) then [n] else []
  }

  lemma {:induction false} PositionsAreHits(info: seq<Tb>, exec: seq<int>, fa: int)
    requires WellFormed(info, exec)
    ensures var r := Positions(info, exec, fa);
            |r| == Hits(info, exec, fa) && forall i :: 0 <= i < |r| ==> Hits(info, exec[..r[i]], fa) == i
  {
    if exec != [] {
      var n := |exec| - 1;
      PositionsAreHits(info, exec[..n], fa);
      MatchesRow(info, exec[n], fa);
      var r := Positions(info, exec[..n], fa);
      forall i | 0 <= i < |r| ensures exec[..n][..r[i]] == exec[..r[i]] {}
    }
  }

  lemma MatchesRow(info: seq<Tb>, id: int, fa: int)
    requires WellFormedInfo(info) && Known(info, id)
    ensures Matches(info, id, fa) <==> Covers(Row(info, id), fa)
  {
    forall tb | tb in info && tb.id == id ensures tb == Row(info, id) {
      RowIsUnique(info, tb);
    }
  }

  method AlignToInstruction(address: int, tb: Tb) returns (ins: Option<int>)
    requires WellFormedTb(tb)
    ensures ins.Some? <==> Covers(tb, address)
    ensures ins.Some? ==> Holds(tb, ins.value, address)
  {
    var addresses := tb.insns + [tb.id + tb.size];
    for i := 0 to |addresses| - 1
      invariant Covers(tb, address) ==> addresses[i] <= address
    {
      if address >= addresses[i] && address < addresses[i + 1] {
        InsnsAscend(tb, if i + 1 < |tb.insns| then i + 1 else i, |tb.insns| - 1);
        InsnsAscend(tb, i, i);
        assert HoldsAt(tb, i, addresses[i], address);
        return Some(addresses[i]);
      }
    }
    return None;
  }

  /** The TB execution and instruction of the occ-th execution, if there are that many. */
  method FindFault(faultAddress: int, exec: seq<int>, info: seq<Tb>, occurrences: int)
      returns (r: Option<(nat, int)>)
    requires WellFormed(info, exec) && occurrences >= 1
    ensures r.None? <==> Hits(info, exec, faultAddress) < occurrences
    ensures r.Some? ==> Found(info, exec, faultAddress, occurrences, r.value.0, r.value.1)
  {
    var positions := Positions(info, exec, faultAddress);
    PositionsAreHits(info, exec, faultAddress);
    if occurrences > |positions| {
      return None;
    }
    var idx := positions[occurrences - 1];
    MatchesRow(info, exec[idx], faultAddress);
    var row := FindRow(info, exec[idx]);
    var ins := AlignToInstruction(faultAddress, row);
    return Some((idx, ins.value));
  }

  ghost predicate Found(info: seq<Tb>, exec: seq<int>, fa: int, occ: int, idx: nat, ins: int) {
    idx < |exec| && Holds(Row(info, exec[idx]), ins, fa) && Hits(info, exec[..idx], fa) == occ - 1
  }

  /** What `find_fault` found is the one target on the flat trace. */
  lemma FoundIsTarget(info: seq<Tb>, exec: seq<int>, fa: int, occ: int, idx: nat, ins: int) returns (p: nat)
    requires WellFormed(info, exec) && Found(info, exec, fa, occ, idx, ins)
    ensures AtOffset(info, exec, idx, ins, p)
    ensures IsTarget(info, Flat(info, exec), fa, occ, p)
    ensures forall q :: IsTarget(info, Flat(info, exec), fa, occ, q) ==> q == p
  {
    var t, flat := Row(info, exec[idx]), Flat(info, exec);
    var off: nat :| off < |t.insns| && HoldsAt(t, off, ins, fa);
    p := Start(info, exec, idx) + off;
    RankInTb(info, exec, idx, ins, p);
    HitsOfSameInstruction(info, exec[..idx], t, ins, fa);
    forall q | IsTarget(info, flat, fa, occ, q) ensures q == p {
      TargetInstruction(info, t, ins, fa, flat[q]);
      OccurrenceIsUnique(flat, ins, occ, p, q);
    }
  }

  lemma TargetInstruction(info: seq<Tb>, t: Tb, ins: int, fa: int, ins': int)
    requires WellFormedInfo(info) && t in info && Holds(t, ins, fa)
    requires exists s :: s in info && Holds(s, ins', fa)
    ensures ins' == ins
  {
    var s :| s in info && Holds(s, ins', fa);
    var i: nat :| i < |t.insns| && HoldsAt(t, i, ins, fa);
    InsnsAscend(t, i, i);
    if i + 1 < |t.insns| { InsnsAscend(t, i + 1, i + 1); }
    CoversSameInstruction(info, s, t, ins', fa);
    var j: nat :| j < |t.insns| && HoldsAt(t, j, ins', fa);
    if i < j {
      InsnsAscend(t, i + 1, j);
    } else if j < i {
      InsnsAscend(t, j + 1, i);
    }
  }

  lemma TooFewOccurrences(info: seq<Tb>, exec: seq<int>, fa: int, occ: int, p: int)
    requires WellFormed(info, exec) && Hits(info, exec, fa) < occ
    ensures !IsTarget(info, Flat(info, exec), fa, occ, p)
  {
    var flat := Flat(info, exec);
    if IsTarget(info, flat, fa, occ, p) {
      var t :| t in info && Holds(t, flat[p], fa);
      HitsOfSameInstruction(info, exec, t, flat[p], fa);
      HitsAreOccurrences(info, exec, t, flat[p]);
      CountMonotone(flat, flat[p], p + 1, |flat|);
    }
  }

  // ---- calculate_lifespan_from_start ----

  method FindFilter(filters: seq<seq<int>>, info: seq<Tb>, t: Tb) returns (filt: seq<int>)
    requires WellFormedInfo(info) && FiltersOf(info, filters) && t in info
    ensures filt == t.insns
  {
    var i := 0;
    assert t.insns in filters;
    while i < |filters|
      invariant i <= |filters| && t.insns !in filters[..i]
    {
      assert IsFilter(info, filters[i]);
      ghost var s :| s in info && s.insns == filters[i];
      assert WellFormedTb(s) && WellFormedTb(t);
      if filters[i][0] == t.id {
        RowIsUnique(info, s);
        RowIsUnique(info, t);
        return filters[i];
      }
      i := i + 1;
    }
    assert false;
    filt := [];
  }

  /** The offset of an instruction in its filter. */
  method OffsetOf(tb: Tb, filt: seq<int>, ins: int, ghost off: nat) returns (i: nat)
    requires WellFormedTb(tb) && filt == tb.insns && off < |filt| && filt[off] == ins
    ensures i == off
  {
    i := 0;
    while filt[i] != ins
      invariant i <= off
      decreases off - i
    {
      i := i + 1;
    }
    InsnsAscend(tb, i, off);
  }

  /** Number of instructions from the start of the trace up to and including the target. */
  method LifespanFromStart(filters: seq<seq<int>>, faultAddress: int, exec: seq<int>, info: seq<Tb>,
                           occurrences: int, ghost p: int) returns (lifespan: int)
    requires WellFormed(info, exec) && FiltersOf(info, filters) && occurrences >= 1
    requires IsTarget(info, Flat(info, exec), faultAddress, occurrences, p)
    ensures lifespan == p + 1
  {
    var found := FindFault(faultAddress, exec, info, occurrences);
    if found.None? {
      TooFewOccurrences(info, exec, faultAddress, occurrences, p);
    }
    var (idx, ins) := found.value;
    ghost var p' := FoundIsTarget(info, exec, faultAddress, occurrences, idx, ins);
    var row := FindRow(info, exec[idx]);
    var filt := FindFilter(filters, info, row);
    var i := OffsetOf(row, filt, ins, p - Start(info, exec, idx));
    var before := InstructionsBefore(exec, info, idx);
    lifespan := i + 1 + before;
  }

  method InstructionsBefore(exec: seq<int>, info: seq<Tb>, idx: nat) returns (n: nat)
    requires WellFormed(info, exec) && idx <= |exec|
    ensures n == Start(info, exec, idx)
  {
    n := 0;
    for itter := 0 to idx
      invariant n == Start(info, exec, itter)
    {
      FlatStep(info, exec, itter);
      var row := FindRow(info, exec[itter]);
      n := n + row.insCount;
    }
  }

  // ---- search_for_fault_location ----

  /** Rank of the trigger instruction, from per-TB counts of the executions so far. */
  method TriggerHitcounter(info: seq<Tb>, exec: seq<int>, idx: nat, ins: int, ghost q: int) returns (hitcounter: nat)
    requires WellFormed(info, exec) && AtOffset(info, exec, idx, ins, q)
    ensures IsOccurrence(Flat(info, exec), ins, hitcounter, q)
  {
    var tb := FindRow(info, exec[idx]);
    var counts := multiset(exec[..idx + 1]);
    var supers := CountSupers(info, counts, tb);
    var tails := CountTails(info, counts, tb, ins);
    hitcounter := counts[tb.id] + supers + tails;
    CorrectedCount(info, exec[..idx + 1], tb, ins);
    RankInTb(info, exec, idx, ins, q);
  }

  /** Executions of the TBs that this one is the tail of. */
  method CountSupers(info: seq<Tb>, counts: multiset<int>, tb: Tb) returns (sum: nat)
    ensures sum == SumIf(info, counts, Supers(tb))
  {
    sum := 0;
    for i := 0 to |info|
      invariant sum == SumIf(info[..i], counts, Supers(tb))
    {
      SumIfPrefix(info, counts, Supers(tb), i);
      if StartsInside(tb, info[i]) && info[i].id in counts {
        sum := sum + counts[info[i].id];
      }
    }
    assert info[..|info|] == info;
  }

  /** Executions of the tails of this TB that reach down to the instruction. */
  method CountTails(info: seq<Tb>, counts: multiset<int>, tb: Tb, ins: int) returns (sum: nat)
    ensures sum == SumIf(info, counts, TailsReaching(tb, ins))
  {
    sum := 0;
    for i := 0 to |info|
      invariant sum == SumIf(info[..i], counts, TailsReaching(tb, ins))
    {
      SumIfPrefix(info, counts, TailsReaching(tb, ins), i);
      if IsTailOf(info[i], tb) && info[i].id in counts && ins >= info[i].id {
        sum := sum + counts[info[i].id];
      }
    }
    assert info[..|info|] == info;
  }

  /** The answer the search owes for a target at flat position p and offset -n. */
  ghost predicate Resolves(flat: seq<int>, fa: int, n: int, lifespan: int, p: int, r: Answer) {
    if n <= p then
      r.lifespan == lifespan && IsOccurrence(flat, r.address, r.hitcounter, p - n)
    else
      r == Answer(fa, 0, if lifespan > 0 then p + 1 + lifespan - n else lifespan)
  }

  method SearchForFaultLocation(filters: seq<seq<int>>, triggerPosition: int, faultAddress: int,
                                occurrences: int, lifespan: int, exec: seq<int>, info: seq<Tb>)
      returns (r: Answer)
    requires WellFormed(info, exec) && FiltersOf(info, filters)
    requires triggerPosition < 0 && occurrences >= 1
    ensures (forall p :: !IsTarget(info, Flat(info, exec), faultAddress, occurrences, p))
            ==> r == Answer(-1, occurrences, lifespan)
    ensures forall p :: (IsTarget(info, Flat(info, exec), faultAddress, occurrences, p)
                         ==> Resolves(Flat(info, exec), faultAddress, -triggerPosition, lifespan, p, r))
  {
    var found := FindFault(faultAddress, exec, info, occurrences);
    if found.None? {
      forall p ensures !IsTarget(info, Flat(info, exec), faultAddress, occurrences, p) {
        TooFewOccurrences(info, exec, faultAddress, occurrences, p);
      }
      return Answer(-1, occurrences, lifespan);
    }
    ghost var p := FoundIsTarget(info, exec, faultAddress, occurrences, found.value.0, found.value.1);
    r := WalkBack(filters, triggerPosition, faultAddress, occurrences, lifespan, exec, info,
                  found.value.0, found.value.1, p);
  }

  /** Where the backward walk stands: `position` instructions still to go back, from
      `ins` of TB idx as long as it has not left the first TB, afterwards from the end of TB idx. */
  ghost predicate Walking(info: seq<Tb>, exec: seq<int>, idx: int, ins: int, position: int, left: bool, target: int) {
    && position >= 0
    && -1 <= idx < |exec|
    && if position != 0 && left then target == Start(info, exec, idx + 1) - position
       else AtOffset(info, exec, idx, ins, target + position)
  }

  /** First step: the trigger is in the TB of the fault, or before it. */
  method StepInTb(tb: Tb, filt: seq<int>, exec: seq<int>, info: seq<Tb>, idx: int, ins: int, position: int, ghost target: int)
      returns (idx': int, ins': int, position': int, left': bool)
    requires WellFormed(info, exec) && position > 0 && Walking(info, exec, idx, ins, position, false, target)
    requires tb == Row(info, exec[idx]) && filt == tb.insns
    ensures Walking(info, exec, idx', ins', position', left', target)
    ensures if position' == 0 then idx' == idx else left' && idx' == idx - 1
  {
    var i := OffsetOf(tb, filt, ins, target + position - Start(info, exec, idx));
    if i >= position {
      return idx, filt[i - position], 0, false;
    } else {
      return idx - 1, ins, position - i, true;
    }
  }

  /** Later steps: the trigger is in this TB, counted from its end, or before it. */
  method StepOverTb(tb: Tb, filt: seq<int>, exec: seq<int>, info: seq<Tb>, idx: int, ins: int, position: int, ghost target: int)
      returns (idx': int, ins': int, position': int)
    requires WellFormed(info, exec) && position > 0 && Walking(info, exec, idx, ins, position, true, target)
    requires 0 <= idx && tb == Row(info, exec[idx]) && filt == tb.insns && WellFormedTb(tb)
    ensures Walking(info, exec, idx', ins', position', true, target)
    ensures idx' == if position' == 0 then idx else idx - 1
  {
    FlatStep(info, exec, idx);
    // is the current TB too short for the trigger position?
    if position > tb.insCount {
      return idx - 1, ins, position - tb.insCount;
    } else {
      return idx, filt[|filt| - position], 0;
    }
  }

  /** The backward walk from the target, instruction `foundIns` of TB `foundIdx`. */
  method WalkBack(filters: seq<seq<int>>, triggerPosition: int, faultAddress: int, occurrences: int,
                  lifespan: int, exec: seq<int>, info: seq<Tb>, foundIdx: nat, foundIns: int, ghost p: int)
      returns (r: Answer)
    requires WellFormed(info, exec) && FiltersOf(info, filters) && triggerPosition < 0 && occurrences >= 1
    requires AtOffset(info, exec, foundIdx, foundIns, p)
    requires IsTarget(info, Flat(info, exec), faultAddress, occurrences, p)
    ensures Resolves(Flat(info, exec), faultAddress, -triggerPosition, lifespan, p, r)
  {
    var idx: int, ins := foundIdx, foundIns;
    ghost var target := p + triggerPosition;
    var triggerNotInSameTb := false;
    var lifespanDiff := triggerPosition + lifespan;
    var position := -triggerPosition;
    while position != 0
      invariant Walking(info, exec, idx, ins, position, triggerNotInSameTb, target)
      invariant triggerNotInSameTb || position == 0 || idx >= 0
      decreases idx + 1, position
    {
      if idx < 0 {
        var newLifespan := lifespan;
        if lifespan > 0 {
          newLifespan := LifespanFromStart(filters, faultAddress, exec, info, occurrences, p);
          newLifespan := newLifespan + lifespanDiff;
        }
        return Answer(faultAddress, 0, newLifespan);
      }
      var tb := FindRow(info, exec[idx]);
      var filt := FindFilter(filters, info, tb);
      if triggerNotInSameTb {
        idx, ins, position := StepOverTb(tb, filt, exec, info, idx, ins, position, target);
      } else {
        idx, ins, position, triggerNotInSameTb := StepInTb(tb, filt, exec, info, idx, ins, position, target);
      }
    }
    var hitcounter := TriggerHitcounter(info, exec, idx, ins, target);
    r := Answer(ins, hitcounter, lifespan);
  }
}
