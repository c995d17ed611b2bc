/** What the offline answers mean when the program is replayed: counting hits down
    fires at one known position of the flat trace, and nowhere else. */
module Replay {
  import opened Trace
  import opened TriggerSearch
  import opened TriggerTable
  import opened Wildcard

  // ---- Counting hits down ----

  /** The trigger's hit counter after the first p instructions: every hit takes one off, down to 0. */
  ghost function Remaining(f: seq<int>, a: int, hitcounter: nat, p: nat): nat
    requires p <= |f|
  {
    if p == 0 then hitcounter
    else
      var r := Remaining(f, a, hitcounter, p - 1);
      if f[p - 1] == a && r != 0 then r - 1 else r
  }

  /** The instruction at position q takes the counter to 0. */
  ghost predicate FiresAt(f: seq<int>, a: int, hitcounter: int, q: int) {
    0 <= q < |f| && hitcounter >= 0 && Remaining(f, a, hitcounter, q) > 0 && Remaining(f, a, hitcounter, q + 1) == 0
  }

  lemma {:induction false} RemainingIsDifference(f: seq<int>, a: int, hitcounter: nat, p: nat)
    requires p <= |f|
    ensures Remaining(f, a, hitcounter, p) == if Count(f, a, p) <= hitcounter then hitcounter - Count(f, a, p) else 0
  {
    if p > 0 { RemainingIsDifference(f, a, hitcounter, p - 1); }
  }

  lemma FiresAtOccurrence(f: seq<int>, a: int, hitcounter: int, q: int)
    ensures FiresAt(f, a, hitcounter, q) <==> hitcounter > 0 && IsOccurrence(f, a, hitcounter, q)
  {
    if 0 <= q < |f| && hitcounter >= 0 {
      RemainingIsDifference(f, a, hitcounter, q);
      RemainingIsDifference(f, a, hitcounter, q + 1);
    }
  }

  /** The trigger of a fault at flat position p with offset -n fires at p - n only. */
  lemma SearchedTriggerFires(info: seq<Tb>, exec: seq<int>, fa: int, before: Answer, after: Answer, p: int)
    requires Searched(info, exec, fa, before, after)
    requires IsTarget(info, Flat(info, exec), fa, before.hitcounter, p)
    requires before.address < 0 && -before.address <= p
    ensures after.hitcounter > 0 && after.lifespan == before.lifespan
    ensures forall q :: FiresAt(Flat(info, exec), after.address, after.hitcounter, q) <==> q == p + before.address
  {
    var f := Flat(info, exec);
    assert Resolves(f, fa, -before.address, before.lifespan, p, after);
    forall q ensures FiresAt(f, after.address, after.hitcounter, q) <==> q == p + before.address {
      FiresAtOccurrence(f, after.address, after.hitcounter, q);
      if IsOccurrence(f, after.address, after.hitcounter, q) {
        OccurrenceIsUnique(f, after.address, after.hitcounter, q, p + before.address);
      }
    }
  }

  // ---- Lifespans that start before the trace ----

  /** The lifetime left after the instruction at p, of a fault injected by the one at `start`. */
  ghost function LifetimeAfter(start: int, lifespan: nat, p: int): nat
    decreases p - start
  {
    if p <= start then lifespan
    else
      var l := LifetimeAfter(start, lifespan, p - 1);
      if l == 0 then 0 else l - 1
  }

  ghost predicate ReversedAt(start: int, lifespan: nat, p: int) {
    LifetimeAfter(start, lifespan, p - 1) > 0 && LifetimeAfter(start, lifespan, p) == 0
  }

  lemma {:induction false} LifetimeIsDifference(start: int, lifespan: nat, p: int)
    ensures LifetimeAfter(start, lifespan, p)
         == if p <= start then lifespan else if p <= start + lifespan then start + lifespan - p else 0
    decreases p - start
  {
    if p > start { LifetimeIsDifference(start, lifespan, p - 1); }
  }

  /** A trigger before the trace start is moved to the start (position -1), with a lifespan
      that is no longer, never empty, and ends at the same instruction as the one asked for. */
  lemma ClampKeepsEnd(info: seq<Tb>, exec: seq<int>, fa: int, before: Answer, after: Answer, p: int)
    requires Answers(info, exec, fa, before, after) && before.hitcounter != 0 && before.lifespan > 0
    requires IsTarget(info, Flat(info, exec), fa, before.hitcounter, p)
    requires p < -before.address <= before.lifespan
    ensures after.address == fa && after.hitcounter == 0
    ensures p + 1 <= after.lifespan <= before.lifespan
    ensures forall x :: ReversedAt(-1, after.lifespan, x) <==> ReversedAt(p + before.address, before.lifespan, x)
  {
    assert Resolves(Flat(info, exec), fa, -before.address, before.lifespan, p, after);
    forall x ensures ReversedAt(-1, after.lifespan, x) <==> ReversedAt(p + before.address, before.lifespan, x) {
      LifetimeIsDifference(-1, after.lifespan, x);
      LifetimeIsDifference(-1, after.lifespan, x - 1);
      LifetimeIsDifference(p + before.address, before.lifespan, x);
      LifetimeIsDifference(p + before.address, before.lifespan, x - 1);
    }
  }

  ghost predicate EndsBefore(start: int, lifespan: nat, p: int) {
    exists x :: x < p && ReversedAt(start, lifespan, x)
  }

  lemma EndIsBefore(start: int, lifespan: nat, p: int)
    requires lifespan > 0
    ensures EndsBefore(start, lifespan, p) <==> start + lifespan < p
  {
    forall x ensures ReversedAt(start, lifespan, x) <==> x == start + lifespan {
      LifetimeIsDifference(start, lifespan, x);
      LifetimeIsDifference(start, lifespan, x - 1);
    }
    assert ReversedAt(start, lifespan, start + lifespan);
  }

  /** A fault is rejected without a search exactly if it would have ended before its own instruction. */
  lemma RejectedExactlyIf(info: seq<Tb>, exec: seq<int>, fa: int, before: Answer, after: Answer, p: int)
    requires Answers(info, exec, fa, before, after) && before.address < 0 && before.hitcounter != 0 && before.lifespan >= 0
    ensures if before.lifespan > 0 && EndsBefore(p + before.address, before.lifespan, p)
            then after == Answer(-1, before.hitcounter, before.lifespan)
            else Searched(info, exec, fa, before, after)
  {
    hide EndsBefore, Searched;
    if before.lifespan > 0 { EndIsBefore(p + before.address, before.lifespan, p); }
  }

  // ---- Wildcard faults ----

  /** The positions that the faults of the first n instructions stand for. */
  ghost function FaultPositions(c: Range, f: seq<int>, n: nat): seq<nat>
    requires n <= |f|
  {
    if n == 0 then []
    else FaultPositions(c, f, n - 1) + if Emits(c, f, n - 1) then [n - 1] else []
  }

  /** One fault for each emitting position, in trace order, with that position's rank. */
  lemma {:induction false} FaultsExact(c: Range, f: seq<int>, n: nat)
    requires n <= |f|
    ensures var ps := FaultPositions(c, f, n); var faults := Faults(c, f, n);
            && |faults| == |ps|
            && (forall i :: 0 <= i < |ps| ==> ps[i] < n && Emits(c, f, ps[i])
                                              && IsOccurrence(f, faults[i].address, faults[i].hitcounter, ps[i]))
            && (forall i, j :: 0 <= i < j < |ps| ==> ps[i] < ps[j])
            && (forall p :: 0 <= p < n && Emits(c, f, p) ==> p in ps)
  {
    if n > 0 { FaultsExact(c, f, n - 1); }
  }

  lemma PositionInTb(info: seq<Tb>, exec: seq<int>, p: nat) returns (k: nat)
    requires WellFormed(info, exec) && p < |Flat(info, exec)|
    ensures AtOffset(info, exec, k, Flat(info, exec)[p], p)
  {
    assert exec[..|exec|] == exec;
    k := |exec|;
    while Start(info, exec, k) > p
      invariant k <= |exec| && Start(info, exec, k) >= p
      invariant Start(info, exec, k) == p ==> k < |exec| && |Row(info, exec[k]).insns| > 0
    {
      k := k - 1;
      FlatStep(info, exec, k);
      assert Known(info, exec[k]) && WellFormedTb(Row(info, exec[k]));
      if Start(info, exec, k) < p {
        break;
      }
    }
    FlatAt(info, exec, k);
    assert Flat(info, exec)[p] == Flat(info, exec)[Start(info, exec, k)..Start(info, exec, k) + |Row(info, exec[k]).insns|][p - Start(info, exec, k)];
  }

  /** Select undoes rank: with the hit counter of position p there are enough hits for `find_fault`
      to find something, and whatever it finds is the instruction at p, in the TB execution of p. */
  lemma RankSelectsPosition(info: seq<Tb>, exec: seq<int>, p: nat)
    requires WellFormed(info, exec) && p < |Flat(info, exec)|
    ensures var f := Flat(info, exec); var rank := Count(f, f[p], p + 1);
            && IsTarget(info, f, f[p], rank, p)
            && Hits(info, exec, f[p]) >= rank
            && forall k: nat, ins :: Found(info, exec, f[p], rank, k, ins) ==> ins == f[p] && AtOffset(info, exec, k, ins, p)
  {
    var f := Flat(info, exec);
    var rank := Count(f, f[p], p + 1);
    RankIsTarget(info, exec, p);
    if Hits(info, exec, f[p]) < rank { TooFewOccurrences(info, exec, f[p], rank, p); }
    forall k: nat, ins | Found(info, exec, f[p], rank, k, ins) ensures ins == f[p] && AtOffset(info, exec, k, ins, p) {
      var q := FoundIsTarget(info, exec, f[p], rank, k, ins);
      OffsetHolds(info, exec, k, ins, q);
    }
  }

  lemma OffsetHolds(info: seq<Tb>, exec: seq<int>, k: nat, ins: int, p: nat)
    requires WellFormed(info, exec) && AtOffset(info, exec, k, ins, p)
    ensures p < |Flat(info, exec)| && Flat(info, exec)[p] == ins
  {
    FlatAt(info, exec, k);
    assert Flat(info, exec)[p] == Flat(info, exec)[Start(info, exec, k)..Start(info, exec, k) + |Row(info, exec[k]).insns|][p - Start(info, exec, k)];
  }

  lemma RankIsTarget(info: seq<Tb>, exec: seq<int>, p: nat)
    requires WellFormed(info, exec) && p < |Flat(info, exec)|
    ensures var f := Flat(info, exec); IsTarget(info, f, f[p], Count(f, f[p], p + 1), p)
  {
    var f := Flat(info, exec);
    var k := PositionInTb(info, exec, p);
    assert Known(info, exec[k]);
    var t := Row(info, exec[k]);
    assert WellFormedTb(t);
    InsnHoldsItself(t, p - Start(info, exec, k));
    assert Holds(t, f[p], f[p]);
  }

  /** The whole chain: every fault of a wildcard range, given to the search with offset -n,
      gets a trigger that fires exactly n instructions before that fault's own position, or
      at the start of the trace when there are fewer. */
  lemma WildcardTriggersFire(c: Range, info: seq<Tb>, exec: seq<int>, n: nat, i: nat, offset: int, lifespan: int, after: Answer)
    requires WellFormed(info, exec) && n <= |Flat(info, exec)| && i < |Faults(c, Flat(info, exec), n)|
    requires offset > 0
    requires var m := Faults(c, Flat(info, exec), n)[i];
             Searched(info, exec, m.address, Answer(-offset, m.hitcounter, lifespan), after)
    ensures var f := Flat(info, exec); var ps := FaultPositions(c, f, n);
            && i < |ps|
            && if offset <= ps[i] then forall q :: FiresAt(f, after.address, after.hitcounter, q) <==> q == ps[i] - offset
               else after == Answer(Faults(c, f, n)[i].address, 0, if lifespan > 0 then ps[i] + 1 + lifespan - offset else lifespan)
  {
    var f := Flat(info, exec);
    FaultsExact(c, f, n);
    var m, p := Faults(c, f, n)[i], FaultPositions(c, f, n)[i];
    RankSelectsPosition(info, exec, p);
    assert IsTarget(info, f, m.address, m.hitcounter, p);
    assert Resolves(f, m.address, offset, lifespan, p, after);
    if offset <= p {
      SearchedTriggerFires(info, exec, m.address, Answer(-offset, m.hitcounter, lifespan), after, p);
    }
  }

  // ---- The documented range ----

  /** A start with a hit counter: positions from that execution on. */
  lemma StartedFromOccurrence(c: Range, f: seq<int>, s: int, p: nat)
    requires c.start.hitcounter > 0 && IsOccurrence(f, c.start.address, c.start.hitcounter, s) && p <= |f|
    ensures StartedBefore(c, f, p) <==> s < p
  {
    if s < p {
      CountMonotone(f, c.start.address, s + 1, p);
    } else {
      CountMonotone(f, c.start.address, p, s);
    }
  }

  /** The range has an end exactly when the end's execution comes strictly after the start's. */
  lemma EndIsAfterStart(c: Range, f: seq<int>, s: int, e: int)
    requires c.start.hitcounter > 0 && IsOccurrence(f, c.start.address, c.start.hitcounter, s)
    ensures EndsAt(c, f, e) <==> c.end.hitcounter != 0 && IsOccurrence(f, c.end.address, c.end.hitcounter, e) && s < e
  {
    if 0 <= e < |f| { StartedFromOccurrence(c, f, s, e); }
  }

  lemma {:induction false} FaultsGrow(c: Range, f: seq<int>, lo: nat, hi: nat)
    requires lo <= hi <= |f|
    ensures |Faults(c, f, lo)| <= |Faults(c, f, hi)|
    ensures Faults(c, f, lo) == Faults(c, f, hi) <==> NoEmits(c, f, lo, hi)
  {
    if lo < hi { FaultsGrow(c, f, lo, hi - 1); }
  }

  /** Generation stops with the range exactly when the range's end is itself faulted or
      nothing is left to fault in its TB; otherwise it runs on to one fault too many. */
  lemma StopsWithRange(c: Range, f: seq<int>, e: int, tbEnd: nat, stop: nat)
    requires StopsInTb(c, f, e, tbEnd, stop)
    ensures Faults(c, f, stop) == Faults(c, f, e + 1) <==> Emits(c, f, e) || NoEmits(c, f, e + 1, tbEnd)
    ensures !(Emits(c, f, e) || NoEmits(c, f, e + 1, tbEnd)) ==> |Faults(c, f, stop)| == |Faults(c, f, e + 1)| + 1
  {
    FaultsGrow(c, f, e + 1, stop);
    if stop > e + 1 { FaultsGrow(c, f, e + 1, stop - 1); }
  }

  /** Outside local mode the condition is on the excluded regions alone. */
  lemma StopConditionIsExclusion(c: Range, f: seq<int>, e: int, tbEnd: nat)
    requires !c.local && EndsAt(c, f, e) && e < tbEnd <= |f|
    ensures Emits(c, f, e) <==> !Excluded(c, f[e])
    ensures NoEmits(c, f, e + 1, tbEnd) <==> forall q :: e < q < tbEnd ==> Excluded(c, f[q])
  {
    forall q {:trigger Emits(c, f, q)} | e <= q < tbEnd ensures Emits(c, f, q) <==> !Excluded(c, f[q]) {
      CountMonotone(f, c.start.address, e, q + 1);
    }
    forall q | e < q < tbEnd && NoEmits(c, f, e + 1, tbEnd) ensures Excluded(c, f[q]) {
      assert !Emits(c, f, q);
    }
  }

  /** The documented range: between an execution of the start and a later one of the end that is not
      excluded, the faulted positions are exactly the closed interval without the excluded regions. */
  lemma RangeExact(c: Range, info: seq<Tb>, exec: seq<int>, s: int, e: int, stop: nat, p: nat)
    requires var f := Flat(info, exec);
             && c.start.hitcounter > 0 && IsOccurrence(f, c.start.address, c.start.hitcounter, s)
             && c.end.hitcounter != 0 && IsOccurrence(f, c.end.address, c.end.hitcounter, e)
             && s < e && !c.local && !Excluded(c, f[e]) && stop <= |f| && StopsAt(c, info, exec, e, stop) && p < |f|
    ensures var f := Flat(info, exec); p in FaultPositions(c, f, stop) <==> s <= p <= e && !exists r :: r in c.exclude && r.start <= f[p] < r.stop
  {
    hide FaultPositions;
    var f := Flat(info, exec);
    FaultsExact(c, f, stop);
    StartedFromOccurrence(c, f, s, e + 1);
    assert Emits(c, f, e) && stop == e + 1;
    StartedFromOccurrence(c, f, s, p + 1);
  }

  /** From the execution of an instruction on, a local range is open until the end's next one. */
  lemma LocalRangeExact(c: Range, f: seq<int>, s: int, p: nat)
    requires c.local && c.start.hitcounter > 0 && IsOccurrence(f, c.start.address, c.start.hitcounter, s) && p < |f|
    ensures Emits(c, f, p) <==>
              (!exists r :: r in c.exclude && r.start <= f[p] < r.stop)
              && exists j :: s <= j <= p && f[j] == c.start.address && NoEndBetween(c, f, j, p)
  {
    forall j ensures InLocal(c, f, j, p) <==> s <= j <= p && f[j] == c.start.address && NoEndBetween(c, f, j, p) {
      if 0 <= j <= p { StartedFromOccurrence(c, f, s, j + 1); }
    }
    StartedFromOccurrence(c, f, s, p + 1);
  }

  ghost predicate NoEndBetween(c: Range, f: seq<int>, j: int, p: nat) {
    0 <= j && p <= |f| && forall m :: j <= m < p ==> f[m] != c.end.address
  }

  lemma OneTbTrace(tb: Tb)
    requires WellFormedTb(tb)
    ensures WellFormed([tb], [tb.id]) && Flat([tb], [tb.id]) == tb.insns
    ensures Start([tb], [tb.id], 0) == 0 && Start([tb], [tb.id], 1) == |tb.insns|
  {
    assert IsSuffix(tb.insns, tb.insns);
    assert HasId([tb], 0, tb.id);
    RowIsUnique([tb], tb);
    assert [tb.id][..0] == [] && [tb.id][..1] == [tb.id];
  }

  const OVERRUN := Range(Mark(0, 0), Mark(0, 1), false, [Region(0, 2)])

  /** An excluded range end lets the next instruction of its TB slip in. */
  lemma ExcludedEndOverruns()
    ensures var info := [Tb(0, 4, [0, 2], 2)];
            && WellFormed(info, [0]) && EndsAt(OVERRUN, Flat(info, [0]), 0)
            && forall stop :: StopsAt(OVERRUN, info, [0], 0, stop)
                 ==> Faults(OVERRUN, Flat(info, [0]), stop) == [Mark(2, 1)] && Faults(OVERRUN, Flat(info, [0]), 1) == []
  {
    assert [0, 2][..1] == [0];
    OneTbTrace(Tb(0, 4, [0, 2], 2));
    OverrunFaults([0, 2]);
  }

  lemma OverrunFaults(f: seq<int>)
    requires f == [0, 2]
    ensures EndsAt(OVERRUN, f, 0) && !Emits(OVERRUN, f, 0) && Emits(OVERRUN, f, 1)
    ensures Faults(OVERRUN, f, 1) == [] && Faults(OVERRUN, f, 2) == [Mark(2, 1)]
  {
    assert Count(f, 0, 1) == 1;
    assert Count(f, 2, 1) == 0;
    assert Count(f, 2, 2) == Count(f, 2, 1) + 1;
    assert Excluded(OVERRUN, 0) by { assert OVERRUN.exclude[0] == Region(0, 2); }
  }
}
