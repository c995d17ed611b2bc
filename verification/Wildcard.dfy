/** `generate_wildcard_faults` of `goldenrun.py`: one fault for every executed
    instruction of a range, each with the hit on which its own execution is reached. */
module Wildcard {
  import opened Wrappers
  import opened Trace
  import opened HitCounting

  datatype Mark = Mark(address: int, hitcounter: int)

  datatype Region = Region(start: int, stop: int)

  datatype Range = Range(start: Mark, end: Mark, local: bool, exclude: seq<Region>)

  predicate Excluded(c: Range, a: int) {
    exists r :: r in c.exclude && r.start <= a < r.stop
  }

  // ---- The range on the flat trace ----

  /** The start's execution number `hitcounter` has happened before position p. */
  ghost predicate StartedBefore(c: Range, f: seq<int>, p: nat)
    requires p <= |f|
  {
    c.start.hitcounter == 0 || Count(f, c.start.address, p) >= c.start.hitcounter
  }

  /** Position e is the end of the range: the right execution, strictly after the start. */
  ghost predicate EndsAt(c: Range, f: seq<int>, e: int) {
    && c.end.hitcounter != 0
    && IsOccurrence(f, c.end.address, c.end.hitcounter, e)
    && StartedBefore(c, f, e)
  }

  /** Position p is in a local range: opened at j and not closed before p. */
  ghost predicate InLocal(c: Range, f: seq<int>, j: int, p: int) {
    && 0 <= j <= p <= |f| && j < |f|
    && f[j] == c.start.address && StartedBefore(c, f, j + 1)
    && forall m :: j <= m < p ==> f[m] != c.end.address
  }

  ghost predicate Emits(c: Range, f: seq<int>, p: nat)
    requires p < |f|
  {
    && StartedBefore(c, f, p + 1)
    && (c.local ==> exists j :: InLocal(c, f, j, p))
    && !Excluded(c, f[p])
  }

  /** The faults of the first n positions: one for each emitting position, in order. */
  ghost function Faults(c: Range, f: seq<int>, n: nat): seq<Mark>
    requires n <= |f|
  {
    if n == 0 then []
    else Faults(c, f, n - 1) + if Emits(c, f, n - 1) then [Mark(f[n - 1], Count(f, f[n - 1], n))] else []
  }

  /** Where generation stops: at the first emitting position from the range's end on, or,
      if the TB of the range's end has none, at the end of that TB. */
  ghost predicate StopsAt(c: Range, info: seq<Tb>, exec: seq<int>, e: int, stop: nat) {
    var f := Flat(info, exec);
    exists k: nat :: k < |exec| && Start(info, exec, k) <= e && StopsInTb(c, f, e, Start(info, exec, k + 1), stop)
  }

  ghost predicate StopsInTb(c: Range, f: seq<int>, e: int, tbEnd: nat, stop: nat) {
    && 0 <= e < stop <= tbEnd <= |f|
    && (forall q :: e <= q < stop - 1 ==> !Emits(c, f, q))
    && (Emits(c, f, stop - 1) || stop == tbEnd)
  }

  // ---- The scan ----

  datatype Scan = Scan(startCounter: int, endCounter: int, endReached: bool, localActive: bool)

  ghost predicate ScanAt(c: Range, f: seq<int>, p: nat, s: Scan) {
    && p <= |f|
    && s.startCounter == (if StartedBefore(c, f, p) then 0 else c.start.hitcounter - Count(f, c.start.address, p))
    && (c.end.hitcounter != 0 ==> s.endCounter == Count(f, c.end.address, p))
    && (s.endReached <==> exists e :: e < p && EndsAt(c, f, e))
    && (c.local ==> (s.localActive <==> LocalAfter(c, f, p)))
  }

  /** A local range opened before p is still open when p is reached. */
  ghost predicate LocalAfter(c: Range, f: seq<int>, p: nat) {
    exists j :: j < p && InLocal(c, f, j, p)
  }

  /** The counters and flags after one instruction; `emit` says whether it is faulted. */
  method Visit(c: Range, s: Scan, instr: int, ghost f: seq<int>, ghost p: nat) returns (s': Scan, emit: bool)
    requires c.start.hitcounter >= 0 && ScanAt(c, f, p, s) && p < |f| && f[p] == instr
    ensures ScanAt(c, f, p + 1, s') && (emit <==> Emits(c, f, p))
  {
    s' := s;
    emit := false;
    if c.end.hitcounter != 0 {
      if instr == c.end.address {
        s' := s'.(endCounter := s'.endCounter + 1);
        if s'.startCounter == 0 && s'.endCounter == c.end.hitcounter {
          s' := s'.(endReached := true);
        }
      }
    }
    assert EndsAt(c, f, p) <==> (c.end.hitcounter != 0 && instr == c.end.address && s.startCounter == 0
                                 && s'.endCounter == c.end.hitcounter);
    LocalStep(c, f, p);
    if s'.startCounter != 0 {
      if instr == c.start.address {
        s' := s'.(startCounter := s'.startCounter - 1);
      } else {
        return;
      }
      if s'.startCounter != 0 {
        return;
      }
    }
    if c.local {
      if instr == c.start.address {
        s' := s'.(localActive := true);
      }
      if !s'.localActive {
        return;
      }
      if instr == c.end.address {
        s' := s'.(localActive := false);
      }
    }
    emit := !Excluded(c, instr);
  }

  lemma LocalStep(c: Range, f: seq<int>, p: nat)
    requires p < |f|
    ensures (exists j :: InLocal(c, f, j, p))
            <==> LocalAfter(c, f, p) || (f[p] == c.start.address && StartedBefore(c, f, p + 1))
    ensures LocalAfter(c, f, p + 1) <==> (exists j :: InLocal(c, f, j, p)) && f[p] != c.end.address
    ensures !StartedBefore(c, f, p + 1) ==> !exists j :: InLocal(c, f, j, p)
  {
    if f[p] == c.start.address && StartedBefore(c, f, p + 1) {
      assert InLocal(c, f, p, p);
    }
    forall j | InLocal(c, f, j, p)
      ensures StartedBefore(c, f, p + 1) && (f[p] != c.end.address ==> InLocal(c, f, j, p + 1))
    {
      CountMonotone(f, c.start.address, j + 1, p + 1);
    }
    if j :| InLocal(c, f, j, p) {
      assert f[p] != c.end.address ==> InLocal(c, f, j, p + 1);
    }
    var next := p + 1;
    if j :| j < next && InLocal(c, f, j, next) {
      assert InLocal(c, f, j, p);
    }
  }

  // ---- Hit counters ----

  ghost predicate HitsMatch(info: seq<Tb>, hits: map<int, nat>, counts: multiset<int>) {
    forall i, id {:trigger HasId(info, i, id)} :: HasId(info, i, id) ==> id in hits && hits[id] == counts[id]
  }

  /** Sum of the counts of the tails that reach down to the instruction. */
  ghost function Reaching(tails: seq<Mark>, instr: int): int {
    if tails == [] then 0
    else Reaching(tails[..|tails| - 1], instr)
         + if instr >= tails[|tails| - 1].address then tails[|tails| - 1].hitcounter else 0
  }

  /** The adjustments of one TB, worked out at its first fault. */
  datatype Analysis = Pending | Analysis(supers: nat, tails: seq<Mark>)

  ghost predicate Analyzed(info: seq<Tb>, tb: Tb, counts: multiset<int>, a: Analysis) {
    a.Analysis? ==>
      && a.supers == SumIf(info, counts, Supers(tb))
      && forall instr :: Reaching(a.tails, instr) == SumIf(info, counts, TailsReaching(tb, instr))
  }

  /** The tails among the first n rows, with their counts. */
  ghost predicate TailsUpTo(info: seq<Tb>, counts: multiset<int>, tb: Tb, n: nat, tails: seq<Mark>)
    requires n <= |info|
  {
    forall instr :: Reaching(tails, instr) == SumIf(info[..n], counts, TailsReaching(tb, instr))
  }

  lemma NextTail(info: seq<Tb>, counts: multiset<int>, tb: Tb, i: nat, before: seq<Mark>, tails: seq<Mark>)
    requires i < |info| && TailsUpTo(info, counts, tb, i, before)
    requires tails == if IsTailOf(info[i], tb) then before + [Mark(info[i].id, counts[info[i].id])] else before
    ensures TailsUpTo(info, counts, tb, i + 1, tails)
  {
    hide SumIf, IsTailOf;
    forall instr ensures Reaching(tails, instr) == SumIf(info[..i + 1], counts, TailsReaching(tb, instr)) {
      SumIfPrefix(info, counts, TailsReaching(tb, instr), i);
      assert Reaching(before, instr) == SumIf(info[..i], counts, TailsReaching(tb, instr));
      if tails != before { assert tails[..|tails| - 1] == before; }
    }
  }

  method SumSupers(info: seq<Tb>, hits: map<int, nat>, tb: Tb, ghost counts: multiset<int>) returns (supers: nat)
    requires HitsMatch(info, hits, counts)
    ensures supers == SumIf(info, counts, Supers(tb))
  {
    supers := 0;
    for i := 0 to |info|
      invariant supers == SumIf(info[..i], counts, Supers(tb))
    {
      SumIfPrefix(info, counts, Supers(tb), i);
      assert HasId(info, i, info[i].id);
      if StartsInside(tb, info[i]) {
        supers := supers + hits[info[i].id];
      }
    }
    assert info[..|info|] == info;
  }

  method CollectTails(info: seq<Tb>, hits: map<int, nat>, tb: Tb, ghost counts: multiset<int>) returns (tails: seq<Mark>)
    requires HitsMatch(info, hits, counts)
    ensures TailsUpTo(info, counts, tb, |info|, tails)
  {
    hide Reaching, SumIf, IsTailOf, TailsUpTo;
    tails := [];
    NoTails(info, counts, tb);
    for i := 0 to |info|
      invariant TailsUpTo(info, counts, tb, i, tails)
    {
      assert HasId(info, i, info[i].id);
      ghost var before := tails;
      if IsTailOf(info[i], tb) {
        tails := tails + [Mark(info[i].id, hits[info[i].id])];
      }
      NextTail(info, counts, tb, i, before, tails);
    }
  }

  lemma NoTails(info: seq<Tb>, counts: multiset<int>, tb: Tb)
    ensures TailsUpTo(info, counts, tb, 0, [])
  {
  }

  /** TB-specific and instruction-specific adjustments of the hit counter. */
  method AnalyzeTb(info: seq<Tb>, hits: map<int, nat>, tb: Tb, ghost counts: multiset<int>) returns (a: Analysis)
    requires HitsMatch(info, hits, counts)
    ensures a.Analysis? && Analyzed(info, tb, counts, a)
  {
    var supers := SumSupers(info, hits, tb, counts);
    var tails := CollectTails(info, hits, tb, counts);
    assert info[..|info|] == info;
    a := Analysis(supers, tails);
  }

  method HitcounterOf(tbHitcounter: int, tails: seq<Mark>, instr: int) returns (hitcounter: int)
    ensures hitcounter == 1 + tbHitcounter + Reaching(tails, instr)
  {
    hitcounter := 1 + tbHitcounter;
    for i := 0 to |tails|
      invariant hitcounter == 1 + tbHitcounter + Reaching(tails[..i], instr)
    {
      assert tails[..i + 1][..i] == tails[..i];
      if instr >= tails[i].address {
        hitcounter := hitcounter + tails[i].hitcounter;
      }
    }
    assert tails[..|tails|] == tails;
  }

  // ---- generate_wildcard_faults ----

  /** What is known while the k-th executed TB is scanned: the counts include it. */
  ghost predicate InTb(info: seq<Tb>, exec: seq<int>, k: nat, tb: Tb, tbHitcounter: int, hits: map<int, nat>, a: Analysis) {
    && WellFormed(info, exec) && k < |exec| && tb == Row(info, exec[k])
    && HitsMatch(info, hits, multiset(exec[..k + 1]))
    && tbHitcounter + 1 == multiset(exec[..k + 1])[tb.id]
    && Analyzed(info, tb, multiset(exec[..k + 1]), a)
  }

  /** One fault for the instruction at flat position p of the k-th executed TB. */
  method EmitFault(exec: seq<int>, info: seq<Tb>, k: nat, tb: Tb, tbHitcounter: int, hits: map<int, nat>, a: Analysis,
                   instr: int, ghost p: nat)
      returns (m: Mark, a': Analysis)
    requires InTb(info, exec, k, tb, tbHitcounter, hits, a)
    requires AtOffset(info, exec, k, instr, p) && p < |Flat(info, exec)|
    ensures m == Mark(instr, Count(Flat(info, exec), instr, p + 1))
    ensures InTb(info, exec, k, tb, tbHitcounter, hits, a')
  {
    a' := a;
    if a'.Pending? {
      a' := AnalyzeTb(info, hits, tb, multiset(exec[..k + 1]));
    }
    var hitcounter := HitcounterOf(tbHitcounter + a'.supers, a'.tails, instr);
    CorrectedCount(info, exec[..k + 1], tb, instr);
    RankInTb(info, exec, k, instr, p);
    m := Mark(instr, hitcounter);
  }

  ghost predicate NoEmits(c: Range, f: seq<int>, lo: int, hi: nat) {
    hi <= |f| && forall q :: 0 <= lo <= q < hi ==> !Emits(c, f, q)
  }

  /** Scanning has reached position p of a TB that starts at p0; a range end at e, if it
      was met, still waits for an emitting position. */
  ghost predicate Awaiting(c: Range, f: seq<int>, p0: nat, p: nat, e: int, s: Scan) {
    && ScanAt(c, f, p, s)
    && (s.endReached ==> EndsAt(c, f, e) && p0 <= e < p && NoEmits(c, f, e, p))
  }

  /** The range ended at e and position p is the first from there on to be faulted. */
  ghost predicate LastFault(c: Range, f: seq<int>, p0: nat, p: nat, e: int) {
    && EndsAt(c, f, e) && p0 <= e <= p < |f|
    && NoEmits(c, f, e, p) && Emits(c, f, p)
  }

  method ScanInstruction(c: Range, scan: Scan, instr: int, ghost f: seq<int>, ghost p0: nat, ghost p: nat, ghost e: int)
      returns (scan': Scan, emit: bool, ghost e': int)
    requires c.start.hitcounter >= 0 && p0 <= p < |f| && f[p] == instr && Awaiting(c, f, p0, p, e, scan)
    ensures ScanAt(c, f, p + 1, scan') && (emit <==> Emits(c, f, p))
    ensures if emit && scan'.endReached then LastFault(c, f, p0, p, e') else Awaiting(c, f, p0, p + 1, e', scan')
  {
    scan', emit := Visit(c, scan, instr, f, p);
    e' := if scan.endReached then e else p;
  }

  /** Everything the inner loop carries from one instruction to the next. */
  datatype Progress = Progress(scan: Scan, faults: seq<Mark>, analysis: Analysis)

  /** The loop stands before flat position p of the TB that starts at p0. */
  ghost predicate Reached(c: Range, f: seq<int>, p0: nat, p: nat, e: int, g: Progress) {
    Awaiting(c, f, p0, p, e, g.scan) && g.faults == Faults(c, f, p)
  }

  /** The loop was left after faulting position p, the last of the range. */
  ghost predicate Finished(c: Range, f: seq<int>, p0: nat, p: nat, e: int, g: Progress) {
    && LastFault(c, f, p0, p, e)
    && ScanAt(c, f, p + 1, g.scan) && g.scan.endReached
    && g.faults == Faults(c, f, p + 1)
  }

  method VisitInstruction(c: Range, exec: seq<int>, info: seq<Tb>, k: nat, tb: Tb, tbHitcounter: int, hits: map<int, nat>,
                          g: Progress, instr: int, ghost f: seq<int>, ghost p0: nat, ghost p: nat, ghost e: int)
      returns (g': Progress, done: bool, ghost e': int)
    requires c.start.hitcounter >= 0 && InTb(info, exec, k, tb, tbHitcounter, hits, g.analysis)
    requires f == Flat(info, exec) && AtOffset(info, exec, k, instr, p) && p0 <= p < |f| && f[p] == instr
    requires Reached(c, f, p0, p, e, g)
    ensures InTb(info, exec, k, tb, tbHitcounter, hits, g'.analysis)
    ensures if done then Finished(c, f, p0, p, e', g') else Reached(c, f, p0, p + 1, e', g')
  {
    var scan, emit;
    scan, emit, e' := ScanInstruction(c, g.scan, instr, f, p0, p, e);
    done := emit && scan.endReached;
    if emit {
      var m, a := EmitFault(exec, info, k, tb, tbHitcounter, hits, g.analysis, instr, p);
      FaultsAppend(c, f, p, g.faults, m);
      g' := Progress(scan, g.faults + [m], a);
    } else {
      FaultsSkip(c, f, p, g.faults);
      g' := Progress(scan, g.faults, g.analysis);
    }
  }

  /** A TB at p0..tbEnd has been scanned: wholly, or up to and including the last fault. */
  ghost predicate TbScanned(c: Range, f: seq<int>, p0: nat, tbEnd: nat, stop: nat, e: int, g: Progress) {
    && ScanAt(c, f, stop, g.scan) && g.faults == Faults(c, f, stop)
    && if g.scan.endReached then p0 <= e && EndsAt(c, f, e) && StopsInTb(c, f, e, tbEnd, stop) else stop == tbEnd
  }

  lemma AfterLastFault(c: Range, f: seq<int>, p0: nat, tbEnd: nat, p: nat, e: int, g: Progress)
    requires p < tbEnd <= |f| && Finished(c, f, p0, p, e, g)
    ensures TbScanned(c, f, p0, tbEnd, p + 1, e, g)
  {
  }

  lemma AfterWholeTb(c: Range, f: seq<int>, p0: nat, tbEnd: nat, e: int, g: Progress)
    requires p0 < tbEnd <= |f| && Reached(c, f, p0, tbEnd, e, g)
    ensures TbScanned(c, f, p0, tbEnd, tbEnd, e, g)
  {
  }

  /** The instructions of one executed TB; stops early once the range has ended. */
  method ScanTb(c: Range, exec: seq<int>, info: seq<Tb>, k: nat, tb: Tb, tbHitcounter: int, hits: map<int, nat>,
                g: Progress, ghost f: seq<int>, ghost p0: nat, ghost tbEnd: nat)
      returns (g': Progress, ghost stop: nat, ghost e: int)
    requires c.start.hitcounter >= 0 && InTb(info, exec, k, tb, tbHitcounter, hits, g.analysis)
    requires f == Flat(info, exec) && p0 == Start(info, exec, k)
    requires tbEnd == p0 + |tb.insns| && tbEnd <= |f| && f[p0..tbEnd] == tb.insns && tb.insns != []
    requires Reached(c, f, p0, p0, -1, g)
    ensures TbScanned(c, f, p0, tbEnd, stop, e, g')
  {
    hide Reached, Flat, Start;
    g', e, stop := g, -1, p0;
    var idx := 0;
    while idx < |tb.insns|
      invariant idx <= |tb.insns| && stop == p0 + idx
      invariant InTb(info, exec, k, tb, tbHitcounter, hits, g'.analysis)
      invariant Reached(c, f, p0, stop, e, g')
    {
      SliceAt(info, exec, k, tb.insns, f, p0, idx, stop);
      var done;
      g', done, e := VisitInstruction(c, exec, info, k, tb, tbHitcounter, hits, g', tb.insns[idx], f, p0, stop, e);
      if done {
        AfterLastFault(c, f, p0, tbEnd, stop, e, g');
        stop := stop + 1;
        return;
      }
      idx, stop := idx + 1, stop + 1;
    }
    AfterWholeTb(c, f, p0, tbEnd, e, g');
    stop := tbEnd;
  }

  lemma FaultsSkip(c: Range, f: seq<int>, p: nat, faults: seq<Mark>)
    requires p < |f| && faults == Faults(c, f, p) && !Emits(c, f, p)
    ensures faults == Faults(c, f, p + 1)
  {
  }

  lemma FaultsAppend(c: Range, f: seq<int>, p: nat, faults: seq<Mark>, m: Mark)
    requires p < |f| && faults == Faults(c, f, p) && Emits(c, f, p) && m == Mark(f[p], Count(f, f[p], p + 1))
    ensures faults + [m] == Faults(c, f, p + 1)
  {
  }

  lemma SliceAt(info: seq<Tb>, exec: seq<int>, k: nat, insns: seq<int>, f: seq<int>, p0: nat, idx: nat, p: nat)
    requires k < |exec| && insns == Row(info, exec[k]).insns && p0 == Start(info, exec, k)
    requires p0 + |insns| <= |f| && f[p0..p0 + |insns|] == insns && idx < |insns| && p == p0 + idx
    ensures p < |f| && f[p] == insns[idx] && AtOffset(info, exec, k, insns[idx], p)
  {
    assert f[p0..p0 + |insns|][idx] == f[p];
  }

  lemma HitsStep(info: seq<Tb>, exec: seq<int>, k: nat, hits: map<int, nat>, id: int)
    requires k < |exec| && id == exec[k] && id in hits && HitsMatch(info, hits, multiset(exec[..k]))
    ensures HitsMatch(info, hits[id := hits[id] + 1], multiset(exec[..k + 1]))
    ensures multiset(exec[..k + 1])[id] == multiset(exec[..k])[id] + 1
  {
    assert exec[..k + 1] == exec[..k] + [id];
    forall i, x | HasId(info, i, x)
      ensures var h := hits[id := hits[id] + 1]; x in h && h[x] == multiset(exec[..k + 1])[x] {
    }
  }

  /** The generator stands before the k-th executed TB, at flat position stop. */
  ghost predicate AtTb(c: Range, info: seq<Tb>, exec: seq<int>, k: nat, stop: nat, f: seq<int>, g: Progress, hits: map<int, nat>) {
    && k <= |exec| && stop == Start(info, exec, k) <= |f|
    && Reached(c, f, stop, stop, -1, g)
    && HitsMatch(info, hits, multiset(exec[..k]))
  }

  /** One round of the outer loop. */
  method ScanNextTb(c: Range, exec: seq<int>, info: seq<Tb>, k: nat, hits: map<int, nat>, g: Progress,
                    ghost f: seq<int>, ghost p0: nat)
      returns (g': Progress, hits': map<int, nat>, ghost stop: nat, ghost e: int)
    requires WellFormed(info, exec) && k < |exec| && c.start.hitcounter >= 0 && f == Flat(info, exec)
    requires AtTb(c, info, exec, k, p0, f, g, hits)
    ensures if g'.scan.endReached
            then TbScanned(c, f, p0, Start(info, exec, k + 1), stop, e, g') && p0 <= stop <= |f|
            else AtTb(c, info, exec, k + 1, stop, f, g', hits')
  {
    var tb := FindRow(info, exec[k]);
    ghost var i :| HasId(info, i, tb.id);
    var tbHitcounter := hits[tb.id];
    hits' := hits[tb.id := tbHitcounter + 1];
    HitsStep(info, exec, k, hits, tb.id);
    FlatAt(info, exec, k);
    g', stop, e := ScanTb(c, exec, info, k, tb, tbHitcounter, hits', g.(analysis := Pending), f, p0, p0 + |tb.insns|);
  }

  lemma Finish(c: Range, f: seq<int>, s: Scan, stop: nat)
    requires c.start.hitcounter >= 0 && ScanAt(c, f, stop, s) && (s.endReached || stop == |f|)
    ensures RangeIsMet(c, f) <==> s.startCounter == 0 && (c.end.hitcounter != 0 ==> s.endReached)
  {
    CountMonotone(f, c.start.address, stop, |f|);
    if e :| EndsAt(c, f, e) && e < stop {
      CountMonotone(f, c.start.address, e, stop);
    }
  }

  /** Generation fails when the start, or an end that is asked for, is not met. */
  ghost predicate RangeIsMet(c: Range, f: seq<int>) {
    StartedBefore(c, f, |f|) && (c.end.hitcounter != 0 ==> exists e :: EndsAt(c, f, e))
  }

  method GenerateWildcardFaults(c: Range, exec: seq<int>, info: seq<Tb>)
      returns (r: Option<seq<Mark>>, ghost e: int, ghost stop: nat)
    requires WellFormed(info, exec) && c.start.hitcounter >= 0
    ensures r.Some? <==> RangeIsMet(c, Flat(info, exec))
    ensures r.Some? ==> stop <= |Flat(info, exec)| && r.value == Faults(c, Flat(info, exec), stop)
    ensures r.Some? ==> if c.end.hitcounter == 0 then stop == |Flat(info, exec)|
                        else EndsAt(c, Flat(info, exec), e) && StopsAt(c, info, exec, e, stop)
  {
    ghost var f := Flat(info, exec);
    var hits: map<int, nat> := map tb | tb in info :: tb.id := 0;
    var g := Progress(Scan(c.start.hitcounter, 0, false, false), [], Pending);
    stop, e := 0, -1;
    var k := 0;
    while k < |exec|
      invariant AtTb(c, info, exec, k, stop, f, g, hits)
    {
      g, hits, stop, e := ScanNextTb(c, exec, info, k, hits, g, f, stop);
      if g.scan.endReached {
        break;
      }
      k := k + 1;
    }
    assert exec[..|exec|] == exec;
    Finish(c, f, g.scan, stop);
    if g.scan.startCounter != 0 {
      return None, e, stop;
    }
    if c.end.hitcounter != 0 && !g.scan.endReached {
      return None, e, stop;
    }
    r := Some(g.faults);
  }
}
