/** `filter_function` and `filter_tb` of `faultclass.py`: single stepping turns every
    instruction of a TB into an executed TB of its own; the filter folds such runs back.
    Rows are kept newest first, so a run reads like a filter: last instruction first. */
module TraceFilter {
  import opened Wrappers
  import opened Trace
  import opened Filters

  /** The value written over a row that is to be dropped; no TB has this id. */
  const GONE := -1

  // ---- Matching one filter ----

  ghost predicate RunAt(t: seq<int>, filt: seq<int>, s: int) {
    0 <= s && s + |filt| <= |t| && forall j :: 0 <= j < |filt| ==> t[s + j] == filt[j]
  }

  ghost function Runs(t: seq<int>, filt: seq<int>): set<int> {
    set s | 0 <= s <= |t| && RunAt(t, filt, s)
  }

  /** Row i belongs to a complete run and is not the run's head, which is its oldest row. */
  ghost predicate Folded(t: seq<int>, filt: seq<int>, i: int) {
    exists s :: FoldedBy(t, filt, s, i)
  }

  ghost predicate FoldedBy(t: seq<int>, filt: seq<int>, s: int, i: int) {
    RunAt(t, filt, s) && s <= i < s + |filt| - 1
  }

  ghost function FoldRuns(t: seq<int>, filt: seq<int>): (r: seq<int>)
    ensures |r| == |t| && forall i :: 0 <= i < |t| ==> r[i] == if Folded(t, filt, i) then GONE else t[i]
  {
    seq(|t|, i requires 0 <= i < |t| => if Folded(t, filt, i) then GONE else t[i])
  }

  function Shift(s: set<int>, d: int): (r: set<int>)
    ensures forall x {:trigger x in r} :: x in r <==> x - d in s
  {
    set x | x in s :: x + d
  }

  lemma ShiftWithout(s: set<int>, x: int, d: int)
    requires x in s
    ensures Shift(s, d) == Shift(s - {x}, d) + {x + d} && x + d !in Shift(s - {x}, d)
  {
    hide Shift;
    assert x + d - d == x;
  }

  lemma {:induction false} ShiftSize(s: set<int>, d: int)
    ensures |Shift(s, d)| == |s|
  {
    hide Shift;
    if s != {} {
      var x := Element(s);
      ShiftSize(s - {x}, d);
      ShiftWithout(s, x, d);
    } else {
      assert forall x :: x !in Shift(s, d);
    }
  }

  /** Invalidate all given positions. */
  method Invalidate(tb: array<int>, tb1: array<int>, idx: set<int>)
    requires tb.Length == tb1.Length && tb != tb1 && forall i :: i in idx ==> 0 <= i < tb.Length
    modifies tb, tb1
    ensures forall i :: 0 <= i < tb.Length ==> tb[i] == if i in idx then GONE else old(tb[i])
    ensures forall i :: 0 <= i < tb.Length ==> tb1[i] == if i in idx then GONE else old(tb1[i])
  {
    var rest := idx;
    while rest != {}
      invariant rest <= idx
      invariant forall i :: 0 <= i < tb.Length ==> tb[i] == if i in idx && i !in rest then GONE else old(tb[i])
      invariant forall i :: 0 <= i < tb.Length ==> tb1[i] == if i in idx && i !in rest then GONE else old(tb1[i])
      decreases rest
    {
      ghost var some := Element(rest);
      var i :| i in rest;
      tb[i] := GONE;
      tb1[i] := GONE;
      rest := rest - {i};
    }
  }

  /** `decrese_tb_info_element`: all rows of one id lose `number` executions. */
  method DecreaseTbInfo(id: int, number: nat, ids: seq<int>, numExec: array<int>)
    requires numExec.Length == |ids|
    modifies numExec
    ensures forall r :: 0 <= r < |ids| ==> numExec[r] == old(numExec[r]) - if ids[r] == id then number else 0
  {
    for i := 0 to |ids|
      invariant forall r :: 0 <= r < i ==> numExec[r] == old(numExec[r]) - if ids[r] == id then number else 0
      invariant forall r :: i <= r < |ids| ==> numExec[r] == old(numExec[r])
    {
      if ids[i] == id {
        numExec[i] := numExec[i] - number;
      }
    }
  }

  /** How many executions a row loses to one filter: one per run for each folded address. */
  ghost function Loss(t: seq<int>, filt: seq<int>, from: nat, id: int): nat
    requires from <= |filt|
    decreases |filt| - from
  {
    if from + 1 >= |filt| then 0 else Loss(t, filt, from + 1, id) + if filt[from] == id then |Runs(t, filt)| else 0
  }

  /** The positions of the heads of all complete runs: shift by one, intersect, repeat. */
  method MatchHeads(tb: array<int>, filt: seq<int>) returns (idx: set<int>)
    requires filt != []
    ensures idx == Shift(Runs(tb[..], filt), |filt| - 1)
  {
    ghost var t := tb[..];
    idx := set i | 0 <= i < tb.Length && tb[i] == filt[0];
    for j := 1 to |filt|
      invariant forall x :: x in idx <==> RunAt(t, filt[..j], x - j + 1)
    {
      var tmp := set i | 0 <= i < tb.Length && tb[i] == filt[j];
      idx := Shift(idx, 1) * tmp;
      forall x ensures x in idx <==> RunAt(t, filt[..j + 1], x - j) {
        LongerRun(t, filt, j, x - j);
      }
    }
    assert filt[..|filt|] == filt;
    forall x ensures x in idx <==> x in Shift(Runs(t, filt), |filt| - 1) {}
  }

  lemma LongerRun(t: seq<int>, filt: seq<int>, j: nat, s: int)
    requires j < |filt|
    ensures RunAt(t, filt[..j + 1], s) <==> RunAt(t, filt[..j], s) && s + j < |t| && t[s + j] == filt[j]
  {
    assert forall i :: 0 <= i < j ==> filt[..j + 1][i] == filt[..j][i];
    if RunAt(t, filt[..j + 1], s) {
      assert t[s + j] == filt[..j + 1][j];
    }
  }

  method FilterFunction(tb: array<int>, tb1: array<int>, filt: seq<int>, ids: seq<int>, numExec: array<int>)
    requires filt != [] && tb.Length == tb1.Length && numExec.Length == |ids|
    requires tb != tb1 && tb != numExec && tb1 != numExec
    modifies tb, tb1, numExec
    ensures tb[..] == FoldRuns(old(tb[..]), filt)
    ensures forall i :: 0 <= i < tb.Length ==> tb1[i] == if Folded(old(tb[..]), filt, i) then GONE else old(tb1[i])
    ensures forall r :: 0 <= r < |ids| ==> numExec[r] == old(numExec[r]) - Loss(old(tb[..]), filt, 0, ids[r])
  {
    ghost var t := tb[..];
    var idx := MatchHeads(tb, filt);
    // now step through the filter backwards
    var j := |filt| - 1;
    while j > 0
      invariant 0 <= j < |filt|
      invariant idx == Shift(Runs(t, filt), j)
      invariant forall i :: 0 <= i < tb.Length ==> tb[i] == if FoldedFrom(t, filt, j, i) then GONE else t[i]
      invariant forall i :: 0 <= i < tb.Length ==> tb1[i] == if FoldedFrom(t, filt, j, i) then GONE else old(tb1[i])
      invariant forall r :: 0 <= r < |ids| ==> numExec[r] == old(numExec[r]) - Loss(t, filt, j, ids[r])
    {
      j := j - 1;
      idx := Shift(idx, -1);
      ShiftBack(t, filt, j, idx);
      Invalidate(tb, tb1, idx);
      DecreaseTbInfo(filt[j], |idx|, ids, numExec);
      forall r | 0 <= r < |ids| ensures numExec[r] == old(numExec[r]) - Loss(t, filt, j, ids[r]) {
        LossStep(t, filt, j, ids[r], |idx|);
      }
    }
    FoldedFromStart(t, filt);
    assert tb[..] == FoldRuns(t, filt);
  }

  lemma LossStep(t: seq<int>, filt: seq<int>, j: nat, id: int, runs: nat)
    requires j + 1 < |filt| && runs == |Runs(t, filt)|
    ensures Loss(t, filt, j, id) == Loss(t, filt, j + 1, id) + if id == filt[j] then runs else 0
  {
  }

  lemma ShiftBack(t: seq<int>, filt: seq<int>, j: nat, idx: set<int>)
    requires j + 1 < |filt| && idx == Shift(Shift(Runs(t, filt), j + 1), -1)
    ensures idx == Shift(Runs(t, filt), j) && |idx| == |Runs(t, filt)|
    ensures forall i :: i in idx ==> 0 <= i < |t|
    ensures forall i :: FoldedFrom(t, filt, j, i) <==> FoldedFrom(t, filt, j + 1, i) || i in idx
  {
    forall x ensures x in idx <==> x in Shift(Runs(t, filt), j) {
      assert x in idx <==> x + 1 in Shift(Runs(t, filt), j + 1);
    }
    ShiftSize(Runs(t, filt), j);
    forall i ensures FoldedFrom(t, filt, j, i) <==> FoldedFrom(t, filt, j + 1, i) || i in idx {
      FoldedStep(t, filt, j, i);
    }
  }

  /** Row i is one of the folded rows that the backward pass has reached at step j. */
  ghost predicate FoldedFrom(t: seq<int>, filt: seq<int>, j: nat, i: int) {
    exists s :: RunAt(t, filt, s) && s + j <= i < s + |filt| - 1
  }

  lemma FoldedFromStart(t: seq<int>, filt: seq<int>)
    ensures forall i :: FoldedFrom(t, filt, 0, i) <==> Folded(t, filt, i)
  {
    forall i ensures FoldedFrom(t, filt, 0, i) <==> Folded(t, filt, i) {
      if s :| FoldedBy(t, filt, s, i) {
        assert RunAt(t, filt, s) && s + 0 <= i < s + |filt| - 1;
      }
      if s :| RunAt(t, filt, s) && s + 0 <= i < s + |filt| - 1 {
        assert FoldedBy(t, filt, s, i);
      }
    }
  }

  lemma FoldedStep(t: seq<int>, filt: seq<int>, j: nat, i: int)
    requires j + 1 < |filt|
    ensures FoldedFrom(t, filt, j, i) <==> FoldedFrom(t, filt, j + 1, i) || i in Shift(Runs(t, filt), j)
  {
    if i in Shift(Runs(t, filt), j) {
      assert RunAt(t, filt, i - j);
    }
    if s :| RunAt(t, filt, s) && s + j <= i < s + |filt| - 1 {
      assert s in Runs(t, filt);
      assert i == s + j ==> i in Shift(Runs(t, filt), j);
    }
  }

  // ---- Counters and rows stay in step ----

  ghost function PositionsOf(t: seq<int>, id: int): set<int> {
    set i | 0 <= i < |t| && t[i] == id
  }

  lemma {:induction false} CountIsPositions(t: seq<int>, id: int, n: nat)
    requires n <= |t|
    ensures Count(t, id, n) == |set i | 0 <= i < n && t[i] == id|
  {
    if n > 0 {
      CountIsPositions(t, id, n - 1);
      var small, large := set i | 0 <= i < n - 1 && t[i] == id, set i | 0 <= i < n && t[i] == id;
      assert large == small + if t[n - 1] == id then {n - 1} else {};
    }
  }

  ghost predicate Distinct(filt: seq<int>) {
    forall i, j :: 0 <= i < j < |filt| ==> filt[i] != filt[j]
  }

  lemma {:induction false} LossOfAbsent(t: seq<int>, filt: seq<int>, from: nat, id: int)
    requires from <= |filt| && forall j :: from <= j < |filt| - 1 ==> filt[j] != id
    ensures Loss(t, filt, from, id) == 0
    decreases |filt| - from
  {
    if from + 1 < |filt| { LossOfAbsent(t, filt, from + 1, id); }
  }

  lemma {:induction false} LossOfPresent(t: seq<int>, filt: seq<int>, from: nat, j: nat)
    requires from <= j < |filt| - 1 && Distinct(filt)
    ensures Loss(t, filt, from, filt[j]) == |Runs(t, filt)|
    decreases j - from
  {
    if from == j { LossOfAbsent(t, filt, j + 1, filt[j]); } else { LossOfPresent(t, filt, from + 1, j); }
  }

  /** An id loses as many rows to a filter as its counter loses executions. */
  lemma FoldConserves(t: seq<int>, filt: seq<int>, id: int)
    requires Distinct(filt) && id != GONE
    ensures Count(FoldRuns(t, filt), id, |t|) == Count(t, id, |t|) - Loss(t, filt, 0, id)
  {
    hide Shift, Loss;
    var r := FoldRuns(t, filt);
    CountIsPositions(t, id, |t|);
    CountIsPositions(r, id, |t|);
    if j :| 0 <= j < |filt| - 1 && filt[j] == id {
      LossOfPresent(t, filt, 0, j);
      ShiftSize(Runs(t, filt), j);
      var gone := Shift(Runs(t, filt), j);
      forall i | 0 <= i < |t| ensures i in gone <==> t[i] == id && Folded(t, filt, i) {
        FoldedAt(t, filt, j, i);
      }
      assert gone <= PositionsOf(t, id);
      assert PositionsOf(r, id) == PositionsOf(t, id) - gone;
    } else {
      LossOfAbsent(t, filt, 0, id);
      forall i | 0 <= i < |t| && Folded(t, filt, i) ensures t[i] != id {
        var s :| FoldedBy(t, filt, s, i);
        assert t[s + (i - s)] == filt[i - s];
      }
      assert PositionsOf(r, id) == PositionsOf(t, id);
    }
  }

  lemma FoldedAt(t: seq<int>, filt: seq<int>, j: nat, i: int)
    requires Distinct(filt) && j < |filt| - 1 && 0 <= i < |t|
    ensures i in Shift(Runs(t, filt), j) <==> t[i] == filt[j] && Folded(t, filt, i)
  {
    if i in Shift(Runs(t, filt), j) {
      assert t[(i - j) + j] == filt[j];
      assert FoldedBy(t, filt, i - j, i);
    }
    if t[i] == filt[j] && Folded(t, filt, i) {
      var s :| FoldedBy(t, filt, s, i);
      assert t[s + (i - s)] == filt[i - s];
      assert i - s == j;
      assert s in Runs(t, filt);
    }
  }

  // ---- filter_tb ----

  ghost function FoldAll(t: seq<int>, filters: seq<seq<int>>, n: nat): (r: seq<int>)
    requires n <= |filters|
    ensures |r| == |t|
  {
    if n == 0 then t else FoldRuns(FoldAll(t, filters, n - 1), filters[n - 1])
  }

  ghost function TotalLoss(t: seq<int>, filters: seq<seq<int>>, n: nat, id: int): nat
    requires n <= |filters|
  {
    if n == 0 then 0
    else TotalLoss(t, filters, n - 1, id) + Loss(FoldAll(t, filters, n - 1), filters[n - 1], 0, id)
  }

  /** The rows among the first n that were not folded away, in order. */
  ghost function Survivors(t: seq<int>, n: nat): seq<int>
    requires n <= |t|
  {
    if n == 0 then [] else Survivors(t, n - 1) + if t[n - 1] != GONE then [t[n - 1]] else []
  }

  lemma {:induction false} FoldAllConserves(t: seq<int>, filters: seq<seq<int>>, n: nat, id: int)
    requires n <= |filters| && id != GONE && forall f :: f in filters ==> Distinct(f)
    ensures Count(FoldAll(t, filters, n), id, |t|) == Count(t, id, |t|) - TotalLoss(t, filters, n, id)
  {
    if n > 0 {
      FoldAllConserves(t, filters, n - 1, id);
      FoldConserves(FoldAll(t, filters, n - 1), filters[n - 1], id);
    }
  }

  lemma {:induction false} SurvivorsKeepCount(t: seq<int>, n: nat, id: int)
    requires n <= |t| && id != GONE
    ensures Count(Survivors(t, n), id, |Survivors(t, n)|) == Count(t, id, n)
  {
    if n > 0 {
      SurvivorsKeepCount(t, n - 1, id);
      if t[n - 1] != GONE {
        var k := Survivors(t, n - 1);
        CountOfPrefix(k, k + [t[n - 1]], id, |k|);
      } else {
        assert Survivors(t, n) == Survivors(t, n - 1);
      }
    }
  }

  /** Across all filters num_exec(id) - occurrences(id) stays what it was, for every row. */
  lemma CountersStayInStep(trace: seq<int>, filters: seq<seq<int>>, id: int)
    requires id != GONE && forall f :: f in filters ==> Distinct(f)
    ensures var kept := Survivors(FoldAll(trace, filters, |filters|), |trace|);
            Count(kept, id, |kept|) == Count(trace, id, |trace|) - TotalLoss(trace, filters, |filters|, id)
  {
    FoldAllConserves(trace, filters, |filters|, id);
    SurvivorsKeepCount(FoldAll(trace, filters, |filters|), |trace|, id);
  }

  datatype ExecRow = ExecRow(tb: int, pos: int)
  datatype InfoRow = InfoRow(id: int, numExec: int)

  /** The TB table after filtering: counters reduced, rows at 0 or below dropped. */
  ghost function KeptInfo(info: seq<InfoRow>, trace: seq<int>, filters: seq<seq<int>>): seq<InfoRow> {
    if info == [] then []
    else
      var last := info[|info| - 1];
      var row := InfoRow(last.id, last.numExec - TotalLoss(trace, filters, |filters|, last.id));
      KeptInfo(info[..|info| - 1], trace, filters) + if row.numExec <= 0 then [] else [row]
  }

  ghost predicate HasRow(info: seq<InfoRow>, id: int, numExec: int) {
    InfoRow(id, numExec) in info
  }

  lemma CountedMeansPresent(s: seq<int>, id: int, n: nat)
    requires n <= |s|
    ensures Count(s, id, n) > 0 <==> id in s[..n]
  {
    if n > 0 {
      CountedMeansPresent(s, id, n - 1);
      assert s[..n] == s[..n - 1] + [s[n - 1]];
    }
  }

  /** For counters that count the trace, a row is dropped exactly if its TB does not occur any
      more, and a row that stays counts the occurrences that are left. */
  lemma {:induction false} RowsThatStay(info: seq<InfoRow>, trace: seq<int>, filters: seq<seq<int>>, kept: seq<int>, id: int, x: int)
    requires forall f :: f in filters ==> Distinct(f)
    requires forall r :: r in info ==> r.id != GONE && r.numExec == Count(trace, r.id, |trace|)
    requires kept == Survivors(FoldAll(trace, filters, |filters|), |trace|)
    ensures HasRow(KeptInfo(info, trace, filters), id, x)
            <==> HasRow(info, id, Count(trace, id, |trace|)) && id in kept && x == Count(kept, id, |kept|)
  {
    if info != [] {
      var n := |info| - 1;
      var last := info[n];
      assert info == info[..n] + [last];
      RowsThatStay(info[..n], trace, filters, kept, id, x);
      assert last in info;
      CountersStayInStep(trace, filters, last.id);
      CountedMeansPresent(kept, last.id, |kept|);
      assert kept[..|kept|] == kept;
    }
  }

  /** In a well-formed golden table no TB repeats an instruction, so no filter repeats an address. */
  lemma GoldenFiltersAreDistinct(golden: seq<Tb>)
    requires WellFormedInfo(golden)
    ensures forall f :: f in GoldenFilters(golden) ==> Distinct(f)
  {
    hide GoldenFilters, Reversed;
    var filters := GoldenFilters(golden);
    FiltersAreTbs(golden, filters);
    forall f | f in filters ensures Distinct(f) {
      var k :| 0 <= k < |golden| && f == Reversed(golden[k].insns);
      var tb := golden[k];
      assert tb in golden && WellFormedTb(tb);
      forall i, j | 0 <= i < j < |f| ensures f[i] != f[j] {
        InsnsAscend(tb, |f| - 1 - j, |f| - 1 - i);
      }
    }
  }

  /** The new table has the rows at the given positions, in order, with their new counters; they are
      all rows whose id still occurs. */
  ghost predicate Selected(info: seq<InfoRow>, kept: seq<int>, info': seq<InfoRow>, ps: seq<nat>) {
    && |ps| == |info'| && (forall j, k :: 0 <= j < k < |ps| ==> ps[j] < ps[k])
    && (forall j {:trigger ps[j]} :: 0 <= j < |ps| ==>
          ps[j] < |info| && info'[j] == InfoRow(info[ps[j]].id, Count(kept, info[ps[j]].id, |kept|)))
    && (forall i: nat :: i in ps <==> i < |info| && info[i].id in kept)
  }

  /** The positions, among the first n, of the rows whose id still occurs. */
  ghost function StillThere(info: seq<InfoRow>, kept: seq<int>, n: nat): seq<nat>
    requires n <= |info|
  {
    if n == 0 then [] else StillThere(info, kept, n - 1) + if info[n - 1].id in kept then [n - 1] else []
  }

  lemma {:induction false} PositionsAscend(info: seq<InfoRow>, kept: seq<int>, n: nat)
    requires n <= |info|
    ensures var ps := StillThere(info, kept, n);
            && (forall j, k :: 0 <= j < k < |ps| ==> ps[j] < ps[k]) && (forall j :: 0 <= j < |ps| ==> ps[j] < n)
            && forall i: nat :: i in ps <==> i < n && info[i].id in kept
  {
    if n > 0 { PositionsAscend(info, kept, n - 1); }
  }

  lemma {:induction false} RowsInOrder(info: seq<InfoRow>, trace: seq<int>, filters: seq<seq<int>>, kept: seq<int>, n: nat)
    requires forall f :: f in filters ==> Distinct(f)
    requires forall r :: r in info ==> r.id != GONE && r.numExec == Count(trace, r.id, |trace|)
    requires kept == Survivors(FoldAll(trace, filters, |filters|), |trace|) && n <= |info|
    ensures var ps, rows := StillThere(info, kept, n), KeptInfo(info[..n], trace, filters);
            |ps| == |rows| && forall j :: 0 <= j < |ps| ==> ps[j] < |info| && rows[j] == InfoRow(info[ps[j]].id, Count(kept, info[ps[j]].id, |kept|))
  {
    hide Survivors, FoldAll, TotalLoss, Count;
    if n > 0 {
      var last := info[n - 1];
      RowsInOrder(info, trace, filters, kept, n - 1);
      assert info[..n][..n - 1] == info[..n - 1] && last in info;
      CountersStayInStep(trace, filters, last.id);
      CountedMeansPresent(kept, last.id, |kept|);
      assert kept[..|kept|] == kept;
    }
  }

  /** What the counters of the TB table come to when a well-formed golden table makes the filters. */
  ghost predicate CountsWhatIsLeft(info: seq<InfoRow>, trace: seq<int>, kept: seq<int>, info': seq<InfoRow>) {
    && (exists ps :: Selected(info, kept, info', ps))
    && forall id, x :: HasRow(info', id, x)
                       <==> HasRow(info, id, Count(trace, id, |trace|)) && id in kept && x == Count(kept, id, |kept|)
  }

  lemma FilteredCounters(trace: seq<int>, info: seq<InfoRow>, golden: seq<Tb>, kept: seq<int>)
    requires WellFormedInfo(golden) && kept == Survivors(FoldAll(trace, GoldenFilters(golden), |GoldenFilters(golden)|), |trace|)
    requires forall r :: r in info ==> r.id != GONE && r.numExec == Count(trace, r.id, |trace|)
    ensures CountsWhatIsLeft(info, trace, kept, KeptInfo(info, trace, GoldenFilters(golden)))
  {
    hide GoldenFilters, KeptInfo, HasRow, StillThere;
    GoldenFiltersAreDistinct(golden);
    var ps := StillThere(info, kept, |info|);
    RowsInOrder(info, trace, GoldenFilters(golden), kept, |info|);
    PositionsAscend(info, kept, |info|);
    assert info[..|info|] == info;
    assert Selected(info, kept, KeptInfo(info, trace, GoldenFilters(golden)), ps);
    forall id, x
      ensures HasRow(KeptInfo(info, trace, GoldenFilters(golden)), id, x)
              <==> HasRow(info, id, Count(trace, id, |trace|)) && id in kept && x == Count(kept, id, |kept|)
    {
      RowsThatStay(info, trace, GoldenFilters(golden), kept, id, x);
    }
  }

  /** Filters a trace given newest first; `golden` is the golden run's TB table. */
  method FilterTb(trace: seq<int>, info: seq<InfoRow>, golden: seq<Tb>) returns (rows: seq<ExecRow>, info': seq<InfoRow>)
    requires GONE !in trace && forall tb :: tb in golden ==> tb.insns != []
    ensures var filters := GoldenFilters(golden);
            var kept := Survivors(FoldAll(trace, filters, |filters|), |trace|);
            && |rows| == |kept| && (forall i :: 0 <= i < |rows| ==> rows[i] == ExecRow(kept[i], |rows| - 1 - i))
            && info' == KeptInfo(info, trace, filters)
            && (WellFormedInfo(golden) && (forall r :: r in info ==> r.id != GONE && r.numExec == Count(trace, r.id, |trace|))
                ==> CountsWhatIsLeft(info, trace, kept, info'))
  {
    hide WellFormedInfo, CountsWhatIsLeft, GoldenFilters, FoldRuns, Loss;
    var filters := BuildFilters(golden);
    FiltersAreTbs(golden, filters);
    var n := |trace|;
    var ids := seq(|info|, i requires 0 <= i < |info| => info[i].id);
    var tb := new int[n](i requires 0 <= i < n => trace[i]);
    var tb1 := new int[n](i requires 0 <= i < n => if i + 1 < n then trace[i + 1] else 0);
    var numExec := new int[|info|](i requires 0 <= i < |info| => info[i].numExec);
    assert tb[..] == trace;
    ApplyFilters(tb, tb1, filters, ids, numExec);
    var kept := DropRows(tb, tb1);
    rows := seq(|kept|, i requires 0 <= i < |kept| => ExecRow(kept[i], |kept| - 1 - i));
    info' := DropInfo(info, numExec, trace, filters);
    if WellFormedInfo(golden) && forall r :: r in info ==> r.id != GONE && r.numExec == Count(trace, r.id, |trace|) {
      FilteredCounters(trace, info, golden, kept);
    }
  }

  method ApplyFilters(tb: array<int>, tb1: array<int>, filters: seq<seq<int>>, ids: seq<int>, numExec: array<int>)
    requires tb.Length == tb1.Length && numExec.Length == |ids| && tb != tb1 && tb != numExec && tb1 != numExec
    requires forall f :: f in filters ==> f != []
    requires forall i :: 0 <= i < tb.Length ==> (tb1[i] == GONE <==> tb[i] == GONE)
    modifies tb, tb1, numExec
    ensures tb[..] == FoldAll(old(tb[..]), filters, |filters|)
    ensures forall i :: 0 <= i < tb.Length ==> (tb1[i] == GONE <==> tb[i] == GONE)
    ensures forall r :: 0 <= r < |ids| ==> numExec[r] == old(numExec[r]) - TotalLoss(old(tb[..]), filters, |filters|, ids[r])
  {
    ghost var t := tb[..];
    for k := 0 to |filters|
      invariant tb[..] == FoldAll(t, filters, k)
      invariant forall i :: 0 <= i < tb.Length ==> (tb1[i] == GONE <==> tb[i] == GONE)
      invariant forall r :: 0 <= r < |ids| ==> numExec[r] == old(numExec[r]) - TotalLoss(t, filters, k, ids[r])
    {
      assert filters[k] in filters;
      if |filters[k]| > 1 {
        FilterFunction(tb, tb1, filters[k], ids, numExec);
      } else {
        ShortFilter(tb[..], filters[k]);
      }
    }
  }

  method DropInfo(info: seq<InfoRow>, numExec: array<int>, ghost trace: seq<int>, ghost filters: seq<seq<int>>)
      returns (info': seq<InfoRow>)
    requires numExec.Length == |info|
    requires forall r :: 0 <= r < |info| ==> numExec[r] == info[r].numExec - TotalLoss(trace, filters, |filters|, info[r].id)
    ensures info' == KeptInfo(info, trace, filters)
  {
    info' := [];
    for r := 0 to |info|
      invariant info' == KeptInfo(info[..r], trace, filters)
    {
      assert info[..r + 1][..r] == info[..r];
      if numExec[r] > 0 {
        info' := info' + [InfoRow(info[r].id, numExec[r])];
      }
    }
    assert info[..|info|] == info;
  }

  /** A filter of one instruction has no run to fold and is skipped. */
  lemma ShortFilter(t: seq<int>, filt: seq<int>)
    requires |filt| == 1
    ensures FoldRuns(t, filt) == t && forall id :: Loss(t, filt, 0, id) == 0
  {
  }

  method DropRows(tb: array<int>, tb1: array<int>) returns (kept: seq<int>)
    requires tb.Length == tb1.Length && forall i :: 0 <= i < tb.Length ==> (tb1[i] == GONE <==> tb[i] == GONE)
    ensures kept == Survivors(tb[..], tb.Length)
  {
    kept := [];
    for i := 0 to tb.Length
      invariant kept == Survivors(tb[..], i)
    {
      if tb1[i] != GONE {
        kept := kept + [tb[i]];
      }
    }
  }
}
