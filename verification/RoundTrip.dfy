/** Single stepping and filtering are inverse to each other. A trace is a list of executed
    TBs, newest first, each logged as one row (block mode) or as one row per instruction
    (stepped). Filtering gives back one row per TB, except where a block-mode row happens
    to complete a stepped TB to a run of the block's own TB. */
module RoundTrip {
  import opened Trace
  import opened Filters
  import opened TraceFilter

  datatype Seg = Seg(tb: Tb, stepped: bool)

  /** Logged instruction by instruction; a TB of one instruction always is. */
  predicate Stepped(g: Seg) {
    g.stepped || |g.tb.insns| == 1
  }

  function Len(g: Seg): nat {
    if Stepped(g) then |g.tb.insns| else 1
  }

  /** The j-th instruction of a TB counted from its end. */
  function Desc(tb: Tb, j: nat): int
    requires j < |tb.insns|
  {
    tb.insns[|tb.insns| - 1 - j]
  }

  /** How far from the end of its TB the instruction logged in row o is. */
  function Depth(g: Seg, o: nat): int {
    if Stepped(g) then o else |g.tb.insns| - 1
  }

  function Off(segs: seq<Seg>, k: nat): nat
    requires k <= |segs|
  {
    if k == 0 then 0 else Off(segs, k - 1) + Len(segs[k - 1])
  }

  /** Row i of the log is row o of segment k. */
  ghost predicate At(segs: seq<Seg>, i: int, k: int, o: int) {
    0 <= k < |segs| && 0 <= o < Len(segs[k]) && i == Off(segs, k) + o
  }

  ghost predicate WellFormedSegs(info: seq<Tb>, segs: seq<Seg>) {
    && WellFormedInfo(info)
    && (forall tb :: tb in info ==> tb.id >= 0)
    && (forall k {:trigger Len(segs[k])} :: 0 <= k < |segs| ==> segs[k].tb in info)
  }

  /** The log of a list of segments. */
  ghost predicate Logs(t: seq<int>, segs: seq<Seg>) {
    && |t| == Off(segs, |segs|)
    && forall i, k, o {:trigger At(segs, i, k, o)} ::
         At(segs, i, k, o) && 0 <= Depth(segs[k], o) < |segs[k].tb.insns| && 0 <= i < |t|
         ==> t[i] == Desc(segs[k].tb, Depth(segs[k], o))
  }

  function Log(segs: seq<Seg>): seq<int> {
    if segs == [] then []
    else
      var g := segs[|segs| - 1];
      Log(segs[..|segs| - 1]) + if Stepped(g) then Reversed(g.tb.insns) else [g.tb.id]
  }

  /** The block-mode row of segment k + 1 extends the stepped segment k to a run of its own TB. */
  ghost predicate Extends(segs: seq<Seg>, k: int) {
    && 0 <= k < |segs| - 1
    && Stepped(segs[k]) && !Stepped(segs[k + 1])
    && segs[k + 1].tb.insns != [] && segs[k].tb.insns == segs[k + 1].tb.insns[1..]
  }

  // ---- Segments and rows ----

  lemma {:induction false} OffMonotone(segs: seq<Seg>, k: nat, k': nat)
    requires k < k' <= |segs|
    ensures Off(segs, k) + Len(segs[k]) <= Off(segs, k')
  {
    if k + 1 < k' { OffMonotone(segs, k, k' - 1); }
  }

  lemma SegFacts(info: seq<Tb>, segs: seq<Seg>, k: nat)
    requires WellFormedSegs(info, segs) && k < |segs|
    ensures segs[k].tb in info && WellFormedTb(segs[k].tb) && Len(segs[k]) > 0
  {
    assert Len(segs[k]) >= 0;
    assert WellFormedTb(segs[k].tb);
  }

  lemma {:induction false} Locate(info: seq<Tb>, segs: seq<Seg>, i: nat, n: nat) returns (k: nat, o: nat)
    requires WellFormedSegs(info, segs) && n <= |segs| && i < Off(segs, n)
    ensures k < n && At(segs, i, k, o)
  {
    SegFacts(info, segs, n - 1);
    if i >= Off(segs, n - 1) {
      k, o := n - 1, i - Off(segs, n - 1);
    } else {
      k, o := Locate(info, segs, i, n - 1);
    }
  }

  lemma AtIsUnique(segs: seq<Seg>, i: int, k: int, o: int, k': int, o': int)
    requires At(segs, i, k, o) && At(segs, i, k', o')
    ensures k == k' && o == o'
  {
    if k < k' { OffMonotone(segs, k, k'); } else if k' < k { OffMonotone(segs, k', k); }
  }

  lemma {:induction false} OffPrefix(segs: seq<Seg>, n: nat, k: nat)
    requires k <= n <= |segs|
    ensures Off(segs[..n], k) == Off(segs, k)
  {
    if k > 0 { OffPrefix(segs, n, k - 1); }
  }

  lemma {:induction false} LogLogs(info: seq<Tb>, segs: seq<Seg>)
    requires WellFormedSegs(info, segs)
    ensures Logs(Log(segs), segs)
  {
    hide Ascending, Nested, UniqueIds;
    if segs != [] {
      var n := |segs| - 1;
      var rest, t := segs[..n], Log(segs);
      assert forall k :: 0 <= k < n ==> Len(rest[k]) == Len(segs[k]);
      LogLogs(info, rest);
      OffPrefix(segs, n, n);
      SegFacts(info, segs, n);
      forall i, k, o | At(segs, i, k, o) && 0 <= Depth(segs[k], o) < |segs[k].tb.insns| && 0 <= i < |t|
        ensures t[i] == Desc(segs[k].tb, Depth(segs[k], o))
      {
        LoggedRow(segs, i, k, o);
      }
    }
  }

  /** A row of the log is one of the last segment, or it was logged before. */
  lemma LoggedRow(segs: seq<Seg>, i: int, k: int, o: int)
    requires segs != [] && Logs(Log(segs[..|segs| - 1]), segs[..|segs| - 1]) && At(segs, i, k, o)
    requires 0 <= Depth(segs[k], o) < |segs[k].tb.insns| && 0 <= i < |Log(segs)|
    requires Stepped(segs[|segs| - 1]) || FirstIsId(segs[|segs| - 1].tb)
    ensures Log(segs)[i] == Desc(segs[k].tb, Depth(segs[k], o))
  {
    hide Log, Logs, Depth, Desc, Stepped, LastRows, Len;
    var n := |segs| - 1;
    var rest := segs[..n];
    LogParts(segs);
    LogsLength(rest, Log(rest));
    OffPrefix(segs, n, n);
    if k < n {
      OffPrefix(segs, n, k);
      OffMonotone(segs, k, n);
      EarlierRow(rest, Log(rest), i, k, o);
    } else {
      LastRow(segs[n], o);
    }
  }

  ghost predicate FirstIsId(tb: Tb) {
    tb.insns != [] && tb.insns[0] == tb.id
  }

  function LastRows(g: Seg): seq<int> {
    if Stepped(g) then Reversed(g.tb.insns) else [g.tb.id]
  }

  lemma LogParts(segs: seq<Seg>)
    requires segs != []
    ensures Log(segs) == Log(segs[..|segs| - 1]) + LastRows(segs[|segs| - 1])
  {
  }

  lemma LogsLength(segs: seq<Seg>, t: seq<int>)
    requires Logs(t, segs)
    ensures |t| == Off(segs, |segs|)
  {
  }

  lemma LastRow(g: Seg, o: nat)
    requires o < Len(g) && 0 <= Depth(g, o) < |g.tb.insns| && (Stepped(g) || FirstIsId(g.tb))
    ensures o < |LastRows(g)| && LastRows(g)[o] == Desc(g.tb, Depth(g, o))
  {
  }

  lemma EarlierRow(segs: seq<Seg>, t: seq<int>, i: int, k: int, o: int)
    requires Logs(t, segs) && At(segs, i, k, o) && 0 <= Depth(segs[k], o) < |segs[k].tb.insns| && 0 <= i < |t|
    ensures t[i] == Desc(segs[k].tb, Depth(segs[k], o))
  {
  }

  /** TBs that share an instruction share everything from it to their ends. */
  lemma SameDepth(info: seq<Tb>, t: Tb, b: Tb, j: nat, o: nat)
    requires WellFormedInfo(info) && t in info && b in info && j < |t.insns| && o < |b.insns|
    requires Desc(t, j) == Desc(b, o)
    ensures j == o
    ensures forall i :: 0 <= i < |t.insns| && i < |b.insns| ==> Desc(t, i) == Desc(b, i)
  {
    assert WellFormedTb(t) && WellFormedTb(b);
    if t.id <= b.id { SameDepthNested(info, t, b, j, o); } else { SameDepthNested(info, b, t, o, j); }
  }

  lemma SameTail(t: Tb, b: Tb)
    requires Nested(t, b) && Covers(t, b.id)
    ensures |b.insns| <= |t.insns| && forall i :: 0 <= i < |b.insns| ==> Desc(t, i) == Desc(b, i)
  {
    var d := |t.insns| - |b.insns|;
    forall i: nat | i < |b.insns| ensures Desc(t, i) == Desc(b, i) {
      assert t.insns[d..][|b.insns| - 1 - i] == t.insns[|t.insns| - 1 - i];
    }
  }

  lemma SameDepthNested(info: seq<Tb>, t: Tb, b: Tb, j: nat, o: nat)
    requires WellFormedInfo(info) && t in info && b in info && j < |t.insns| && o < |b.insns|
    requires WellFormedTb(t) && WellFormedTb(b) && t.id <= b.id && Desc(t, j) == Desc(b, o)
    ensures j == o
    ensures forall i :: 0 <= i < |t.insns| && i < |b.insns| ==> Desc(t, i) == Desc(b, i)
  {
    hide Ascending, Nested, IsSuffix, UniqueIds;
    InsnHoldsItself(t, |t.insns| - 1 - j);
    InsnHoldsItself(b, |b.insns| - 1 - o);
    assert Nested(t, b);
    SameTail(t, b);
    assert Desc(t, o) == Desc(b, o);
    var x, y := |t.insns| - 1 - j, |t.insns| - 1 - o;
    InsnsAscend(t, if x < y then x else y, if x < y then y else x);
  }

  // ---- Runs in a partly folded log ----

  /** T is the log t with some rows folded away. */
  ghost predicate PartOf(T: seq<int>, t: seq<int>) {
    |T| == |t| && forall i :: 0 <= i < |t| ==> T[i] == t[i] || T[i] == GONE
  }

  /** A log, a golden TB and a run of its filter that starts at row s. */
  ghost predicate RunIn(info: seq<Tb>, segs: seq<Seg>, t: seq<int>, T: seq<int>, tb: Tb, s: int) {
    && WellFormedSegs(info, segs) && Logs(t, segs) && PartOf(T, t)
    && tb in info && WellFormedTb(tb) && RunAt(T, Reversed(tb.insns), s)
  }

  /** Inside a run, each row lies as deep in its own TB as in the run's. */
  lemma RunDepth(info: seq<Tb>, segs: seq<Seg>, t: seq<int>, T: seq<int>, tb: Tb, s: int, j: nat, k: nat, o: nat)
    requires RunIn(info, segs, t, T, tb, s) && j < |tb.insns| && At(segs, s + j, k, o)
    ensures Depth(segs[k], o) == j
    ensures forall i :: 0 <= i < |tb.insns| && i < |segs[k].tb.insns| ==> Desc(tb, i) == Desc(segs[k].tb, i)
  {
    SegFacts(info, segs, k);
    OffMonotone(segs, k, |segs|);
    assert Reversed(tb.insns)[j] == Desc(tb, j);
    assert T[s + j] == Desc(tb, j);
    InsnsAscend(tb, |tb.insns| - 1 - j, |tb.insns| - 1 - j);
    assert t[s + j] == Desc(segs[k].tb, Depth(segs[k], o));
    SameDepth(info, tb, segs[k].tb, j, Depth(segs[k], o));
  }

  /** A run starts with the last instruction of a stepped segment. */
  lemma RunStart(info: seq<Tb>, segs: seq<Seg>, t: seq<int>, T: seq<int>, tb: Tb, s: int) returns (k: nat)
    requires RunIn(info, segs, t, T, tb, s)
    ensures k < |segs| && At(segs, s, k, 0) && Stepped(segs[k])
  {
    var o;
    k, o := Locate(info, segs, s, |segs|);
    RunDepth(info, segs, t, T, tb, s, 0, k, o);
    SegFacts(info, segs, k);
  }

  /** A run that reaches into a stepped segment starts there. */
  lemma RunReachesSegment(info: seq<Tb>, segs: seq<Seg>, t: seq<int>, T: seq<int>, tb: Tb, s: int, k: nat, i: int)
    requires RunIn(info, segs, t, T, tb, s) && k < |segs| && Stepped(segs[k])
    requires s <= i < s + |tb.insns| && Off(segs, k) <= i < Off(segs, k) + Len(segs[k])
    ensures s == Off(segs, k)
  {
    SegFacts(info, segs, k);
    var k0 := RunStart(info, segs, t, T, tb, s);
    if s < Off(segs, k) {
      RunDepth(info, segs, t, T, tb, s, Off(segs, k) - s, k, 0);
    } else {
      AtIsUnique(segs, s, k0, 0, k, s - Off(segs, k));
    }
  }

  /** A run that folds the oldest row of a segment has run over a block-mode row. */
  lemma FoldedLastRow(info: seq<Tb>, segs: seq<Seg>, t: seq<int>, T: seq<int>, tb: Tb, s: int, k: nat) returns (k0: nat)
    requires RunIn(info, segs, t, T, tb, s) && k < |segs|
    requires FoldedBy(T, Reversed(tb.insns), s, Off(segs, k) + Len(segs[k]) - 1)
    ensures Extends(segs, k0)
  {
    k0 := RunStart(info, segs, t, T, tb, s);
    SegFacts(info, segs, k);
    SegFacts(info, segs, k0);
    var n := Len(segs[k0]);
    if k < k0 { OffMonotone(segs, k, k0); }
    if k0 < k { OffMonotone(segs, k0, k); }
    assert s + n <= Off(segs, k) + Len(segs[k]);
    OffMonotone(segs, k, |segs|);
    assert k0 + 1 < |segs|;
    SegFacts(info, segs, k0 + 1);
    RunDepth(info, segs, t, T, tb, s, 0, k0, 0);
    RunDepth(info, segs, t, T, tb, s, n, k0 + 1, 0);
    TailOfNext(segs, tb, k0);
  }

  lemma TailOfNext(segs: seq<Seg>, tb: Tb, k: nat)
    requires k + 1 < |segs| && Stepped(segs[k]) && !Stepped(segs[k + 1])
    requires |segs[k + 1].tb.insns| == |segs[k].tb.insns| + 1 <= |tb.insns|
    requires forall i :: 0 <= i < |tb.insns| && i < |segs[k].tb.insns| ==> Desc(tb, i) == Desc(segs[k].tb, i)
    requires forall i :: 0 <= i < |tb.insns| && i < |segs[k + 1].tb.insns| ==> Desc(tb, i) == Desc(segs[k + 1].tb, i)
    ensures Extends(segs, k)
  {
    var a, b := segs[k].tb.insns, segs[k + 1].tb.insns;
    forall i | 0 <= i < |a| ensures a[i] == b[i + 1] {
      assert Desc(segs[k].tb, |a| - 1 - i) == a[i];
      assert Desc(segs[k + 1].tb, |a| - 1 - i) == b[i + 1];
      assert Desc(tb, |a| - 1 - i) == a[i];
    }
    assert a == b[1..];
  }

  // ---- What is folded in the end ----

  /** Row i is folded while filter g is applied, by the run that starts at s. */
  ghost predicate FoldedInPass(t: seq<int>, filters: seq<seq<int>>, g: int, s: int, i: int) {
    0 <= g < |filters| && FoldedBy(FoldAll(t, filters, g), filters[g], s, i)
  }

  lemma {:induction false} FoldAllPart(t: seq<int>, filters: seq<seq<int>>, n: nat)
    requires n <= |filters|
    ensures PartOf(FoldAll(t, filters, n), t)
  {
    if n > 0 { FoldAllPart(t, filters, n - 1); }
  }

  /** A row is gone after n filters exactly when one of them folded it. */
  lemma {:induction false} FoldedSomewhere(t: seq<int>, filters: seq<seq<int>>, n: nat, i: nat)
    requires n <= |filters| && i < |t| && t[i] != GONE
    ensures FoldAll(t, filters, n)[i] == GONE <==> exists g, s :: g < n && FoldedInPass(t, filters, g, s, i)
  {
    if n > 0 {
      FoldedSomewhere(t, filters, n - 1, i);
      var T := FoldAll(t, filters, n - 1);
      if Folded(T, filters[n - 1], i) {
        var s :| FoldedBy(T, filters[n - 1], s, i);
        assert FoldedInPass(t, filters, n - 1, s, i);
      }
      if g, s :| g < n && FoldedInPass(t, filters, g, s, i) {
        assert g == n - 1 ==> Folded(T, filters[n - 1], i);
      }
    }
  }

  /** The golden filters: each one the reversed list of a TB, every TB's list among them. */
  ghost predicate Golden(info: seq<Tb>, filters: seq<seq<int>>) {
    && LongestFirst(filters)
    && (forall g {:trigger filters[g]} :: 0 <= g < |filters| ==> FilterOf(info, filters[g]))
    && (forall tb {:trigger Reversed(tb.insns)} :: tb in info ==> Reversed(tb.insns) in filters)
  }

  ghost predicate FilterOf(info: seq<Tb>, filt: seq<int>) {
    exists tb :: tb in info && filt == Reversed(tb.insns)
  }

  lemma GoldenFiltersAreGolden(info: seq<Tb>)
    ensures Golden(info, GoldenFilters(info))
  {
    var filters := GoldenFilters(info);
    FiltersAreTbs(info, filters);
    forall g | 0 <= g < |filters| ensures FilterOf(info, filters[g]) {
      assert filters[g] in filters;
      var i :| 0 <= i < |info| && filters[g] == Reversed(info[i].insns);
      assert info[i] in info;
    }
  }

  ghost predicate Setting(info: seq<Tb>, segs: seq<Seg>, t: seq<int>, filters: seq<seq<int>>) {
    WellFormedSegs(info, segs) && Logs(t, segs) && Golden(info, filters)
  }

  lemma PassIsRun(info: seq<Tb>, segs: seq<Seg>, t: seq<int>, filters: seq<seq<int>>, g: int, s: int, i: int) returns (tb: Tb)
    requires Setting(info, segs, t, filters) && FoldedInPass(t, filters, g, s, i)
    ensures filters[g] == Reversed(tb.insns) && RunIn(info, segs, t, FoldAll(t, filters, g), tb, s)
  {
    assert FilterOf(info, filters[g]);
    tb :| tb in info && filters[g] == Reversed(tb.insns);
    assert WellFormedTb(tb);
    FoldAllPart(t, filters, g);
  }

  lemma RowIsNotGone(info: seq<Tb>, segs: seq<Seg>, t: seq<int>, i: nat, k: nat, o: nat)
    requires WellFormedSegs(info, segs) && Logs(t, segs) && At(segs, i, k, o)
    ensures i < |t| && 0 <= Depth(segs[k], o) < |segs[k].tb.insns|
    ensures t[i] == Desc(segs[k].tb, Depth(segs[k], o)) >= 0
  {
    SegFacts(info, segs, k);
    OffMonotone(segs, k, |segs|);
    var j := |segs[k].tb.insns| - 1 - Depth(segs[k], o);
    InsnsAscend(segs[k].tb, j, j);
  }

  /** Rows b.. of the log are the instructions of a TB, from its end. */
  ghost predicate Spells(t: seq<int>, b: nat, tb: Tb) {
    b + |tb.insns| <= |t| && forall j {:trigger Desc(tb, j)} :: 0 <= j < |tb.insns| ==> t[b + j] == Desc(tb, j) != GONE
  }

  /** Rows b.. of the log spell out filter g at its turn, unless one of them is gone by then. */
  lemma FirstPassOver(info: seq<Tb>, segs: seq<Seg>, t: seq<int>, filters: seq<seq<int>>, tb: Tb, b: nat)
      returns (g: nat, s: int, i: int)
    requires Setting(info, segs, t, filters) && tb in info && |tb.insns| >= 2
    requires Spells(t, b, tb)
    ensures t[b] != GONE && b <= i < b + |tb.insns| && FoldedInPass(t, filters, g, s, i) && |filters[g]| >= |tb.insns|
  {
    hide Logs, WellFormedSegs, FoldAll, RunAt, Spells, LongestFirst;
    assert Reversed(tb.insns) in filters;
    g :| 0 <= g < |filters| && filters[g] == Reversed(tb.insns);
    var T := FoldAll(t, filters, g);
    FoldAllPart(t, filters, g);
    if !RunAt(T, filters[g], b) {
      i := BrokenRow(t, T, b, tb);
      FoldedSomewhere(t, filters, g, i);
      var g', s' :| g' < g && FoldedInPass(t, filters, g', s', i);
      LongerFirst(filters, g', g);
      g, s := g', s';
    } else {
      s, i := b, b;
      assert FoldedBy(T, filters[g], b, b);
    }
    SpellsFirst(t, b, tb);
  }

  lemma SpellsFirst(t: seq<int>, b: nat, tb: Tb)
    requires Spells(t, b, tb) && tb.insns != []
    ensures b < |t| && t[b] != GONE
  {
    assert Desc(tb, 0) != GONE;
  }

  lemma LongerFirst(filters: seq<seq<int>>, g: int, h: int)
    requires LongestFirst(filters) && 0 <= g < h < |filters|
    ensures |filters[g]| >= |filters[h]|
  {
  }

  /** Rows that spelled a TB and no longer do: one of them is gone. */
  lemma BrokenRow(t: seq<int>, T: seq<int>, b: nat, tb: Tb) returns (i: int)
    requires Spells(t, b, tb) && PartOf(T, t) && !RunAt(T, Reversed(tb.insns), b)
    ensures b <= i < b + |tb.insns| <= |t| && t[i] != GONE && T[i] == GONE
  {
    var f := Reversed(tb.insns);
    var j: nat :| j < |f| && T[b + j] != f[j];
    i := b + j;
    assert t[i] == Desc(tb, j) == f[j];
  }

  /** Every row of a stepped segment but the oldest is folded away. */
  lemma SteppedRowsFold(info: seq<Tb>, segs: seq<Seg>, t: seq<int>, filters: seq<seq<int>>, k: nat, o: nat)
    requires Setting(info, segs, t, filters) && k < |segs| && Stepped(segs[k]) && o < Len(segs[k]) - 1
    ensures Off(segs, k) + o < |t| && FoldAll(t, filters, |filters|)[Off(segs, k) + o] == GONE
  {
    var b, tb := Off(segs, k), segs[k].tb;
    SegFacts(info, segs, k);
    OffMonotone(segs, k, |segs|);
    forall j {:trigger Desc(tb, j)} | 0 <= j < |tb.insns| ensures t[b + j] == Desc(tb, j) != GONE {
      RowIsNotGone(info, segs, t, b + j, k, j);
    }
    var g, s, i := FirstPassOver(info, segs, t, filters, tb, b);
    var run := PassIsRun(info, segs, t, filters, g, s, i);
    RunReachesSegment(info, segs, t, FoldAll(t, filters, g), run, s, k, i);
    assert FoldedInPass(t, filters, g, s, b + o) && Desc(tb, o) != GONE;
    FoldedSomewhere(t, filters, |filters|, b + o);
  }

  lemma ExtendedSpells(info: seq<Tb>, segs: seq<Seg>, t: seq<int>, k: nat)
    requires WellFormedSegs(info, segs) && Logs(t, segs) && Extends(segs, k)
    ensures Spells(t, Off(segs, k), segs[k + 1].tb)
  {
    var b, n, tb := Off(segs, k), Len(segs[k]), segs[k + 1].tb;
    SegFacts(info, segs, k);
    OffMonotone(segs, k + 1, |segs|);
    forall j {:trigger Desc(tb, j)} | 0 <= j < |tb.insns| ensures t[b + j] == Desc(tb, j) != GONE {
      if j < n {
        RowIsNotGone(info, segs, t, b + j, k, j);
        assert segs[k].tb.insns[n - 1 - j] == tb.insns[n - j];
      } else {
        RowIsNotGone(info, segs, t, b + j, k + 1, 0);
      }
    }
  }

  /** Where a block-mode row extends a stepped segment, that segment is lost altogether. */
  lemma ExtendedSegmentFolds(info: seq<Tb>, segs: seq<Seg>, t: seq<int>, filters: seq<seq<int>>, k: nat)
    requires Setting(info, segs, t, filters) && Extends(segs, k)
    ensures var i := Off(segs, k) + Len(segs[k]) - 1; 0 <= i < |t| && FoldAll(t, filters, |filters|)[i] == GONE
  {
    hide FoldAll, RunIn;
    var b, n, tb := Off(segs, k), Len(segs[k]), segs[k + 1].tb;
    SegFacts(info, segs, k);
    SegFacts(info, segs, k + 1);
    ExtendedSpells(info, segs, t, k);
    var g, s, i := FirstPassOver(info, segs, t, filters, tb, b);
    var run := PassIsRun(info, segs, t, filters, g, s, i);
    RunOverExtended(info, segs, t, FoldAll(t, filters, g), run, s, k, i);
    assert FoldedInPass(t, filters, g, s, b + n - 1) && Desc(tb, n - 1) != GONE;
    FoldedSomewhere(t, filters, |filters|, b + n - 1);
  }

  lemma RunOverExtended(info: seq<Tb>, segs: seq<Seg>, t: seq<int>, T: seq<int>, run: Tb, s: int, k: nat, i: int)
    requires RunIn(info, segs, t, T, run, s) && Extends(segs, k)
    requires s <= i < s + |run.insns| && Off(segs, k) <= i <= Off(segs, k) + Len(segs[k])
    ensures s == Off(segs, k)
  {
    hide Logs, PartOf, RunAt, WellFormedInfo, WellFormedTb;
    var b, n := Off(segs, k), Len(segs[k]);
    SegFacts(info, segs, k);
    if i < b + n {
      RunReachesSegment(info, segs, t, T, run, s, k, i);
    } else if s < b {
      RunReachesSegment(info, segs, t, T, run, s, k, b);
    } else {
      var k0 := RunStart(info, segs, t, T, run, s);
      if s >= b + n {
        AtIsUnique(segs, s, k0, 0, k + 1, s - b - n);
      } else {
        AtIsUnique(segs, s, k0, 0, k, s - b);
      }
    }
  }

  /** Without such a row the oldest row of every segment stays. */
  lemma LastRowStays(info: seq<Tb>, segs: seq<Seg>, t: seq<int>, filters: seq<seq<int>>, k: nat)
    requires Setting(info, segs, t, filters) && k < |segs| && forall x :: !Extends(segs, x)
    ensures var i := Off(segs, k) + Len(segs[k]) - 1;
            0 <= i < |t| && FoldAll(t, filters, |filters|)[i] == segs[k].tb.id >= 0
  {
    SegFacts(info, segs, k);
    var i := Off(segs, k) + Len(segs[k]) - 1;
    RowIsNotGone(info, segs, t, i, k, Len(segs[k]) - 1);
    FoldedSomewhere(t, filters, |filters|, i);
    FoldAllPart(t, filters, |filters|);
    if g, s :| g < |filters| && FoldedInPass(t, filters, g, s, i) {
      var run := PassIsRun(info, segs, t, filters, g, s, i);
      var x := FoldedLastRow(info, segs, t, FoldAll(t, filters, g), run, s, k);
    }
  }

  // ---- Survivors, segment by segment ----

  ghost function Ids(segs: seq<Seg>, n: nat): seq<int>
    requires n <= |segs|
  {
    if n == 0 then [] else Ids(segs, n - 1) + [segs[n - 1].tb.id]
  }

  lemma {:induction false} GoneRows(T: seq<int>, lo: nat, hi: nat)
    requires lo <= hi <= |T| && forall i :: lo <= i < hi ==> T[i] == GONE
    ensures Survivors(T, hi) == Survivors(T, lo)
  {
    if lo < hi { GoneRows(T, lo, hi - 1); }
  }

  lemma NoSurvivors(T: seq<int>)
    ensures Survivors(T, 0) == []
  {
  }

  /** Only the oldest row of a segment can survive. */
  lemma SegmentSurvivors(info: seq<Tb>, segs: seq<Seg>, t: seq<int>, filters: seq<seq<int>>, k: nat)
    requires Setting(info, segs, t, filters) && k < |segs|
    ensures var T := FoldAll(t, filters, |filters|); var last := Off(segs, k) + Len(segs[k]) - 1;
            && 0 <= last < Off(segs, k + 1) <= |T|
            && Survivors(T, Off(segs, k + 1)) == Survivors(T, Off(segs, k)) + if T[last] == GONE then [] else [T[last]]
  {
    SegFacts(info, segs, k);
    OffMonotone(segs, k, |segs|);
    var T, b, last := FoldAll(t, filters, |filters|), Off(segs, k), Off(segs, k) + Len(segs[k]) - 1;
    forall i | b <= i < last ensures T[i] == GONE {
      SteppedRowsFold(info, segs, t, filters, k, i - b);
    }
    GoneRows(T, b, last);
  }

  lemma {:induction false} SurvivorsAreIds(info: seq<Tb>, segs: seq<Seg>, t: seq<int>, filters: seq<seq<int>>, n: nat)
    requires Setting(info, segs, t, filters) && n <= |segs| && forall x :: !Extends(segs, x)
    ensures Off(segs, n) <= |t| && Survivors(FoldAll(t, filters, |filters|), Off(segs, n)) == Ids(segs, n)
  {
    hide Setting, FoldAll, Survivors, Extends, Len;
    if n == 0 {
      NoSurvivors(FoldAll(t, filters, |filters|));
    } else {
      SurvivorsAreIds(info, segs, t, filters, n - 1);
      SegmentSurvivors(info, segs, t, filters, n - 1);
      LastRowStays(info, segs, t, filters, n - 1);
    }
  }

  lemma {:induction false} FewerSurvivors(info: seq<Tb>, segs: seq<Seg>, t: seq<int>, filters: seq<seq<int>>, n: nat, x: nat)
    requires Setting(info, segs, t, filters) && n <= |segs| && Extends(segs, x)
    ensures Off(segs, n) <= |t|
    ensures |Survivors(FoldAll(t, filters, |filters|), Off(segs, n))| + (if x < n then 1 else 0) <= n
  {
    hide Setting, FoldAll;
    if n > 0 {
      FewerSurvivors(info, segs, t, filters, n - 1, x);
      SegmentSurvivors(info, segs, t, filters, n - 1);
      if n - 1 == x { ExtendedSegmentFolds(info, segs, t, filters, x); }
    }
  }

  lemma {:induction false} IdsLength(segs: seq<Seg>, n: nat)
    requires n <= |segs|
    ensures |Ids(segs, n)| == n
  {
    if n > 0 { IdsLength(segs, n - 1); }
  }

  /** Filtering undoes single stepping exactly when no block-mode row extends a stepped TB. */
  lemma FilterUndoesStepping(info: seq<Tb>, segs: seq<Seg>)
    requires WellFormedSegs(info, segs)
    ensures var t := Log(segs); var filters := GoldenFilters(info);
            Survivors(FoldAll(t, filters, |filters|), |t|) == Ids(segs, |segs|) <==> forall x :: !Extends(segs, x)
  {
    var t, filters := Log(segs), GoldenFilters(info);
    LogLogs(info, segs);
    GoldenFiltersAreGolden(info);
    if x :| Extends(segs, x) {
      FewerSurvivors(info, segs, t, filters, |segs|, x);
      IdsLength(segs, |segs|);
    } else {
      SurvivorsAreIds(info, segs, t, filters, |segs|);
    }
  }

  /** In particular a run that was stepped throughout folds back to its golden block trace. */
  lemma SteppedRunFoldsBack(info: seq<Tb>, segs: seq<Seg>)
    requires WellFormedSegs(info, segs) && forall k :: 0 <= k < |segs| ==> segs[k].stepped
    ensures var t := Log(segs); var filters := GoldenFilters(info);
            Survivors(FoldAll(t, filters, |filters|), |t|) == Ids(segs, |segs|)
  {
    FilterUndoesStepping(info, segs);
  }
}
