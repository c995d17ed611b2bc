/** The offline answers at work in the plugin: a fault whose trigger was searched for is injected,
    and a transient one reversed, at the positions of the flat trace that the answers stand for. */
module ReplayRuns {
  import opened Wrappers
  import Trace
  import TriggerSearch
  import TriggerTable
  import Replay
  import Wildcard
  import opened PluginState
  import opened PluginRuns
  import opened PluginTriggers

  // ---- A run beside a trace ----

  /** `cut[p]` events of a run have happened when the instruction at position p begins. */
  ghost predicate Cuts(es: seq<Event>, f: seq<int>, cut: seq<nat>) {
    && |cut| == |f| + 1 && (forall p :: 0 <= p <= |f| ==> cut[p] <= |es|)
    && forall p :: 0 <= p < |f| ==> cut[p] <= cut[p + 1]
  }

  /** Each execution of the trigger address is one hit of fault i, and there is no other. */
  ghost predicate HitsFollow(es: seq<Event>, f: seq<int>, cut: seq<nat>, i: nat, trigger: int) {
    && Cuts(es, f, cut) && CountEvents(es, TriggerHit(i), cut[0]) == 0
    && forall p :: 0 <= p < |f| ==>
         CountEvents(es, TriggerHit(i), cut[p + 1]) == CountEvents(es, TriggerHit(i), cut[p]) + if f[p] == trigger then 1 else 0
  }

  /** Fault i, injected by the instruction at `start`, has one live callback for each later
      instruction, as long as it lives. */
  ghost predicate LivesFollow(es: seq<Event>, f: seq<int>, cut: seq<nat>, i: nat, start: int, lifespan: nat) {
    && Cuts(es, f, cut) && CountEvents(es, LiveHit(i), cut[0]) == 0
    && forall p :: 0 <= p < |f| && p <= start + lifespan ==>
         CountEvents(es, LiveHit(i), cut[p + 1]) == CountEvents(es, LiveHit(i), cut[p]) + if p > start then 1 else 0
  }

  /** The instruction at position q injects fault i. */
  ghost predicate InjectedAt(ss: seq<State>, f: seq<int>, cut: seq<nat>, i: nat, q: int) {
    && 0 <= q < |f| && |cut| == |f| + 1 && cut[q] < |ss| && cut[q + 1] < |ss|
    && i < |ss[cut[q]].injections| && i < |ss[cut[q + 1]].injections|
    && ss[cut[q]].injections[i] == 0 && ss[cut[q + 1]].injections[i] == 1
  }

  /** The instruction at position q ends fault i. */
  ghost predicate EndedAt(ss: seq<State>, f: seq<int>, cut: seq<nat>, i: nat, q: int) {
    && 0 <= q < |f| && |cut| == |f| + 1 && cut[q] < |ss| && cut[q + 1] < |ss|
    && i < |ss[cut[q]].reversals| && i < |ss[cut[q + 1]].reversals|
    && ss[cut[q]].reversals[i] == 0 && ss[cut[q + 1]].reversals[i] == 1
  }

  lemma {:induction false} HitsAreExecutions(es: seq<Event>, f: seq<int>, cut: seq<nat>, i: nat, trigger: int, p: nat)
    requires HitsFollow(es, f, cut, i, trigger) && p <= |f|
    ensures CountEvents(es, TriggerHit(i), cut[p]) == Trace.Count(f, trigger, p)
  {
    if p > 0 {
      HitsAreExecutions(es, f, cut, i, trigger, p - 1);
      assert cut[p] == cut[p - 1 + 1];
    }
  }

  lemma {:induction false} EventsGrow(es: seq<Event>, e: Event, lo: nat, hi: nat)
    requires lo <= hi <= |es|
    ensures CountEvents(es, e, lo) <= CountEvents(es, e, hi)
  {
    if lo < hi { EventsGrow(es, e, lo, hi - 1); }
  }

  /** Until it ends the fault has had one live callback for each instruction since its injection; then it has had them all. */
  lemma {:induction false} LivesAreInstructions(es: seq<Event>, f: seq<int>, cut: seq<nat>, i: nat, start: int, lifespan: nat, p: nat)
    requires LivesFollow(es, f, cut, i, start, lifespan) && p <= |f| && start >= -1
    ensures var lives := CountEvents(es, LiveHit(i), cut[p]);
            if p <= start + 1 then lives == 0
            else if p <= start + 1 + lifespan then lives == p - start - 1
            else lives >= lifespan
  {
    if p > 0 {
      LivesAreInstructions(es, f, cut, i, start, lifespan, p - 1);
      assert cut[p] == cut[p - 1 + 1];
      EventsGrow(es, LiveHit(i), cut[p - 1], cut[p]);
    }
  }

  /** The plugin injects a fault where counting its hits down along the trace says, nowhere else. */
  lemma FiresWhereCounted(c: seq<Fault>, es: seq<Event>, ss: seq<State>, f: seq<int>, cut: seq<nat>, i: nat, q: int)
    requires IsRun(c, es, ss) && i < |c| && c[i].hitcounter > 0 && HitsFollow(es, f, cut, i, c[i].triggerAddress)
    ensures InjectedAt(ss, f, cut, i, q) <==> Replay.FiresAt(f, c[i].triggerAddress, c[i].hitcounter, q)
  {
    hide IsRun, CountEvents;
    Replay.FiresAtOccurrence(f, c[i].triggerAddress, c[i].hitcounter, q);
    if 0 <= q < |f| {
      HitsAreExecutions(es, f, cut, i, c[i].triggerAddress, q);
      HitsAreExecutions(es, f, cut, i, c[i].triggerAddress, q + 1);
      InjectedAndReversedOnTime(c, es, ss, cut[q], i);
      InjectedAndReversedOnTime(c, es, ss, cut[q + 1], i);
      RunLength(c, es, ss);
    }
  }

  lemma RunLength(c: seq<Fault>, es: seq<Event>, ss: seq<State>)
    requires IsRun(c, es, ss)
    ensures |ss| == |es| + 1
  {
  }

  /** The plugin reverses a fault where its lifespan along the trace ends, nowhere else. */
  lemma EndsWhereCounted(c: seq<Fault>, es: seq<Event>, ss: seq<State>, f: seq<int>, cut: seq<nat>, i: nat, start: int, q: int)
    requires IsRun(c, es, ss) && i < |c| && c[i].lifetime > 0 && start >= -1 && LivesFollow(es, f, cut, i, start, c[i].lifetime)
    ensures EndedAt(ss, f, cut, i, q) <==> 0 <= q < |f| && Replay.ReversedAt(start, c[i].lifetime, q)
  {
    hide IsRun, CountEvents;
    if 0 <= q < |f| {
      LivesAreInstructions(es, f, cut, i, start, c[i].lifetime, q);
      LivesAreInstructions(es, f, cut, i, start, c[i].lifetime, q + 1);
      Replay.LifetimeIsDifference(start, c[i].lifetime, q);
      Replay.LifetimeIsDifference(start, c[i].lifetime, q - 1);
      InjectedAndReversedOnTime(c, es, ss, cut[q], i);
      InjectedAndReversedOnTime(c, es, ss, cut[q + 1], i);
      RunLength(c, es, ss);
    }
  }

  // ---- From the search to the injection ----

  /** The configuration of fault i carries the answer of the search. */
  ghost predicate Carries(f: Fault, a: TriggerSearch.Answer) {
    f.triggerAddress == a.address && f.hitcounter == a.hitcounter && f.lifetime == a.lifespan
  }

  /** A fault at flat position p, to be triggered n instructions before, is injected by the plugin
      at p - n and, if it is transient, reversed `lifespan` instructions later. */
  lemma SearchedFaultIsInjected(info: seq<Trace.Tb>, exec: seq<int>, fa: int, before: TriggerSearch.Answer, after: TriggerSearch.Answer, p: int,
                                c: seq<Fault>, es: seq<Event>, ss: seq<State>, cut: seq<nat>, i: nat, q: int)
    requires TriggerTable.Searched(info, exec, fa, before, after)
    requires TriggerSearch.IsTarget(info, Trace.Flat(info, exec), fa, before.hitcounter, p)
    requires before.address < 0 && -before.address <= p
    requires IsRun(c, es, ss) && i < |c| && Carries(c[i], after) && HitsFollow(es, Trace.Flat(info, exec), cut, i, after.address)
    ensures InjectedAt(ss, Trace.Flat(info, exec), cut, i, q) <==> q == p + before.address
    ensures before.lifespan > 0 && LivesFollow(es, Trace.Flat(info, exec), cut, i, p + before.address, before.lifespan) ==>
              (EndedAt(ss, Trace.Flat(info, exec), cut, i, q) <==> 0 <= q < |Trace.Flat(info, exec)| && q == p + before.address + before.lifespan)
  {
    hide IsRun, HitsFollow, LivesFollow, InjectedAt, EndedAt, Replay.FiresAt;
    var f := Trace.Flat(info, exec);
    Replay.SearchedTriggerFires(info, exec, fa, before, after, p);
    FiresWhereCounted(c, es, ss, f, cut, i, q);
    if before.lifespan > 0 && LivesFollow(es, f, cut, i, p + before.address, before.lifespan) {
      EndsWhereCounted(c, es, ss, f, cut, i, p + before.address, q);
      Replay.LifetimeIsDifference(p + before.address, before.lifespan, q);
      Replay.LifetimeIsDifference(p + before.address, before.lifespan, q - 1);
    }
  }

  /** The whole chain: every fault of a wildcard range, resolved with offset -n and configured, is
      injected by the plugin n instructions before its own position, and nowhere else. */
  lemma WildcardFaultIsInjected(r: Wildcard.Range, info: seq<Trace.Tb>, exec: seq<int>, n: nat, m: nat, offset: int, lifespan: int,
                                after: TriggerSearch.Answer, c: seq<Fault>, es: seq<Event>, ss: seq<State>, cut: seq<nat>, i: nat, q: int)
    requires Trace.WellFormed(info, exec) && n <= |Trace.Flat(info, exec)| && m < |Wildcard.Faults(r, Trace.Flat(info, exec), n)|
    requires offset > 0
    requires var w := Wildcard.Faults(r, Trace.Flat(info, exec), n)[m];
             TriggerTable.Searched(info, exec, w.address, TriggerSearch.Answer(-offset, w.hitcounter, lifespan), after)
    requires IsRun(c, es, ss) && i < |c| && Carries(c[i], after) && HitsFollow(es, Trace.Flat(info, exec), cut, i, after.address)
    ensures var ps := Replay.FaultPositions(r, Trace.Flat(info, exec), n);
            m < |ps| && (offset <= ps[m] ==> (InjectedAt(ss, Trace.Flat(info, exec), cut, i, q) <==> q == ps[m] - offset))
  {
    hide IsRun, HitsFollow, InjectedAt, Replay.FiresAt, Replay.FaultPositions, Wildcard.Faults;
    var f := Trace.Flat(info, exec);
    Replay.FaultsExact(r, f, n);
    Replay.RankSelectsPosition(info, exec, Replay.FaultPositions(r, f, n)[m]);
    var w, p := Wildcard.Faults(r, f, n)[m], Replay.FaultPositions(r, f, n)[m];
    if offset <= p {
      SearchedFaultIsInjected(info, exec, w.address, TriggerSearch.Answer(-offset, w.hitcounter, lifespan), after, p, c, es, ss, cut, i, q);
    }
  }

  /** A fault with hit counter 0, as the clamped ones have, is injected by the first translation
      if it is an instruction fault; a data or register fault is not injected in any run. */
  lemma ZeroHitsInjection(c: seq<Fault>, es: seq<Event>, ss: seq<State>, k: nat, i: nat)
    requires IsRun(c, es, ss) && k <= |es| && i < |c| && c[i].hitcounter == 0
    ensures Sized(ss[k]) && |ss[k].faults| == |c|
    ensures ss[k].injections[i] == 1 <==> c[i].kind == Instruction && k > 0
    ensures ss[k].injections[i] == 0 <==> c[i].kind != Instruction || k == 0
  {
    InjectedAndReversedOnTime(c, es, ss, k, i);
  }

  /** A clamped instruction fault is in effect when the trace begins, is never injected again, and
      ends where the fault that was asked for would have ended. */
  lemma ClampedFaultEnds(info: seq<Trace.Tb>, exec: seq<int>, fa: int, before: TriggerSearch.Answer, after: TriggerSearch.Answer, p: int,
                         c: seq<Fault>, es: seq<Event>, ss: seq<State>, cut: seq<nat>, i: nat, q: int)
    requires TriggerTable.Answers(info, exec, fa, before, after) && before.hitcounter != 0 && before.lifespan > 0
    requires TriggerSearch.IsTarget(info, Trace.Flat(info, exec), fa, before.hitcounter, p)
    requires p < -before.address <= before.lifespan
    requires IsRun(c, es, ss) && i < |c| && Carries(c[i], after) && c[i].kind == Instruction
    requires after.lifespan >= 0 && LivesFollow(es, Trace.Flat(info, exec), cut, i, -1, after.lifespan) && cut[0] > 0
    ensures Sized(ss[cut[0]]) && i < |ss[cut[0]].injections| && ss[cut[0]].injections[i] == 1
    ensures !InjectedAt(ss, Trace.Flat(info, exec), cut, i, q)
    ensures EndedAt(ss, Trace.Flat(info, exec), cut, i, q) <==>
              0 <= q < |Trace.Flat(info, exec)| && Replay.ReversedAt(p + before.address, before.lifespan, q)
  {
    hide IsRun, CountEvents, EndedAt;
    var f := Trace.Flat(info, exec);
    Replay.ClampKeepsEnd(info, exec, fa, before, after, p);
    EndsWhereCounted(c, es, ss, f, cut, i, -1, q);
    ZeroHitsInjection(c, es, ss, cut[0], i);
    if 0 <= q < |f| {
      CutsGrow(es, f, cut, 0, q);
      ZeroHitsInjection(c, es, ss, cut[q], i);
    }
  }

  // ---- Such runs exist ----

  ghost predicate Alive(s: State, i: nat)
    requires Sized(s) && i < |s.faults|
  {
    s.injections[i] == 1 && s.faults[i].lifetime > 0
  }

  /** The run has started, all that can be armed is, and the faults in effect have their callbacks. */
  ghost predicate Poised(c: seq<Fault>, es: seq<Event>, ss: seq<State>) {
    && IsRun(c, es, ss) && Attentive(c, ss[|es|])
    && forall i :: 0 <= i < |c| && Alive(ss[|es|], i) ==> i in ss[|es|].watched
  }

  ghost predicate Attentive(c: seq<Fault>, s: State) {
    && Sized(s) && |s.faults| == |c| && s.started
    && forall k :: 0 <= k < |c| && MayTrigger(c, k) ==> k in s.armed
  }

  /** One instruction at address a: each fault alive has a live callback, each fault with this trigger a hit. */
  ghost predicate Executes(c: seq<Fault>, s: State, a: int, r: State) {
    && Sized(s) && |s.faults| == |c| && Sized(r) && |r.faults| == |c|
    && (forall i :: 0 <= i < |c| && MayTrigger(c, i) ==> r.hits[i] == s.hits[i] + if c[i].triggerAddress == a then 1 else 0)
    && (forall i :: 0 <= i < |c| ==> r.lives[i] == s.lives[i] + if Alive(s, i) then 1 else 0)
  }

  lemma More(c: seq<Fault>, es: seq<Event>, ss: seq<State>, e: Event) returns (es': seq<Event>, ss': seq<State>)
    requires IsRun(c, es, ss) && Enabled(ss[|es|], e)
    ensures Sized(ss[|es|]) && |ss[|es|].faults| == |c|
    ensures IsRun(c, es', ss') && es' == es + [e] && ss <= ss' && ss'[|es'|] == Step(ss[|es|], e)
  {
    hide Step, Enabled;
    RunExtends(c, es, ss, e);
    es', ss' := es + [e], ss + [Step(ss[|es|], e)];
  }

  /** The live callbacks of the first n faults have come. */
  ghost predicate LivesDone(c: seq<Fault>, s: State, n: nat, r: State) {
    && Sized(s) && |s.faults| == |c| && Sized(r) && |r.faults| == |c|
    && r.hits == s.hits && r.injections == s.injections && r.armed == s.armed && r.watched == s.watched && r.started == s.started
    && (forall i :: 0 <= i < |c| ==> r.lives[i] == s.lives[i] + if i < n && Alive(s, i) then 1 else 0)
    && (forall i :: n <= i < |c| ==> r.faults[i] == s.faults[i])
  }

  lemma OneLife(c: seq<Fault>, s: State, n: nat, r: State, q: State)
    requires LivesDone(c, s, n, r) && n < |c| && Alive(s, n) && Shape(c, r) && q == ExecCallback(r, n)
    ensures LivesDone(c, s, n + 1, q)
  {
    hide FaultOk, LiveOk, InjectedOf, ExecCallback;
    ExecResult(c, r, n);
  }

  lemma {:induction false} Live(c: seq<Fault>, es: seq<Event>, ss: seq<State>, n: nat) returns (es': seq<Event>, ss': seq<State>)
    requires Poised(c, es, ss) && n <= |c|
    ensures IsRun(c, es', ss') && es <= es' && ss <= ss' && LivesDone(c, ss[|es|], n, ss'[|es'|])
  {
    hide ExecCallback, Shape, History, MayTrigger, Registered, IsStep;
    if n == 0 {
      es', ss' := es, ss;
    } else {
      es', ss' := Live(c, es, ss, n - 1);
      var s, r := ss[|es|], ss'[|es'|];
      if Alive(s, n - 1) {
        RunKeeps(c, es', ss', |es'|);
        var es1, ss1 := More(c, es', ss', LiveHit(n - 1));
        OneLife(c, s, n - 1, r, ss1[|es1|]);
        es', ss' := es1, ss1;
      }
    }
  }

  /** The hits of the first n faults have come. */
  ghost predicate HitsDone(c: seq<Fault>, s: State, a: int, n: nat, r: State) {
    && Sized(s) && |s.faults| == |c| && Sized(r) && |r.faults| == |c|
    && r.lives == s.lives && r.armed == s.armed && r.started == s.started
    && (forall i :: 0 <= i < |c| ==> r.hits[i] == s.hits[i] + if i < n && MayTrigger(c, i) && c[i].triggerAddress == a then 1 else 0)
  }

  lemma HitKeepsArms(s: State, i: nat)
    requires Sized(s) && i < |s.faults|
    ensures TriggerCallback(s, i).armed == s.armed && TriggerCallback(s, i).started == s.started
  {
  }

  lemma OneHit(c: seq<Fault>, s: State, a: int, n: nat, r: State, q: State)
    requires HitsDone(c, s, a, n, r) && n < |c| && MayTrigger(c, n) && c[n].triggerAddress == a && q == TriggerCallback(r, n)
    requires Sized(q) && |q.faults| == |c|
    ensures HitsDone(c, s, a, n + 1, q)
  {
    hide TriggerCallback, MayTrigger;
    TriggerCounters(r, n);
    HitKeepsArms(r, n);
  }

  lemma {:induction false} Hit(c: seq<Fault>, es: seq<Event>, ss: seq<State>, a: int, n: nat) returns (es': seq<Event>, ss': seq<State>)
    requires IsRun(c, es, ss) && Attentive(c, ss[|es|]) && n <= |c|
    ensures IsRun(c, es', ss') && es <= es' && ss <= ss' && HitsDone(c, ss[|es|], a, n, ss'[|es'|])
  {
    hide TriggerCallback, Shape, History, MayTrigger, Registered, IsStep;
    if n == 0 {
      es', ss' := es, ss;
    } else {
      es', ss' := Hit(c, es, ss, a, n - 1);
      var r := ss'[|es'|];
      if MayTrigger(c, n - 1) && c[n - 1].triggerAddress == a {
        var es1, ss1 := More(c, es', ss', TriggerHit(n - 1));
        RunSized(c, es1, ss1, |es1|);
        OneHit(c, ss[|es|], a, n - 1, r, ss1[|es1|]);
        es', ss' := es1, ss1;
      }
    }
  }

  /** A translation changes no counter and makes the run poised. */
  lemma Retranslate(c: seq<Fault>, es: seq<Event>, ss: seq<State>) returns (es': seq<Event>, ss': seq<State>)
    requires IsRun(c, es, ss) && Attentive(c, ss[|es|])
    ensures Poised(c, es', ss') && es <= es' && ss <= ss'
    ensures ss'[|es'|].hits == ss[|es|].hits && ss'[|es'|].lives == ss[|es|].lives
  {
    hide Translate, MayTrigger, Registered, IsStep, Numbered, EvaluateSlots, FaultOk, LiveOk, InjectedOf, History;
    var s := ss[|es|];
    var e := TranslateTb(0, 1);
    es', ss' := More(c, es, ss, e);
    assert Reachable(c, s);
    ReachableNumbers(c, s);
    RunningTranslation(c, s, 0, 1);
    SlotArms(s, 0, 1, |c|, 0);
    TranslateCounters(s, 0, 1);
    forall i | 0 <= i < |c| && Alive(ss'[|es'|], i) ensures i in ss'[|es'|].watched {
      TranslationWatches(c, s, e, i);
    }
  }

  /** One instruction of the trace: the live callbacks, the hits, and the translation of what comes next. */
  lemma Execute(c: seq<Fault>, es: seq<Event>, ss: seq<State>, a: int) returns (es': seq<Event>, ss': seq<State>)
    requires Poised(c, es, ss)
    ensures Poised(c, es', ss') && es <= es' && ss <= ss' && Executes(c, ss[|es|], a, ss'[|es'|])
  {
    hide IsRun, MayTrigger, Alive;
    RunLength(c, es, ss);
    var es1, ss1 := Live(c, es, ss, |c|);
    RunLength(c, es1, ss1);
    var es2, ss2 := Hit(c, es1, ss1, a, |c|);
    RunLength(c, es2, ss2);
    es', ss' := Retranslate(c, es2, ss2);
  }

  /** A run beside a trace, instruction by instruction. */
  ghost predicate Followed(c: seq<Fault>, es: seq<Event>, ss: seq<State>, f: seq<int>, cut: seq<nat>) {
    && Poised(c, es, ss) && |ss| == |es| + 1 && Cuts(es, f, cut) && cut[|f|] == |es| && cut[0] > 0
    && (forall i :: 0 <= i < |c| ==> Unhit(ss[cut[0]], i))
    && forall p :: 0 <= p < |f| ==> Executes(c, ss[cut[p]], f[p], ss[cut[p + 1]])
  }

  ghost predicate Unhit(s: State, i: nat) {
    i < |s.hits| && i < |s.lives| && s.hits[i] == 0 && s.lives[i] == 0
  }

  lemma StartOfTrace(c: seq<Fault>) returns (es: seq<Event>, ss: seq<State>, cut: seq<nat>)
    ensures Followed(c, es, ss, [], cut)
  {
    hide MayTrigger, Registered, LowNumbers, IsStep;
    var s := ArmedRun(c, |c|);
    es, ss :| IsRun(c, es, ss) && ss[|es|] == s;
    RunLength(c, es, ss);
    RunStarts(c, es, ss, |es|);
    StartNotStarted(c);
    var n := |es|;
    es, ss := Retranslate(c, es, ss);
    RunLength(c, es, ss);
    cut := [|es|];
  }

  lemma {:induction false} FollowTrace(c: seq<Fault>, f: seq<int>) returns (es: seq<Event>, ss: seq<State>, cut: seq<nat>)
    ensures Followed(c, es, ss, f, cut)
  {
    hide Poised, Executes, Unhit;
    if f == [] {
      es, ss, cut := StartOfTrace(c);
    } else {
      var n := |f| - 1;
      var es0, ss0, cut0 := FollowTrace(c, f[..n]);
      es, ss := Execute(c, es0, ss0, f[n]);
      PoisedLength(c, es, ss);
      cut := cut0 + [|es|];
      forall p | 0 <= p < |f| ensures Executes(c, ss[cut[p]], f[p], ss[cut[p + 1]]) {
        if p < n { assert f[..n][p] == f[p]; }
      }
    }
  }

  lemma PoisedLength(c: seq<Fault>, es: seq<Event>, ss: seq<State>)
    requires Poised(c, es, ss)
    ensures |ss| == |es| + 1
  {
  }

  lemma FollowedHits(c: seq<Fault>, es: seq<Event>, ss: seq<State>, f: seq<int>, cut: seq<nat>, i: nat)
    requires Followed(c, es, ss, f, cut) && i < |c| && MayTrigger(c, i)
    ensures HitsFollow(es, f, cut, i, c[i].triggerAddress)
  {
    hide IsRun, MayTrigger, CountEvents, Alive;
    HistoryCountsEvents(c, es, ss, cut[0], i);
    assert Unhit(ss[cut[0]], i);
    forall p | 0 <= p < |f|
      ensures CountEvents(es, TriggerHit(i), cut[p + 1]) == CountEvents(es, TriggerHit(i), cut[p]) + if f[p] == c[i].triggerAddress then 1 else 0
    {
      HistoryCountsEvents(c, es, ss, cut[p], i);
      HistoryCountsEvents(c, es, ss, cut[p + 1], i);
      assert Executes(c, ss[cut[p]], f[p], ss[cut[p + 1]]);
    }
  }

  /** Fault i comes into effect with the instruction at `start`, or with the first TB, before the trace. */
  ghost predicate ComesAlive(c: seq<Fault>, ss: seq<State>, f: seq<int>, cut: seq<nat>, i: nat, start: int) {
    && i < |c| && c[i].lifetime > 0
    && if start == -1 then AtFirstTb(c[i]) else MayTrigger(c, i) && InjectedAt(ss, f, cut, i, start)
  }

  lemma {:induction false} CutsGrow(es: seq<Event>, f: seq<int>, cut: seq<nat>, p: nat, q: nat)
    requires Cuts(es, f, cut) && p <= q <= |f|
    ensures cut[p] <= cut[q]
  {
    if p < q {
      CutsGrow(es, f, cut, p, q - 1);
      assert cut[q - 1] <= cut[q - 1 + 1];
    }
  }

  /** It is injected from then on. */
  lemma InjectedFromStart(c: seq<Fault>, es: seq<Event>, ss: seq<State>, f: seq<int>, cut: seq<nat>, i: nat, start: int, p: nat)
    requires Followed(c, es, ss, f, cut) && ComesAlive(c, ss, f, cut, i, start) && p <= |f|
    ensures Sized(ss[cut[p]]) && |ss[cut[p]].faults| == |c| && ss[cut[p]].injections[i] == if p > start then 1 else 0
  {
    hide IsRun, Alive, CountEvents, Executes;
    InjectedAndReversedOnTime(c, es, ss, cut[p], i);
    CutsGrow(es, f, cut, 0, p);
    if start >= 0 {
      InjectedAndReversedOnTime(c, es, ss, cut[start], i);
      InjectedAndReversedOnTime(c, es, ss, cut[start + 1], i);
      if p > start {
        CutsGrow(es, f, cut, start + 1, p);
        EventsGrow(es, TriggerHit(i), cut[start + 1], cut[p]);
      } else {
        CutsGrow(es, f, cut, p, start);
        EventsGrow(es, TriggerHit(i), cut[p], cut[start]);
      }
    }
  }

  /** While it lives it has had one live callback for each later instruction. */
  lemma {:induction false} LivesSoFar(c: seq<Fault>, es: seq<Event>, ss: seq<State>, f: seq<int>, cut: seq<nat>, i: nat, start: int, p: nat)
    requires Followed(c, es, ss, f, cut) && ComesAlive(c, ss, f, cut, i, start) && p <= |f| && p <= start + 1 + c[i].lifetime && start >= -1
    ensures Sized(ss[cut[p]]) && |ss[cut[p]].faults| == |c|
    ensures ss[cut[p]].lives[i] == if p <= start + 1 then 0 else p - start - 1
    ensures p <= start + c[i].lifetime ==> (Alive(ss[cut[p]], i) <==> p > start)
  {
    hide IsRun, InjectedAt, MayTrigger, CountEvents, FaultOk, LiveOk, InjectedOf;
    InjectedFromStart(c, es, ss, f, cut, i, start, p);
    if p == 0 {
      assert Unhit(ss[cut[0]], i);
    } else {
      LivesSoFar(c, es, ss, f, cut, i, start, p - 1);
      assert Executes(c, ss[cut[p - 1]], f[p - 1], ss[cut[p - 1 + 1]]);
    }
    LifetimeLeft(c, es, ss, cut[p], i);
  }

  lemma LifetimeLeft(c: seq<Fault>, es: seq<Event>, ss: seq<State>, k: nat, i: nat)
    requires IsRun(c, es, ss) && k <= |es| && i < |c|
    ensures Sized(ss[k]) && |ss[k].faults| == |c|
    ensures ss[k].faults[i].lifetime == if ss[k].lives[i] < c[i].lifetime then c[i].lifetime - ss[k].lives[i] else 0
  {
    RunKeeps(c, es, ss, k);
    assert OnTime(c[i], RecordOf(ss[k], i), ss[k].started);
  }

  lemma FollowedLives(c: seq<Fault>, es: seq<Event>, ss: seq<State>, f: seq<int>, cut: seq<nat>, i: nat, start: int)
    requires Followed(c, es, ss, f, cut) && ComesAlive(c, ss, f, cut, i, start) && start >= -1
    ensures LivesFollow(es, f, cut, i, start, c[i].lifetime)
  {
    hide IsRun, InjectedAt, MayTrigger, CountEvents, Alive;
    HistoryCountsEvents(c, es, ss, cut[0], i);
    assert Unhit(ss[cut[0]], i);
    forall p | 0 <= p < |f| && p <= start + c[i].lifetime
      ensures CountEvents(es, LiveHit(i), cut[p + 1]) == CountEvents(es, LiveHit(i), cut[p]) + if p > start then 1 else 0
    {
      HistoryCountsEvents(c, es, ss, cut[p], i);
      HistoryCountsEvents(c, es, ss, cut[p + 1], i);
      LivesSoFar(c, es, ss, f, cut, i, start, p);
      assert Executes(c, ss[cut[p]], f[p], ss[cut[p + 1]]);
    }
  }

  /** Every trace can be followed. Some run has, for each fault that keeps its trigger, the hits of
      the trace, and for each transient fault that comes into effect its live callbacks; where the
      trace is long enough the fault is reversed, its lifespan after it came into effect. */
  lemma TraceCanBeFollowed(c: seq<Fault>, f: seq<int>) returns (es: seq<Event>, ss: seq<State>, cut: seq<nat>)
    ensures IsRun(c, es, ss) && |cut| == |f| + 1 && cut[|f|] == |es| && cut[0] > 0
    ensures forall i :: 0 <= i < |c| && MayTrigger(c, i) ==> HitsFollow(es, f, cut, i, c[i].triggerAddress)
    ensures forall i: nat, start :: start >= -1 && ComesAlive(c, ss, f, cut, i, start) ==>
              && LivesFollow(es, f, cut, i, start, c[i].lifetime)
              && (start + c[i].lifetime < |f| ==> EndedAt(ss, f, cut, i, start + c[i].lifetime))
  {
    hide MayTrigger, CountEvents, ComesAlive, HitsFollow, LivesFollow, EndedAt, Executes, IsRun, Replay.ReversedAt;
    es, ss, cut := FollowTrace(c, f);
    forall i | 0 <= i < |c| && MayTrigger(c, i) ensures HitsFollow(es, f, cut, i, c[i].triggerAddress) {
      FollowedHits(c, es, ss, f, cut, i);
    }
    forall i: nat, start | start >= -1 && ComesAlive(c, ss, f, cut, i, start)
      ensures i < |c| && LivesFollow(es, f, cut, i, start, c[i].lifetime)
      ensures start + c[i].lifetime < |f| ==> EndedAt(ss, f, cut, i, start + c[i].lifetime)
    {
      AliveIsTransient(c, ss, f, cut, i, start);
      FollowedLives(c, es, ss, f, cut, i, start);
      EndsWhereCounted(c, es, ss, f, cut, i, start, start + c[i].lifetime);
      EndOfLife(start, c[i].lifetime);
    }
  }

  lemma AliveIsTransient(c: seq<Fault>, ss: seq<State>, f: seq<int>, cut: seq<nat>, i: nat, start: int)
    requires ComesAlive(c, ss, f, cut, i, start)
    ensures i < |c| && c[i].lifetime > 0
  {
  }

  lemma EndOfLife(start: int, lifespan: nat)
    requires lifespan > 0
    ensures Replay.ReversedAt(start, lifespan, start + lifespan)
  {
    Replay.LifetimeIsDifference(start, lifespan, start + lifespan);
    Replay.LifetimeIsDifference(start, lifespan, start + lifespan - 1);
  }

  /** A transient fault that keeps its trigger comes and goes: in some run along the trace it is
      injected by its hit number `hitcounter` and reversed its lifespan later. */
  lemma ComesAndGoes(c: seq<Fault>, f: seq<int>, i: nat, q: nat) returns (es: seq<Event>, ss: seq<State>, cut: seq<nat>)
    requires i < |c| && MayTrigger(c, i) && c[i].lifetime > 0
    requires Trace.IsOccurrence(f, c[i].triggerAddress, c[i].hitcounter, q) && q + c[i].lifetime < |f|
    ensures IsRun(c, es, ss) && InjectedAt(ss, f, cut, i, q) && EndedAt(ss, f, cut, i, q + c[i].lifetime)
  {
    hide IsRun, HitsFollow, LivesFollow, InjectedAt, EndedAt, Replay.FiresAt;
    es, ss, cut := TraceCanBeFollowed(c, f);
    FiresWhereCounted(c, es, ss, f, cut, i, q);
    Replay.FiresAtOccurrence(f, c[i].triggerAddress, c[i].hitcounter, q);
    assert ComesAlive(c, ss, f, cut, i, q);
  }
}
