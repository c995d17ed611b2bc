/** When the trigger table and the fault list agree. The field `trignum` first numbers a
    fault's trigger slot and, once a transient fault is injected, its live entry; the two
    uses get in each other's way in exactly the configurations stated here. */
module PluginTriggers {
  import opened Wrappers
  import opened PluginState
  import opened PluginRuns

  /** Fault i still waits for its trigger. */
  ghost predicate Outstanding(c: seq<Fault>, s: State, i: nat)
    requires Sized(s) && |c| == |s.faults| && i < |c|
  {
    s.injections[i] == 0 && c[i].hitcounter > 0
  }

  ghost predicate TableIntact(c: seq<Fault>, s: State)
    requires Sized(s) && |c| == |s.faults|
  {
    forall i :: 0 <= i < |c| ==> Outstanding(c, s, i) ==> s.slots[i] == c[i].triggerAddress
  }

  // ---- The first TB ----

  ghost predicate AtFirstTb(f: Fault) {
    f.hitcounter == 0 && f.kind == Instruction
  }

  /** Transient faults among the first n that the first TB injects. */
  ghost function FirstTransients(c: seq<Fault>, n: nat): nat
    requires n <= |c|
  {
    if n == 0 then 0 else FirstTransients(c, n - 1) + if AtFirstTb(c[n - 1]) && c[n - 1].lifetime > 0 then 1 else 0
  }

  /** What the first n faults do to the slots: each one injected clears its own, and the t-th
      transient one clears slot t as well, because t is its number by then. */
  ghost predicate SlotsAfter(c: seq<Fault>, slots: seq<int>, liveNumber: nat, n: nat)
    requires |slots| == |c| && n <= |c|
  {
    && liveNumber == FirstTransients(c, n)
    && forall k :: 0 <= k < |c| ==>
         slots[k] == if k < FirstTransients(c, n) || (k < n && AtFirstTb(c[k])) then 0 else c[k].triggerAddress
  }

  /** No fault has a number beyond its own yet. */
  ghost predicate LowNumbers(s: State) {
    forall j :: 0 <= j < |s.faults| ==> s.faults[j].trignum <= j
  }

  lemma {:induction false} FirstTransientsBound(c: seq<Fault>, n: nat)
    requires n <= |c|
    ensures FirstTransients(c, n) <= n
  {
    if n > 0 { FirstTransientsBound(c, n - 1); }
  }

  /** The slots and the live table's fill after fault k was looked at. */
  ghost predicate NextSlots(slots: seq<int>, liveNumber: nat, f: Fault, k: nat, slots': seq<int>, liveNumber': nat)
    requires liveNumber <= k < |slots|
  {
    if !AtFirstTb(f) then slots' == slots && liveNumber' == liveNumber
    else if f.lifetime > 0 then slots' == slots[k := 0][liveNumber := 0] && liveNumber' == liveNumber + 1
    else slots' == slots[k := 0] && liveNumber' == liveNumber
  }

  lemma InjectAtFirstTb(c: seq<Fault>, a: State, k: nat, r: State)
    requires Ready(c, a, k) && a.liveNumber <= k && r == ClearSlot(Inject(a, k), Inject(a, k).faults[k].trignum)
    ensures if c[k].lifetime > 0 then r.slots == a.slots[k := 0][a.liveNumber := 0] && r.liveNumber == a.liveNumber + 1
            else r.slots == a.slots[k := 0] && r.liveNumber == a.liveNumber
    ensures LowNumbers(a) ==> LowNumbers(r)
  {
    hide Inject, LiveOk, InjectedOf;
    InjectResult(c, a, k);
    assert FaultOk(c, a, k);
    assert a.slots[k := 0][k := 0] == a.slots[k := 0];
  }

  lemma FirstTbFaultSlots(c: seq<Fault>, s: State, k: nat, r: State)
    requires FirstTbInv(c, s, k) && k < |c| && s.liveNumber <= k && r == FirstTbFault(s, k)
    ensures NextSlots(s.slots, s.liveNumber, c[k], k, r.slots, r.liveNumber)
    ensures LowNumbers(s) ==> LowNumbers(r)
  {
    hide Inject, LiveOk, InjectedOf, FirstTbFault;
    FirstTbFaultResult(c, s, k);
    assert FaultOk(c, s, k) && OnTime(c[k], RecordOf(s, k), false);
    if AtFirstTb(s.faults[k]) { InjectAtFirstTb(c, AddRequest(s), k, r); }
  }

  lemma NextSlotsAfter(c: seq<Fault>, slots: seq<int>, liveNumber: nat, k: nat, slots': seq<int>, liveNumber': nat)
    requires |slots| == |c| && liveNumber <= k < |c| && SlotsAfter(c, slots, liveNumber, k)
    requires NextSlots(slots, liveNumber, c[k], k, slots', liveNumber')
    ensures |slots'| == |c| && SlotsAfter(c, slots', liveNumber', k + 1)
  {
  }

  lemma {:induction false} FirstTbSlots(c: seq<Fault>, s: State, n: nat, r: State)
    requires Sized(s) && |s.faults| == |c| && FirstTbInv(c, s, 0) && SlotsAfter(c, s.slots, s.liveNumber, 0) && LowNumbers(s)
    requires n <= |c| && r == FirstTb(s, n)
    ensures |r.slots| == |c| && SlotsAfter(c, r.slots, r.liveNumber, n) && LowNumbers(r)
  {
    hide Shape, Untouched, History, FirstTbFault, NextSlots, LowNumbers;
    if n > 0 {
      var p := FirstTb(s, n - 1);
      FirstTbSlots(c, s, n - 1, p);
      FirstTbKeeps(c, s, n - 1);
      FirstTransientsBound(c, n - 1);
      FirstTbFaultSlots(c, p, n - 1, r);
      NextSlotsAfter(c, p.slots, p.liveNumber, n - 1, r.slots, r.liveNumber);
    }
  }

  /** None of the faults at the head of the list, one for each transient fault injected by the
      first TB, is outstanding. */
  ghost predicate HeadSpared(c: seq<Fault>) {
    forall k :: 0 <= k < |c| && k < FirstTransients(c, |c|) ==> c[k].hitcounter == 0 || c[k].triggerAddress == 0
  }

  /** Which faults are outstanding once the first TB was translated, and what the slots hold. */
  lemma FirstTbTable(c: seq<Fault>, vaddr: int, size: int, s: State)
    requires s == Translate(Registered(c), vaddr, size)
    ensures Sized(s) && |s.faults| == |c| && SlotsAfter(c, s.slots, s.liveNumber, |c|) && LowNumbers(s)
    ensures forall k :: 0 <= k < |c| ==> (Outstanding(c, s, k) <==> c[k].hitcounter > 0)
  {
    hide Shape, Untouched, CheckEntries, EvaluateSlots, EvaluateLives;
    var s0 := Registered(c);
    var b := FirstTb(s0, |c|);
    StartKeeps(c);
    FirstTbStart(c, s0, b);
    FirstTbCounters(s0, |c|);
    var a := b.(started := true);
    CheckEntriesCapture(a, vaddr, size, a.current);
    forall k | 0 <= k < |c| ensures Outstanding(c, s, k) <==> c[k].hitcounter > 0 {
      assert OnTime(c[k], RecordOf(b, k), true);
    }
  }

  lemma FirstTbStart(c: seq<Fault>, s: State, r: State)
    requires Sized(s) && |s.faults| == |c| && FirstTbInv(c, s, 0) && SlotsAfter(c, s.slots, s.liveNumber, 0) && LowNumbers(s)
    requires r == FirstTb(s, |c|)
    ensures FirstTbInv(c, r, |c|) && SlotsAfter(c, r.slots, r.liveNumber, |c|) && LowNumbers(r)
  {
    hide Shape, Untouched, History;
    FirstTbSlots(c, s, |c|, r);
    FirstTbKeeps(c, s, |c|);
  }

  /** After the first TB every outstanding fault still has its trigger exactly when the faults
      numbered 0 to t - 1 are not outstanding, where t transient faults were injected at once. */
  lemma FirstTbKeepsTable(c: seq<Fault>, vaddr: int, size: int, s: State)
    requires s == Translate(Registered(c), vaddr, size)
    ensures Sized(s) && |s.faults| == |c| && (TableIntact(c, s) <==> HeadSpared(c))
  {
    hide Translate, Registered;
    FirstTbTable(c, vaddr, size, s);
    FirstTransientsBound(c, |c|);
  }

  // ---- Later steps ----

  /** What a running plugin keeps of its slots and numbers: injection clears the own slot of the
      fault and gives it the next live number; nothing else changes them. */
  ghost predicate TablesFollow(c: seq<Fault>, s: State, r: State)
    requires Sized(s) && |s.faults| == |c|
  {
    && Sized(r) && |r.faults| == |c| && r.liveNumber >= s.liveNumber
    && forall j :: 0 <= j < |c| ==>
         if s.injections[j] == 0 && r.injections[j] == 1 then
           c[j].hitcounter > 0 && j in s.armed && r.slots[j] == 0
           && r.faults[j].trignum == (if c[j].lifetime > 0 then s.liveNumber else j)
         else r.slots[j] == s.slots[j] && r.faults[j].trignum == s.faults[j].trignum && r.injections[j] == s.injections[j]
  }

  lemma TriggerFollows(c: seq<Fault>, s: State, i: nat, r: State)
    requires RunningInv(c, s) && i < |c| && i in s.armed && r == TriggerCallback(s, i)
    ensures TablesFollow(c, s, r) && r.armed == s.armed
  {
    hide LiveOk, InjectedOf, Inject, TriggerCallback;
    TriggerResult(c, s, i);
    assert FaultOk(c, s, i) && OnTime(c[i], RecordOf(s, i), true);
    if s.faults[i].hitcounter == 1 { InjectResult(c, Counted(s, i), i); }
  }

  lemma StepFollows(c: seq<Fault>, s: State, e: Event, r: State)
    requires RunningInv(c, s) && s.started && IsStep(s, e, r)
    ensures TablesFollow(c, s, r)
    ensures r.armed == match e case TranslateTb(vaddr, size) => EvaluateSlots(s, vaddr, size, |c|).armed case _ => s.armed
  {
    hide FaultOk, LiveOk, InjectedOf, History, TriggerCallback, ExecCallback, EvaluateSlots, EvaluateLives, CheckFaultedTbs;
    match e
    case TranslateTb(vaddr, size) =>
      EvaluationKeeps(c, s, vaddr, size);
      CheckKeeps(c, Evaluated(s, vaddr, size), vaddr, size);
      EvaluatedArms(c, s, vaddr, size);
    case TriggerHit(i) =>
      TriggerFollows(c, s, i, r);
    case LiveHit(i) =>
      WatchedIsInjected(c, s, i);
      ExecResult(c, s, i);
  }

  lemma EvaluatedArms(c: seq<Fault>, s: State, vaddr: int, size: int)
    requires Shape(c, s)
    ensures Evaluated(s, vaddr, size).armed == EvaluateSlots(s, vaddr, size, |c|).armed
  {
    hide EvaluateSlots, EvaluateLives;
  }

  /** What the numbers and slots of a started plugin have been since the first TB. */
  ghost predicate Numbered(c: seq<Fault>, s: State) {
    && Shape(c, s) && s.started && FirstTransients(c, |c|) <= s.liveNumber
    && (forall j :: 0 <= j < |c| && AtFirstTb(c[j]) ==> s.faults[j].trignum <= j)
    && (forall j :: 0 <= j < |c| && c[j].hitcounter > 0 && s.faults[j].trignum != j ==> s.faults[j].trignum >= FirstTransients(c, |c|))
    && (forall i :: 0 <= i < |c| && Outstanding(c, s, i) ==>
          s.slots[i] == if i < FirstTransients(c, |c|) then 0 else c[i].triggerAddress)
    && (forall i :: 0 <= i < |c| && s.injections[i] == 1 ==> MayRegister(c, i))
    && (forall i :: 0 <= i < |c| && c[i].hitcounter > 0 && i in s.armed ==> MayTrigger(c, i))
  }

  /** Fault i keeps its trigger at the first TB, so that it can be injected by its hits. */
  ghost predicate MayTrigger(c: seq<Fault>, i: nat)
    requires i < |c|
  {
    c[i].hitcounter > 0 && (FirstTransients(c, |c|) <= i || c[i].triggerAddress == 0)
  }

  /** Fault i can be injected at all. */
  ghost predicate MayRegister(c: seq<Fault>, i: nat)
    requires i < |c|
  {
    AtFirstTb(c[i]) || MayTrigger(c, i)
  }

  lemma FirstTbNumbered(c: seq<Fault>, vaddr: int, size: int, s: State)
    requires s == Translate(Registered(c), vaddr, size)
    ensures Numbered(c, s) && s.armed == {}
  {
    hide Translate, Registered, LiveOk, InjectedOf;
    FirstTbTable(c, vaddr, size, s);
    FirstTransientsBound(c, |c|);
    StartKeeps(c);
    StartNotStarted(c);
    TranslateKeeps(c, Registered(c), vaddr, size);
    FirstTbArmsNothing(c, vaddr, size);
    forall i | 0 <= i < |c|
      ensures s.faults[i].trignum <= i && (c[i].hitcounter > 0 ==> s.injections[i] == 0 && s.faults[i].trignum == i)
      ensures s.injections[i] == 1 ==> AtFirstTb(c[i])
    {
      assert FaultOk(c, s, i) && OnTime(c[i], RecordOf(s, i), true);
      assert Outstanding(c, s, i) <==> c[i].hitcounter > 0;
    }
  }

  lemma StartNotStarted(c: seq<Fault>)
    ensures var s := Registered(c); !s.started && s.armed == {} && s.watched == {} && s.hits == s.lives == seq(|c|, _ => 0)
  {
  }

  lemma FirstTbArmsNothing(c: seq<Fault>, vaddr: int, size: int)
    ensures Translate(Registered(c), vaddr, size).armed == {}
  {
    hide FirstTb, Shape, History, CheckEntries;
    var s0 := Registered(c);
    StartKeeps(c);
    FirstTbKeeps(c, s0, |c|);
    var a := FirstTb(s0, |c|).(started := true);
    CheckEntriesCapture(a, vaddr, size, a.current);
  }

  /** A slot of 0 arms only a fault whose trigger address is 0. */
  lemma {:induction false} SlotsArm(c: seq<Fault>, s: State, vaddr: int, size: int, n: nat, i: nat)
    requires Numbered(c, s) && n <= |c| && i < |c| && c[i].hitcounter > 0
    ensures i in EvaluateSlots(s, vaddr, size, n).armed ==> MayTrigger(c, i)
  {
    hide LiveOk, InjectedOf, MayTrigger, Lookup;
    if n > 0 {
      SlotsArm(c, s, vaddr, size, n - 1, i);
      var p := EvaluateSlots(s, vaddr, size, n - 1);
      if Lookup(p.faults, p.slots[n - 1], n - 1) == Some(i) { FoundMayTrigger(c, s, n - 1, i); }
    }
  }

  lemma FoundMayTrigger(c: seq<Fault>, s: State, k: nat, i: nat)
    requires Numbered(c, s) && k < |c| && i < |c| && c[i].hitcounter > 0
    requires Lookup(s.faults, s.slots[k], k) == Some(i)
    ensures MayTrigger(c, i)
  {
    hide LiveOk, InjectedOf;
    assert FaultOk(c, s, i);
    if s.injections[i] == 0 { assert Outstanding(c, s, i); }
  }

  lemma StepKeepsNumbered(c: seq<Fault>, s: State, e: Event, r: State)
    requires RunningInv(c, s) && Numbered(c, s) && IsStep(s, e, r) && RunningInv(c, r) && r.started
    ensures Numbered(c, r)
  {
    hide FaultOk, LiveOk, InjectedOf, History, MayTrigger, Step, EvaluateSlots, Translate;
    StepFollows(c, s, e, r);
    forall i | 0 <= i < |c| && c[i].hitcounter > 0 && i in r.armed ensures MayTrigger(c, i) {
      if e.TranslateTb? { SlotsArm(c, s, e.vaddr, e.size, |c|, i); }
    }
  }

  lemma {:induction false} RunIsNumbered(c: seq<Fault>, es: seq<Event>, ss: seq<State>, k: nat)
    requires IsRun(c, es, ss) && 0 < k <= |es|
    ensures RunningInv(c, ss[k]) && Numbered(c, ss[k])
  {
    hide Shape, History, Numbered, Translate, TriggerCallback, ExecCallback, Registered;
    assert IsStep(ss[k - 1], es[k - 1], ss[k - 1 + 1]);
    RunKeeps(c, es, ss, k);
    RunStarts(c, es, ss, k);
    StartNotStarted(c);
    if k == 1 {
      FirstTbNumbered(c, es[0].vaddr, es[0].size, ss[1]);
    } else {
      RunIsNumbered(c, es, ss, k - 1);
      StepKeepsNumbered(c, ss[k - 1], es[k - 1], ss[k]);
    }
  }

  lemma ReachableNumbers(c: seq<Fault>, s: State)
    requires Reachable(c, s) && s.started
    ensures RunningInv(c, s) && Numbered(c, s)
  {
    hide Numbered, RunningInv, Registered;
    var es, ss :| IsRun(c, es, ss) && ss[|es|] == s;
    StartNotStarted(c);
    RunIsNumbered(c, es, ss, |es|);
  }

  // ---- Building runs ----

  lemma RunningTranslation(c: seq<Fault>, s: State, vaddr: int, size: int)
    requires RunningInv(c, s) && s.started
    ensures Sized(s) && |s.faults| == |c|
    ensures var r := Translate(s, vaddr, size);
            && Sized(r) && r.started && r.faults == s.faults && r.slots == s.slots && r.injections == s.injections && r.liveNumber == s.liveNumber
            && r.armed == EvaluateSlots(s, vaddr, size, |c|).armed && r.current == s.current
  {
    hide FaultOk, LiveOk, InjectedOf, History, EvaluateSlots, EvaluateLives, CheckFaultedTbs;
    EvaluationKeeps(c, s, vaddr, size);
    CheckKeeps(c, Evaluated(s, vaddr, size), vaddr, size);
    EvaluatedArms(c, s, vaddr, size);
  }

  /** A TB with the trigger address in it arms the fault that the lookup finds. */
  lemma {:induction false} SlotArms(s: State, vaddr: int, size: int, n: nat, k: nat)
    requires n <= |s.slots|
    ensures s.armed <= EvaluateSlots(s, vaddr, size, n).armed
    ensures k < n && vaddr <= s.slots[k] < vaddr + size && Lookup(s.faults, s.slots[k], k) == Some(k) ==>
              k in EvaluateSlots(s, vaddr, size, n).armed
  {
    hide Lookup;
    if n > 0 { SlotArms(s, vaddr, size, n - 1, k); }
  }

  /** Nothing was injected since the first TB, and the first n faults are armed. */
  ghost predicate Armed(c: seq<Fault>, s: State, n: nat) {
    && Reachable(c, s) && s.started && Sized(s) && |s.faults| == |c| && LowNumbers(s)
    && (forall k :: 0 <= k < |c| ==> s.hits[k] == 0 && s.lives[k] == 0)
    && (forall k :: 0 <= k < |c| && c[k].hitcounter > 0 ==> s.injections[k] == 0)
    && (forall k :: 0 <= k < |c| && k < n && MayTrigger(c, k) ==> k in s.armed)
  }

  lemma FirstArmed(c: seq<Fault>, vaddr: int, size: int)
    ensures Armed(c, Translate(Registered(c), vaddr, size), 0)
  {
    hide Registered, Translate, Reachable, MayTrigger;
    StartIsReachable(c);
    NextIsReachable(c, Registered(c), TranslateTb(vaddr, size));
    StartKeeps(c);
    StartNotStarted(c);
    TranslateKeeps(c, Registered(c), vaddr, size);
    TranslateCounters(Registered(c), vaddr, size);
    FirstTbTable(c, vaddr, size, Translate(Registered(c), vaddr, size));
    forall k | 0 <= k < |c| && c[k].hitcounter > 0 ensures Translate(Registered(c), vaddr, size).injections[k] == 0 {
      assert Outstanding(c, Translate(Registered(c), vaddr, size), k);
    }
  }

  lemma ArmNext(c: seq<Fault>, s: State, n: nat) returns (r: State)
    requires Armed(c, s, n) && n < |c|
    ensures Armed(c, r, n + 1)
  {
    hide Reachable, RunningInv, Numbered, Translate, EvaluateSlots, Lookup;
    var e := TranslateTb(c[n].triggerAddress, 1);
    r := Step(s, e);
    NextIsReachable(c, s, e);
    ReachableNumbers(c, s);
    RunningTranslation(c, s, e.vaddr, e.size);
    TranslateCounters(s, e.vaddr, e.size);
    SlotArms(s, e.vaddr, e.size, |c|, n);
    if MayTrigger(c, n) { LowNumbersFound(c, s, n); }
  }

  lemma LowNumbersFound(c: seq<Fault>, s: State, n: nat)
    requires Numbered(c, s) && n < |c| && MayTrigger(c, n) && s.injections[n] == 0 && LowNumbers(s)
    ensures s.slots[n] == c[n].triggerAddress && Lookup(s.faults, s.slots[n], n) == Some(n)
  {
    hide LiveOk, InjectedOf;
    assert FaultOk(c, s, n) && Outstanding(c, s, n);
  }

  /** A run in which all that can be armed is, before anything but the first TB's faults is injected. */
  lemma {:induction false} ArmedRun(c: seq<Fault>, n: nat) returns (s: State)
    requires n <= |c|
    ensures Armed(c, s, n)
  {
    hide Armed, Translate, Registered;
    if n == 0 {
      s := Translate(Registered(c), 0, 1);
      FirstArmed(c, 0, 1);
    } else {
      var p := ArmedRun(c, n - 1);
      s := ArmNext(c, p, n - 1);
    }
  }

  /** Fault i is injected; an instruction fault is entered into the list and the table of faulted TBs. */
  ghost predicate Grows(c: seq<Fault>, s: State, i: nat, r: State)
    requires Sized(s) && |s.faults| == |c| && i < |c|
  {
    && Sized(r) && |r.faults| == |c|
    && r.injections == s.injections[i := 1] && r.captured == s.captured && r.done == s.done
    && if c[i].kind == Instruction then
         s.current < |s.active| && r.active == s.active[s.current := c[i].address] && r.current == s.current + 1
         && r.list == [FaultedTb(c[i].address, false)] + s.list
       else r.active == s.active && r.current == s.current && r.list == s.list
  }

  /** Fault i was hit as often as it takes, nothing else happened. */
  ghost predicate InjectedFrom(c: seq<Fault>, s: State, i: nat, r: State)
    requires Sized(s) && |s.faults| == |c| && i < |c|
  {
    && Grows(c, s, i, r) && r.started == s.started && r.armed == s.armed
    && (forall k :: 0 <= k < |c| && k != i ==> r.faults[k] == s.faults[k])
    && (c[i].lifetime > 0 ==> r.faults[i].trignum == s.liveNumber && r.liveNumber == s.liveNumber + 1)
  }

  lemma LastHit(c: seq<Fault>, s: State, i: nat, r: State)
    requires Shape(c, s) && i < |c| && s.injections[i] == 0 && s.faults[i].hitcounter == 1 && r == TriggerCallback(s, i)
    ensures InjectedFrom(c, s, i, r)
  {
    hide LiveOk, InjectedOf, Inject, TriggerCallback;
    assert FaultOk(c, s, i);
    TriggerResult(c, s, i);
    InjectResult(c, Counted(s, i), i);
  }

  lemma EarlierHit(c: seq<Fault>, s: State, i: nat, p: State, r: State)
    requires Shape(c, s) && i < |c| && s.faults[i].hitcounter > 1 && p == TriggerCallback(s, i)
    requires Sized(p) && |p.faults| == |c| && InjectedFrom(c, p, i, r)
    ensures InjectedFrom(c, s, i, r)
  {
    hide FaultOk, LiveOk, InjectedOf, TriggerCallback;
    TriggerResult(c, s, i);
  }

  lemma {:induction false} InjectNow(c: seq<Fault>, s: State, i: nat) returns (r: State)
    requires Reachable(c, s) && s.started && Sized(s) && |s.faults| == |c| && i < |c|
    requires i in s.armed && s.injections[i] == 0 && c[i].hitcounter > 0
    ensures Reachable(c, r) && InjectedFrom(c, s, i, r)
    decreases s.faults[i].hitcounter
  {
    hide Reachable, Shape, TriggerCallback, InjectedFrom;
    NextIsReachable(c, s, TriggerHit(i));
    ReachableKeeps(c, s);
    assert OnTime(c[i], RecordOf(s, i), true);
    var p := Step(s, TriggerHit(i));
    if s.faults[i].hitcounter == 1 {
      r := p;
      LastHit(c, s, i, r);
    } else {
      TriggerRecords(c, s, i, i);
      HitKeepsArmed(c, s, i);
      r := InjectNow(c, p, i);
      EarlierHit(c, s, i, p, r);
    }
  }

  lemma HitKeepsArmed(c: seq<Fault>, s: State, i: nat)
    requires Shape(c, s) && i < |c| && s.faults[i].hitcounter > 1
    ensures var r := TriggerCallback(s, i); r.armed == s.armed && r.started == s.started && r.injections[i] == s.injections[i]
  {
    hide FaultOk, LiveOk, InjectedOf, TriggerCallback;
    TriggerResult(c, s, i);
  }

  // ---- Looking a fault up by its slot ----

  /** Every outstanding fault has its trigger in its slot and is found by it. */
  ghost predicate Agrees(c: seq<Fault>, s: State) {
    && Sized(s) && |s.faults| == |c|
    && forall i :: 0 <= i < |c| && Outstanding(c, s, i) ==>
         s.slots[i] == c[i].triggerAddress && Lookup(s.faults, s.slots[i], i) == Some(i)
  }

  /** The transient faults, other than i and j, that can be injected if the head is spared. */
  ghost function Others(c: seq<Fault>, i: nat, j: nat): seq<bool> {
    seq(|c|, k requires 0 <= k < |c| =>
      k != i && k != j && c[k].lifetime > 0 && (c[k].hitcounter > 0 || AtFirstTb(c[k])))
  }

  /** An earlier transient fault with the trigger address of fault i can be given number i: the
      first TB leaves that number free, and enough other faults can be injected before. */
  ghost predicate CanTakeNumber(c: seq<Fault>, i: nat, j: nat) {
    && j < i < |c| && c[i].hitcounter > 0 && c[j].hitcounter > 0 && c[j].lifetime > 0
    && c[j].triggerAddress == c[i].triggerAddress
    && FirstTransients(c, |c|) <= i <= CountTrue(Others(c, i, j))
  }

  ghost predicate NumbersFree(c: seq<Fault>) {
    forall i: nat, j: nat :: !CanTakeNumber(c, i, j)
  }

  lemma {:induction false} CountMore(a: seq<bool>, b: seq<bool>)
    requires |a| == |b| && forall i :: 0 <= i < |a| ==> a[i] ==> b[i]
    ensures CountTrue(a) <= CountTrue(b)
  {
    if a != [] {
      var n := |a| - 1;
      assert forall i :: 0 <= i < n ==> a[..n][i] == a[i] && b[..n][i] == b[i];
      CountMore(a[..n], b[..n]);
    }
  }

  /** Only a fault that can take number i has it. */
  lemma NumberTaken(c: seq<Fault>, s: State, i: nat, j: nat)
    requires RunningInv(c, s) && Numbered(c, s) && j < i < |c| && Outstanding(c, s, i) && Matches(s.faults[j], c[i].triggerAddress, i)
    ensures CanTakeNumber(c, i, j)
  {
    hide LiveOk, Outstanding;
    assert FaultOk(c, s, j) && OnTime(c[j], RecordOf(s, j), true);
    assert s.injections[i] == 0 && c[i].hitcounter > 0 by { OutstandingMeans(c, s, i); }
    var b := InjectedOf(c, s, IsTransient());
    CountUpdate(b, j, false);
    forall k | 0 <= k < |c| && b[j := false][k] ensures Others(c, i, j)[k] {
      assert FaultOk(c, s, k) && OnTime(c[k], RecordOf(s, k), true);
    }
    CountMore(b[j := false], Others(c, i, j));
  }

  lemma OutstandingMeans(c: seq<Fault>, s: State, i: nat)
    requires Sized(s) && |s.faults| == |c| && i < |c| && Outstanding(c, s, i)
    ensures s.injections[i] == 0 && c[i].hitcounter > 0
  {
  }

  lemma AgreesWhenFree(c: seq<Fault>, s: State)
    requires Reachable(c, s) && HeadSpared(c) && NumbersFree(c)
    ensures Agrees(c, s)
  {
    hide Reachable, LiveOk, InjectedOf, CanTakeNumber;
    ReachableKeeps(c, s);
    if s.started { ReachableNumbers(c, s); }
    forall i | 0 <= i < |c| && Outstanding(c, s, i)
      ensures s.slots[i] == c[i].triggerAddress && Lookup(s.faults, s.slots[i], i) == Some(i)
    {
      assert FaultOk(c, s, i);
      forall j | 0 <= j < i ensures !Matches(s.faults[j], c[i].triggerAddress, i) {
        assert FaultOk(c, s, j);
        if s.started && Matches(s.faults[j], c[i].triggerAddress, i) { NumberTaken(c, s, i, j); }
      }
    }
  }

  /** One more transient fault that is neither i nor j can be injected. */
  lemma AnotherFault(c: seq<Fault>, s: State, i: nat, j: nat) returns (k: nat)
    requires RunningInv(c, s) && HeadSpared(c) && s.liveNumber < CountTrue(Others(c, i, j))
    ensures k < |c| && k != i && k != j && s.injections[k] == 0 && c[k].lifetime > 0 && MayTrigger(c, k)
  {
    hide FaultOk, LiveOk;
    var o, b := Others(c, i, j), InjectedOf(c, s, IsTransient());
    if forall k :: 0 <= k < |c| && o[k] ==> b[k] { CountMore(o, b); }
    k :| 0 <= k < |c| && o[k] && !b[k];
    assert OnTime(c[k], RecordOf(s, k), true);
  }

  /** All that can be triggered is armed; faults i and j are still to come. */
  ghost predicate BothToCome(c: seq<Fault>, s: State, i: nat, j: nat) {
    && Reachable(c, s) && s.started && Sized(s) && |s.faults| == |c| && j < i < |c|
    && s.injections[i] == 0 && s.injections[j] == 0
    && (forall k :: 0 <= k < |c| && MayTrigger(c, k) ==> k in s.armed)
  }

  lemma {:induction false} FillUp(c: seq<Fault>, s: State, i: nat, j: nat) returns (r: State)
    requires HeadSpared(c) && BothToCome(c, s, i, j) && s.liveNumber <= i <= CountTrue(Others(c, i, j))
    ensures BothToCome(c, r, i, j) && r.liveNumber == i
    decreases i - s.liveNumber
  {
    hide Reachable, HeadSpared, RunningInv, Registered, Numbered;
    if s.liveNumber == i {
      r := s;
    } else {
      ReachableNumbers(c, s);
      var k := AnotherFault(c, s, i, j);
      var p := InjectNow(c, s, k);
      r := FillUp(c, p, i, j);
    }
  }

  /** The failing run: i transient faults are injected, then fault j, which gets number i. */
  lemma NumberGetsTaken(c: seq<Fault>, i: nat, j: nat) returns (s: State)
    requires HeadSpared(c) && CanTakeNumber(c, i, j)
    ensures Reachable(c, s) && Sized(s) && |s.faults| == |c| && Outstanding(c, s, i) && s.slots[i] == c[i].triggerAddress
    ensures var r := Lookup(s.faults, s.slots[i], i); r.Some? && r.value <= j
  {
    hide Reachable, Lookup, LiveOk, InjectedOf;
    var a := ArmedRun(c, |c|);
    ReachableNumbers(c, a);
    FirstLiveNumber(c, a);
    var b := FillUp(c, a, i, j);
    s := InjectNow(c, b, j);
    ReachableNumbers(c, s);
    assert FaultOk(c, s, j) && Outstanding(c, s, i);
    assert Matches(s.faults[j], s.slots[i], i);
  }

  /** Until a trigger injects, the live table holds the first TB's transient faults. */
  lemma FirstLiveNumber(c: seq<Fault>, s: State)
    requires RunningInv(c, s) && forall k :: 0 <= k < |c| && c[k].hitcounter > 0 ==> s.injections[k] == 0
    ensures s.liveNumber == FirstTransients(c, |c|)
  {
    hide FaultOk, LiveOk;
    var b := InjectedOf(c, s, IsTransient());
    forall k | 0 <= k < |c| ensures b[k] == (AtFirstTb(c[k]) && c[k].lifetime > 0) {
      assert OnTime(c[k], RecordOf(s, k), true);
    }
    CountFirst(c, b, |c|);
    assert b[..|c|] == b;
  }

  lemma {:induction false} CountFirst(c: seq<Fault>, b: seq<bool>, n: nat)
    requires |b| == |c| && n <= |c| && forall k :: 0 <= k < |c| ==> b[k] == (AtFirstTb(c[k]) && c[k].lifetime > 0)
    ensures CountTrue(b[..n]) == FirstTransients(c, n)
  {
    if n > 0 {
      CountFirst(c, b, n - 1);
      assert b[..n][..n - 1] == b[..n - 1];
    }
  }

  /** Trigger-table agreement: in every state of every run each outstanding fault has its trigger
      in its slot and is found by it, if and only if the first TB's transient faults spare the head
      of the list and no transient fault can take the number of a later one with its address. */
  lemma TableAgrees(c: seq<Fault>)
    ensures (forall s :: Reachable(c, s) ==> Agrees(c, s)) <==> HeadSpared(c) && NumbersFree(c)
  {
    hide Reachable, Agrees, CanTakeNumber, Translate, Registered, MayTrigger;
    if HeadSpared(c) && NumbersFree(c) {
      forall s | Reachable(c, s) ensures Agrees(c, s) { AgreesWhenFree(c, s); }
    } else if !HeadSpared(c) {
      var s := Translate(Registered(c), 0, 1);
      FirstArmed(c, 0, 1);
      FirstTbKeepsTable(c, 0, 1, s);
      IntactWhenAgrees(c, s);
    } else {
      var i: nat, j: nat :| CanTakeNumber(c, i, j);
      var s := NumberGetsTaken(c, i, j);
      LostWhenTaken(c, s, i, j);
    }
  }

  /** The slots alone: they are intact in every state of every run exactly if the head is spared. */
  lemma TableStaysIntact(c: seq<Fault>)
    ensures (forall s :: Reachable(c, s) ==> Sized(s) && |s.faults| == |c| && TableIntact(c, s)) <==> HeadSpared(c)
  {
    hide Reachable, Translate;
    if HeadSpared(c) {
      forall s | Reachable(c, s) ensures Sized(s) && |s.faults| == |c| && TableIntact(c, s) {
        ReachableKeeps(c, s);
        if s.started { ReachableNumbers(c, s); }
      }
    } else {
      FirstArmed(c, 0, 1);
      FirstTbKeepsTable(c, 0, 1, Translate(Registered(c), 0, 1));
    }
  }

  lemma {:induction false} SlotsArmInTb(s: State, vaddr: int, size: int, n: nat, i: nat)
    requires n <= |s.slots| && i in EvaluateSlots(s, vaddr, size, n).armed
    ensures i in s.armed || (i < |s.faults| && vaddr <= s.faults[i].triggerAddress < vaddr + size)
  {
    if n > 0 && i in EvaluateSlots(s, vaddr, size, n - 1).armed { SlotsArmInTb(s, vaddr, size, n - 1, i); }
  }

  /** A started plugin that translates a TB arms outstanding faults whose trigger lies in it, no
      others, and all of them if the configuration keeps table and list in agreement. */
  lemma TranslationArms(c: seq<Fault>, s: State, vaddr: int, size: int, i: nat)
    requires Reachable(c, s) && s.started && i < |c|
    ensures Sized(s) && |s.faults| == |c|
    ensures var r := Step(s, TranslateTb(vaddr, size));
            && s.armed <= r.armed
            && (i in r.armed ==> i in s.armed || vaddr <= c[i].triggerAddress < vaddr + size)
            && (HeadSpared(c) && NumbersFree(c) && Outstanding(c, s, i) && vaddr <= c[i].triggerAddress < vaddr + size ==> i in r.armed)
  {
    hide Reachable, LiveOk, InjectedOf, Registered, NumbersFree, HeadSpared, Translate, Numbered, EvaluateSlots, Lookup;
    ReachableNumbers(c, s);
    RunningTranslation(c, s, vaddr, size);
    assert FaultOk(c, s, i);
    if i in EvaluateSlots(s, vaddr, size, |c|).armed { SlotsArmInTb(s, vaddr, size, |c|, i); }
    SlotArms(s, vaddr, size, |c|, i);
    if HeadSpared(c) && NumbersFree(c) { AgreesWhenFree(c, s); }
  }

  lemma IntactWhenAgrees(c: seq<Fault>, s: State)
    requires Sized(s) && |s.faults| == |c| && !TableIntact(c, s)
    ensures !Agrees(c, s)
  {
  }

  lemma LostWhenTaken(c: seq<Fault>, s: State, i: nat, j: nat)
    requires CanTakeNumber(c, i, j) && Sized(s) && |s.faults| == |c| && Outstanding(c, s, i)
    requires var r := Lookup(s.faults, s.slots[i], i); r.Some? && r.value <= j
    ensures !Agrees(c, s)
  {
  }

  // ---- Configurations ----

  /** A transient fault at the first TB takes the trigger of the fault whose slot number it gets. */
  lemma FirstTbTransientSteals(c: seq<Fault>, s: State)
    requires c == [Fault(0x2000, Data, 0, 0x100, 1, 0), Fault(0x3000, Instruction, 5, 0, 0, 0)]
    requires s == Translate(Registered(c), 0, 4)
    ensures !HeadSpared(c) && Sized(s) && |s.faults| == |c| && !TableIntact(c, s)
  {
    assert FirstTransients(c, 0) == FirstTransients(c, 1) == 0;
    assert FirstTransients(c, 2) == 1;
    assert c[0].hitcounter == 1 && c[0].triggerAddress == 0x100;
    FirstTbKeepsTable(c, 0, 4, s);
  }

  const SHARED := [Fault(0x2000, Data, 9, 0x100, 1, 0), Fault(0x2004, Data, 0, 0x100, 2, 1), Fault(0x2008, Data, 9, 0x200, 1, 2)]

  /** Two faults with one trigger address, the first of them transient: once it is injected as
      the transient fault number 1 it is found in place of fault 1, which never triggers. */
  lemma SharedTriggerIsLost() returns (s: State)
    ensures HeadSpared(SHARED) && !NumbersFree(SHARED)
    ensures Reachable(SHARED, s) && Sized(s) && |s.faults| == |SHARED| && Outstanding(SHARED, s, 1)
    ensures s.slots[1] == SHARED[1].triggerAddress && Lookup(s.faults, s.slots[1], 1) == Some(0)
  {
    hide Reachable;
    assert FirstTransients(SHARED, 0) == FirstTransients(SHARED, 1) == FirstTransients(SHARED, 2) == 0;
    assert Others(SHARED, 1, 0) == [false, false, true];
    CountBound(Others(SHARED, 1, 0));
    assert Others(SHARED, 1, 0)[2];
    assert CanTakeNumber(SHARED, 1, 0);
    s := NumberGetsTaken(SHARED, 1, 0);
  }

  /** Without a third transient fault the first one keeps number 0, and nothing is lost. */
  lemma SharedTriggerIsKept(s: State)
    requires Reachable(SHARED[..2], s)
    ensures Agrees(SHARED[..2], s)
  {
    hide Reachable, Agrees;
    var c := SHARED[..2];
    assert FirstTransients(c, 0) == FirstTransients(c, 1) == FirstTransients(c, 2) == 0;
    forall i: nat, j: nat ensures !CanTakeNumber(c, i, j) {
      if i == 1 && j == 0 {
        assert Others(c, 1, 0) == [false, false];
        AllFalse(Others(c, 1, 0));
      }
    }
    AgreesWhenFree(c, s);
  }
}
