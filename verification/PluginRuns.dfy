/** What every run of the plugin keeps, whatever the configuration: tables never overflow, each
    fault is injected and reversed at most once and exactly on time. */
module PluginRuns {
  import opened Wrappers
  import opened PluginState

  // ---- Counting ----

  ghost function CountTrue(b: seq<bool>): nat {
    if b == [] then 0 else CountTrue(b[..|b| - 1]) + if b[|b| - 1] then 1 else 0
  }

  lemma {:induction false} CountBound(b: seq<bool>)
    ensures CountTrue(b) <= |b|
    ensures (exists i :: 0 <= i < |b| && !b[i]) ==> CountTrue(b) < |b|
    ensures (exists i :: 0 <= i < |b| && b[i]) <==> CountTrue(b) > 0
  {
    if b != [] {
      var r := b[..|b| - 1];
      CountBound(r);
      assert forall i :: 0 <= i < |r| ==> r[i] == b[i];
    }
  }

  lemma {:induction false} CountUpdate(b: seq<bool>, i: nat, v: bool)
    requires i < |b|
    ensures CountTrue(b[i := v]) + (if b[i] then 1 else 0) == CountTrue(b) + (if v then 1 else 0)
  {
    var n := |b| - 1;
    if i == n {
      assert b[i := v][..n] == b[..n];
    } else {
      CountUpdate(b[..n], i, v);
      assert b[i := v][..n] == b[..n][i := v];
    }
  }

  lemma AllFalse(b: seq<bool>)
    requires forall i :: 0 <= i < |b| ==> !b[i]
    ensures CountTrue(b) == 0
  {
    CountBound(b);
  }

  // ---- The invariant ----

  /** Faults of one sort that have been injected. */
  ghost function InjectedOf(c: seq<Fault>, s: State, sort: Fault -> bool): seq<bool>
    requires Sized(s) && |c| == |s.faults|
  {
    seq(|c|, i requires 0 <= i < |c| => s.injections[i] > 0 && sort(c[i]))
  }

  function IsTransient(): Fault -> bool { (f: Fault) => f.lifetime > 0 }

  function IsInstruction(): Fault -> bool { (f: Fault) => f.kind == Instruction }

  ghost predicate SameFault(f: Fault, g: Fault) {
    f.address == g.address && f.kind == g.kind && f.triggerAddress == g.triggerAddress
  }

  ghost predicate FaultOk(c: seq<Fault>, s: State, i: nat)
    requires Sized(s) && |c| == |s.faults| && i < |c|
  {
    var f := s.faults[i];
    && SameFault(f, c[i])
    && s.injections[i] <= 1
    && (s.injections[i] == 0 ==> f.lifetime == c[i].lifetime && f.trignum == i)
    && (c[i].lifetime == 0 ==> f.lifetime == 0 && f.trignum == i)
    && (s.injections[i] == 1 ==> f.hitcounter == 0)
    && (s.injections[i] == 1 && c[i].lifetime > 0 ==> 0 <= f.trignum < s.liveNumber)
    && (s.injections[i] == 1 && f.lifetime > 0 ==> c[i].lifetime > 0 && s.live[f.trignum] == Some(i))
    && (i in s.watched ==> s.injections[i] == 1)
  }

  ghost predicate LiveOk(s: State, k: nat)
    requires Sized(s) && k < |s.live|
  {
    s.live[k].Some? ==>
      var i := s.live[k].value;
      k < s.liveNumber && i < |s.faults| && s.injections[i] == 1 && s.faults[i].lifetime > 0 && s.faults[i].trignum == k
  }

  ghost predicate Shape(c: seq<Fault>, s: State) {
    && Sized(s) && |c| == |s.faults|
    && (forall i :: 0 <= i < |c| ==> FaultOk(c, s, i))
    && (forall k :: 0 <= k < |c| ==> LiveOk(s, k))
    && s.liveNumber == CountTrue(InjectedOf(c, s, IsTransient()))
    && s.current == CountTrue(InjectedOf(c, s, IsInstruction()))
  }

  // ---- inject_fault ----

  /** Fault i has not been injected and has no hit left to wait for. */
  ghost predicate Ready(c: seq<Fault>, s: State, i: nat) {
    Shape(c, s) && i < |c| && s.injections[i] == 0 && s.faults[i].hitcounter == 0
  }

  lemma TablesHaveRoom(c: seq<Fault>, s: State, i: nat)
    requires Shape(c, s) && i < |c| && s.injections[i] == 0
    ensures c[i].lifetime > 0 ==> s.liveNumber < |c|
    ensures c[i].kind == Instruction ==> s.current < |c|
  {
    var transient, instruction := InjectedOf(c, s, IsTransient()), InjectedOf(c, s, IsInstruction());
    assert !transient[i] && !instruction[i];
    CountBound(transient);
    CountBound(instruction);
  }

  lemma InjectionCounts(c: seq<Fault>, s: State, i: nat, injections: seq<nat>, sort: Fault -> bool)
    requires Sized(s) && |s.faults| == |c| && i < |c| && s.injections[i] == 0 && injections == s.injections[i := 1]
    ensures CountTrue(InjectedOf(c, s.(injections := injections), sort))
         == CountTrue(InjectedOf(c, s, sort)) + if sort(c[i]) then 1 else 0
  {
    var b := InjectedOf(c, s, sort);
    assert InjectedOf(c, s.(injections := injections), sort) == b[i := sort(c[i])];
    CountUpdate(b, i, sort(c[i]));
  }

  /** All of `inject_fault` but its requests, for a fault that was not injected before: no table
      is full, the slot it gives up is its own, and a transient fault gets the next live entry. */
  lemma InjectResult(c: seq<Fault>, s: State, i: nat)
    requires Ready(c, s, i)
    ensures var f := s.faults[i]; var r := Inject(s, i);
            var isInstruction := f.kind == Instruction; var isTransient := f.lifetime > 0;
            && f.trignum == i && (isInstruction ==> s.current < |c|) && (isTransient ==> s.liveNumber < |c|)
            && r == s.(
                 slots := s.slots[i := 0], injections := s.injections[i := 1],
                 active := if isInstruction then s.active[s.current := f.address] else s.active,
                 list := if isInstruction then [FaultedTb(f.address, false)] + s.list else s.list,
                 current := if isInstruction then s.current + 1 else s.current,
                 live := if isTransient then s.live[s.liveNumber := Some(i)] else s.live,
                 liveNumber := if isTransient then s.liveNumber + 1 else s.liveNumber,
                 faults := if isTransient then s.faults[i := f.(trignum := s.liveNumber)] else s.faults,
                 requests := r.requests, stepping := r.stepping, refused := r.refused)
  {
    assert FaultOk(c, s, i);
    TablesHaveRoom(c, s, i);
  }

  lemma InjectFaultsAndLives(c: seq<Fault>, s: State, i: nat, r: State)
    requires Ready(c, s, i) && r == Inject(s, i) && Sized(r) && |r.faults| == |c|
    ensures forall j :: 0 <= j < |c| ==> FaultOk(c, r, j) && LiveOk(r, j)
  {
    hide Inject, InjectedOf;
    InjectResult(c, s, i);
    assert FaultOk(c, s, i);
    forall j | 0 <= j < |c| ensures FaultOk(c, r, j) && LiveOk(r, j) {
      assert FaultOk(c, s, j) && LiveOk(s, j);
    }
  }

  lemma InjectShape(c: seq<Fault>, s: State, i: nat)
    requires Ready(c, s, i)
    ensures Shape(c, Inject(s, i))
  {
    hide Inject, LiveOk;
    var r := Inject(s, i);
    InjectResult(c, s, i);
    assert FaultOk(c, s, i);
    InjectFaultsAndLives(c, s, i, r);
    InjectionCounts(c, s, i, r.injections, IsTransient());
    InjectionCounts(c, s, i, r.injections, IsInstruction());
    assert InjectedOf(c, r, IsTransient()) == InjectedOf(c, s.(injections := r.injections), IsTransient());
    assert InjectedOf(c, r, IsInstruction()) == InjectedOf(c, s.(injections := r.injections), IsInstruction());
  }

  // ---- The callbacks ----

  /** What has happened to one fault. */
  datatype Record = Record(hits: nat, lives: nat, injections: nat, reversals: nat, hitcounter: nat, lifetime: nat)

  ghost function RecordOf(s: State, i: nat): Record
    requires Sized(s) && i < |s.faults|
  {
    Record(s.hits[i], s.lives[i], s.injections[i], s.reversals[i], s.faults[i].hitcounter, s.faults[i].lifetime)
  }

  /** Injected once, by its last hit (or by the first TB, if `reached`); reversed once, by the last of its live callbacks. */
  ghost predicate OnTime(f: Fault, r: Record, reached: bool) {
    && r.hitcounter == (if r.hits < f.hitcounter then f.hitcounter - r.hits else 0)
    && r.injections == (if f.hitcounter > 0 then (if r.hits >= f.hitcounter then 1 else 0)
                        else if f.kind == Instruction && reached then 1 else 0)
    && r.lifetime == (if r.lives < f.lifetime then f.lifetime - r.lives else 0)
    && r.reversals == (if f.lifetime > 0 && r.lives >= f.lifetime then 1 else 0)
    && (r.injections == 0 ==> r.lives == 0)
  }

  ghost predicate History(c: seq<Fault>, s: State, upto: nat)
    requires Sized(s) && |c| == |s.faults|
  {
    forall i :: 0 <= i < |c| ==> OnTime(c[i], RecordOf(s, i), i < upto)
  }

  /** Faults from k on still have not been injected. */
  ghost predicate Untouched(s: State, k: nat) {
    && (forall i :: k <= i < |s.injections| ==> s.injections[i] == 0)
    && s.armed == {} && s.watched == {}
  }

  ghost predicate FirstTbInv(c: seq<Fault>, s: State, k: nat) {
    k <= |c| && Shape(c, s) && Untouched(s, k) && History(c, s, k)
  }

  ghost predicate RunningInv(c: seq<Fault>, s: State) {
    Shape(c, s) && History(c, s, |c|)
  }

  ghost predicate Inv(c: seq<Fault>, s: State) {
    if s.started then RunningInv(c, s) else FirstTbInv(c, s, 0)
  }

  lemma ShapeIgnores(c: seq<Fault>, s: State, r: State)
    requires Shape(c, s)
    requires r == s.(slots := r.slots, requests := r.requests, stepping := r.stepping, refused := r.refused, started := r.started,
                     armed := r.armed, active := r.active, captured := r.captured, done := r.done, list := r.list,
                     hits := r.hits, lives := r.lives, reversals := r.reversals) && Sized(r)
    ensures Shape(c, r)
  {
    forall i | 0 <= i < |c| ensures FaultOk(c, r, i) { assert FaultOk(c, s, i); }
    forall k | 0 <= k < |c| ensures LiveOk(r, k) { assert LiveOk(s, k); }
    assert InjectedOf(c, r, IsTransient()) == InjectedOf(c, s, IsTransient());
    assert InjectedOf(c, r, IsInstruction()) == InjectedOf(c, s, IsInstruction());
  }

  /** One fault at the first TB: injected now, or imminent, or left alone. */
  lemma FirstTbFaultResult(c: seq<Fault>, s: State, k: nat)
    requires Shape(c, s) && k < |c| && Untouched(s, k)
    ensures var f := s.faults[k]; var a := AddRequest(s); var r := FirstTbFault(s, k);
            if f.hitcounter == 0 && f.kind == Instruction then
              && Ready(c, a, k) && Inject(a, k).faults[k].hitcounter == 0
              && r == ClearSlot(Inject(a, k), Inject(a, k).faults[k].trignum)
            else r == if f.hitcounter == 1 then a else s
  {
    var a := AddRequest(s);
    ShapeIgnores(c, s, a);
    if s.faults[k].hitcounter == 0 && s.faults[k].kind == Instruction {
      InjectResult(c, a, k);
    }
  }

  lemma FirstTbFaultKeepsShape(c: seq<Fault>, s: State, k: nat)
    requires Shape(c, s) && k < |c| && Untouched(s, k)
    ensures Shape(c, FirstTbFault(s, k)) && Untouched(FirstTbFault(s, k), k + 1)
  {
    hide FaultOk, LiveOk, InjectedOf, Inject, FirstTbFault;
    var r, a := FirstTbFault(s, k), AddRequest(s);
    FirstTbFaultResult(c, s, k);
    if s.faults[k].hitcounter == 0 && s.faults[k].kind == Instruction {
      InjectResult(c, a, k);
      InjectShape(c, a, k);
      ShapeIgnores(c, Inject(a, k), r);
    } else {
      ShapeIgnores(c, s, r);
    }
  }

  lemma FirstTbFaultKeepsHistory(c: seq<Fault>, s: State, k: nat)
    requires Shape(c, s) && k < |c| && Untouched(s, k) && History(c, s, k)
    ensures Shape(c, FirstTbFault(s, k)) && History(c, FirstTbFault(s, k), k + 1)
  {
    hide LiveOk, InjectedOf, Inject, FirstTbFault;
    FirstTbFaultKeepsShape(c, s, k);
    FirstTbFaultResult(c, s, k);
    var r, f := FirstTbFault(s, k), s.faults[k];
    assert FaultOk(c, s, k) && OnTime(c[k], RecordOf(s, k), false);
    if f.hitcounter == 0 && f.kind == Instruction { InjectResult(c, AddRequest(s), k); }
    forall i | 0 <= i < |c| ensures OnTime(c[i], RecordOf(r, i), i < k + 1) {
      assert OnTime(c[i], RecordOf(s, i), i < k);
      assert i != k ==> RecordOf(r, i) == RecordOf(s, i);
    }
  }

  lemma FirstTbFaultKeeps(c: seq<Fault>, s: State, k: nat, r: State)
    requires FirstTbInv(c, s, k) && k < |c| && r == FirstTbFault(s, k)
    ensures FirstTbInv(c, r, k + 1)
  {
    FirstTbFaultKeepsShape(c, s, k);
    FirstTbFaultKeepsHistory(c, s, k);
  }

  lemma {:induction false} FirstTbKeeps(c: seq<Fault>, s: State, n: nat)
    requires Sized(s) && |s.faults| == |c| && FirstTbInv(c, s, 0) && n <= |c|
    ensures FirstTbInv(c, FirstTb(s, n), n)
  {
    hide Shape, Untouched, History, FirstTbFault;
    if n > 0 {
      FirstTbKeeps(c, s, n - 1);
      FirstTbFaultKeeps(c, FirstTb(s, n - 1), n - 1, FirstTb(s, n));
    }
  }

  /** A trigger callback that does not inject: only the fault's hit counter changes. */
  lemma CountDownKeeps(c: seq<Fault>, s: State, i: nat, b: State)
    requires Shape(c, s) && i < |c| && s.faults[i].hitcounter > 0
    requires b == s.(hits := b.hits, faults := s.faults[i := s.faults[i].(hitcounter := s.faults[i].hitcounter - 1)]) && Sized(b)
    ensures Shape(c, b) && s.injections[i] == 0
  {
    assert FaultOk(c, s, i);
    forall j | 0 <= j < |c| ensures FaultOk(c, b, j) && LiveOk(b, j) {
      assert FaultOk(c, s, j) && LiveOk(s, j);
    }
    assert InjectedOf(c, b, IsTransient()) == InjectedOf(c, s, IsTransient());
    assert InjectedOf(c, b, IsInstruction()) == InjectedOf(c, s, IsInstruction());
  }

  /** The state between the two parts of a trigger callback: counted, not yet injected. */
  ghost function Counted(s: State, i: nat): State
    requires Sized(s) && i < |s.faults| && s.faults[i].hitcounter > 0
  {
    s.(hits := s.hits[i := s.hits[i] + 1], faults := s.faults[i := s.faults[i].(hitcounter := s.faults[i].hitcounter - 1)])
  }

  /** The last hit injects, the one before it asks for single stepping, the others only count. */
  lemma TriggerResult(c: seq<Fault>, s: State, i: nat)
    requires Shape(c, s) && i < |c|
    ensures var n, r := s.faults[i].hitcounter, TriggerCallback(s, i);
            if n == 0 then r == s.(hits := s.hits[i := s.hits[i] + 1])
            else Shape(c, Counted(s, i)) && s.injections[i] == 0
                 && if n == 1 then Ready(c, Counted(s, i), i) && r == Inject(Counted(s, i), i)
                    else r == if n == 2 then AddRequest(Counted(s, i)) else Counted(s, i)
  {
    hide FaultOk, LiveOk, InjectedOf, Inject;
    if s.faults[i].hitcounter > 0 {
      CountDownKeeps(c, s, i, Counted(s, i));
      if s.faults[i].hitcounter == 1 { InjectResult(c, Counted(s, i), i); }
    }
  }

  lemma TriggerKeepsShape(c: seq<Fault>, s: State, i: nat)
    requires Shape(c, s) && i < |c|
    ensures Shape(c, TriggerCallback(s, i))
  {
    hide FaultOk, LiveOk, InjectedOf, TriggerCallback, Inject;
    TriggerResult(c, s, i);
    if s.faults[i].hitcounter == 0 {
      ShapeIgnores(c, s, TriggerCallback(s, i));
    } else if s.faults[i].hitcounter == 1 {
      InjectShape(c, Counted(s, i), i);
    } else {
      ShapeIgnores(c, Counted(s, i), TriggerCallback(s, i));
    }
  }

  /** A trigger callback concerns its own fault only. */
  lemma TriggerRecords(c: seq<Fault>, s: State, i: nat, j: nat)
    requires Shape(c, s) && i < |c| && j < |c|
    ensures Sized(TriggerCallback(s, i)) && |TriggerCallback(s, i).faults| == |c|
    ensures var r := RecordOf(s, j);
            RecordOf(TriggerCallback(s, i), j) ==
              if j != i then r
              else r.(hits := r.hits + 1, hitcounter := if r.hitcounter == 0 then 0 else r.hitcounter - 1,
                      injections := if r.hitcounter == 1 then 1 else r.injections)
  {
    hide FaultOk, LiveOk, InjectedOf, Inject, TriggerCallback, CountTrue;
    TriggerResult(c, s, i);
    if s.faults[i].hitcounter == 1 { InjectResult(c, Counted(s, i), i); }
  }

  lemma TriggerKeeps(c: seq<Fault>, s: State, i: nat)
    requires RunningInv(c, s) && i < |c|
    ensures RunningInv(c, TriggerCallback(s, i))
  {
    hide FaultOk, LiveOk, InjectedOf, TriggerCallback;
    TriggerKeepsShape(c, s, i);
    var r := TriggerCallback(s, i);
    forall j | 0 <= j < |c| ensures OnTime(c[j], RecordOf(r, j), j < |c|) {
      assert OnTime(c[j], RecordOf(s, j), true);
      TriggerRecords(c, s, i, j);
    }
  }

  /** What a live callback does to a fault that was injected. */
  lemma ExecResult(c: seq<Fault>, s: State, i: nat)
    requires Shape(c, s) && i < |c| && s.injections[i] == 1
    ensures var f := s.faults[i]; var r := ExecCallback(s, i); var ends := f.lifetime == 1;
            && (ends ==> 0 <= f.trignum < s.liveNumber && s.live[f.trignum] == Some(i))
            && (!ends ==> r.requests == s.requests && r.stepping == s.stepping && r.refused == s.refused)
            && r == s.(lives := s.lives[i := s.lives[i] + 1],
                    faults := if f.lifetime == 0 then s.faults else s.faults[i := f.(lifetime := f.lifetime - 1)],
                    reversals := if ends then s.reversals[i := s.reversals[i] + 1] else s.reversals,
                    requests := r.requests, stepping := r.stepping, refused := r.refused,
                    live := if ends then s.live[f.trignum := None] else s.live)
  {
    assert FaultOk(c, s, i);
  }

  lemma ExecKeepsShape(c: seq<Fault>, s: State, i: nat)
    requires Shape(c, s) && i < |c| && s.injections[i] == 1
    ensures Shape(c, ExecCallback(s, i))
  {
    hide ExecCallback;
    var r := ExecCallback(s, i);
    ExecResult(c, s, i);
    assert FaultOk(c, s, i);
    forall j | 0 <= j < |c| ensures FaultOk(c, r, j) { assert FaultOk(c, s, j); }
    forall j | 0 <= j < |c| ensures LiveOk(r, j) { assert LiveOk(s, j); }
    assert InjectedOf(c, r, IsTransient()) == InjectedOf(c, s, IsTransient());
    assert InjectedOf(c, r, IsInstruction()) == InjectedOf(c, s, IsInstruction());
  }

  lemma ExecKeeps(c: seq<Fault>, s: State, i: nat)
    requires RunningInv(c, s) && i < |c| && s.injections[i] == 1
    ensures RunningInv(c, ExecCallback(s, i))
  {
    hide LiveOk, InjectedOf, ExecCallback;
    var r := ExecCallback(s, i);
    ExecKeepsShape(c, s, i);
    ExecResult(c, s, i);
    forall j | 0 <= j < |c| ensures OnTime(c[j], RecordOf(r, j), j < |c|) {
      assert OnTime(c[j], RecordOf(s, j), true);
    }
  }

  // ---- Translation ----

  lemma EvaluateLiveKeeps(c: seq<Fault>, s: State, k: nat)
    requires Shape(c, s) && k < |s.live|
    ensures var r := EvaluateLive(s, k); Shape(c, r) && r == s.(watched := r.watched)
  {
    var r := EvaluateLive(s, k);
    assert LiveOk(s, k);
    forall i | 0 <= i < |c| ensures FaultOk(c, r, i) { assert FaultOk(c, s, i); }
    forall j | 0 <= j < |c| ensures LiveOk(r, j) { assert LiveOk(s, j); }
    assert InjectedOf(c, r, IsTransient()) == InjectedOf(c, s, IsTransient());
    assert InjectedOf(c, r, IsInstruction()) == InjectedOf(c, s, IsInstruction());
  }

  /** No entry of the live table has lifetime 0, so translation only registers callbacks. */
  lemma {:induction false} EvaluateLivesKeeps(c: seq<Fault>, s: State, n: nat)
    requires Shape(c, s) && n <= |s.live|
    ensures var r := EvaluateLives(s, n); Shape(c, r) && r == s.(watched := r.watched)
  {
    hide EvaluateLive, LiveOk, InjectedOf;
    if n > 0 {
      EvaluateLivesKeeps(c, s, n - 1);
      EvaluateLiveKeeps(c, EvaluateLives(s, n - 1), n - 1);
    }
  }

  /** Capturing faulted TBs touches nothing else. */
  ghost predicate CapturedFrom(s: State, r: State) {
    && |r.active| == |s.active| && |r.captured| == |s.captured|
    && r == s.(active := r.active, captured := r.captured, done := r.done, list := r.list,
               requests := r.requests, stepping := r.stepping, refused := r.refused)
  }

  lemma CheckEntryCaptures(s: State, vaddr: int, size: int, k: nat)
    requires k < |s.active| == |s.captured|
    ensures CapturedFrom(s, CheckEntry(s, vaddr, size, k))
  {
  }

  lemma {:induction false} CheckEntriesCapture(s: State, vaddr: int, size: int, n: nat)
    requires n <= |s.active| == |s.captured|
    ensures CapturedFrom(s, CheckEntries(s, vaddr, size, n))
  {
    hide CheckEntry;
    if n > 0 {
      CheckEntriesCapture(s, vaddr, size, n - 1);
      CheckEntryCaptures(CheckEntries(s, vaddr, size, n - 1), vaddr, size, n - 1);
    }
  }

  lemma SameRecords(c: seq<Fault>, s: State, r: State, upto: nat)
    requires Sized(s) && Sized(r) && |c| == |s.faults| && History(c, s, upto)
    requires r.faults == s.faults && r.hits == s.hits && r.lives == s.lives
    requires r.injections == s.injections && r.reversals == s.reversals
    ensures History(c, r, upto)
  {
    forall i | 0 <= i < |c| ensures OnTime(c[i], RecordOf(r, i), i < upto) {
      assert OnTime(c[i], RecordOf(s, i), i < upto);
    }
  }

  lemma CheckKeeps(c: seq<Fault>, s: State, vaddr: int, size: int)
    requires RunningInv(c, s)
    ensures var r := CheckFaultedTbs(s, vaddr, size); RunningInv(c, r) && CapturedFrom(s, r)
  {
    hide FaultOk, LiveOk, InjectedOf, CheckEntries;
    CheckEntriesCapture(s, vaddr, size, s.current);
    var r := CheckFaultedTbs(s, vaddr, size);
    ShapeIgnores(c, s, r);
    SameRecords(c, s, r, |c|);
  }

  /** In a running plugin translation registers callbacks before it captures. */
  ghost function Evaluated(s: State, vaddr: int, size: int): State
    requires Sized(s)
  {
    EvaluateLives(EvaluateSlots(s, vaddr, size, |s.faults|), s.liveNumber)
  }

  lemma EvaluationKeeps(c: seq<Fault>, s: State, vaddr: int, size: int)
    requires RunningInv(c, s)
    ensures var r := Evaluated(s, vaddr, size); RunningInv(c, r) && r == s.(armed := r.armed, watched := r.watched)
  {
    hide FaultOk, LiveOk, InjectedOf, EvaluateLives;
    var e := EvaluateSlots(s, vaddr, size, |c|);
    ShapeIgnores(c, s, e);
    EvaluateLivesKeeps(c, e, s.liveNumber);
    SameRecords(c, s, EvaluateLives(e, s.liveNumber), |c|);
  }

  lemma FirstTranslationKeeps(c: seq<Fault>, s: State)
    requires FirstTbInv(c, s, 0)
    ensures RunningInv(c, FirstTb(s, |c|).(started := true))
  {
    hide FaultOk, LiveOk, InjectedOf, FirstTb;
    FirstTbKeeps(c, s, |c|);
    var r := FirstTb(s, |c|);
    ShapeIgnores(c, r, r.(started := true));
    SameRecords(c, r, r.(started := true), |c|);
  }

  lemma TranslateKeeps(c: seq<Fault>, s: State, vaddr: int, size: int)
    requires Inv(c, s)
    ensures RunningInv(c, Translate(s, vaddr, size)) && Translate(s, vaddr, size).started
  {
    hide FaultOk, LiveOk, InjectedOf, History, FirstTb, CheckFaultedTbs, EvaluateSlots, EvaluateLives;
    if s.started {
      EvaluationKeeps(c, s, vaddr, size);
      CheckKeeps(c, Evaluated(s, vaddr, size), vaddr, size);
    } else {
      FirstTranslationKeeps(c, s);
      CheckKeeps(c, FirstTb(s, |c|).(started := true), vaddr, size);
    }
  }

  // ---- Every run ----

  lemma WatchedIsInjected(c: seq<Fault>, s: State, i: nat)
    requires Shape(c, s) && i < |c| && i in s.watched
    ensures s.injections[i] == 1
  {
    assert FaultOk(c, s, i);
  }

  lemma StepKeeps(c: seq<Fault>, s: State, e: Event)
    requires Inv(c, s) && Enabled(s, e)
    ensures Inv(c, Step(s, e)) && (s.started ==> Step(s, e).started)
  {
    hide FaultOk, LiveOk, InjectedOf, TriggerCallback, ExecCallback, Translate;
    match e
    case TranslateTb(vaddr, size) =>
      TranslateKeeps(c, s, vaddr, size);
    case TriggerHit(i) =>
      TriggerKeeps(c, s, i);
      TriggerKeepsStarted(s, i);
    case LiveHit(i) =>
      WatchedIsInjected(c, s, i);
      ExecKeeps(c, s, i);
      ExecResult(c, s, i);
  }

  lemma TriggerKeepsStarted(s: State, i: nat)
    requires Sized(s) && i < |s.faults|
    ensures TriggerCallback(s, i).started == s.started
  {
  }

  /** The states of a run: one more than its events, each event possible when it happens. */
  ghost predicate IsRun(c: seq<Fault>, es: seq<Event>, ss: seq<State>) {
    && |ss| == |es| + 1 && ss[0] == Registered(c)
    && forall k :: 0 <= k < |es| ==> IsStep(ss[k], es[k], ss[k + 1])
  }

  ghost predicate IsStep(s: State, e: Event, r: State) {
    Sized(s) && Enabled(s, e) && r == Step(s, e)
  }

  lemma StartKeeps(c: seq<Fault>)
    ensures Inv(c, Registered(c))
  {
    var s := Registered(c);
    forall i | 0 <= i < |c| ensures FaultOk(c, s, i) && LiveOk(s, i) {}
    AllFalse(InjectedOf(c, s, IsTransient()));
    AllFalse(InjectedOf(c, s, IsInstruction()));
  }

  lemma {:induction false} RunKeeps(c: seq<Fault>, es: seq<Event>, ss: seq<State>, k: nat)
    requires IsRun(c, es, ss) && k <= |es|
    ensures Inv(c, ss[k])
  {
    hide Shape, History, FirstTb, Step, Untouched;
    if k == 0 {
      StartKeeps(c);
    } else {
      RunKeeps(c, es, ss, k - 1);
      assert IsStep(ss[k - 1], es[k - 1], ss[k - 1 + 1]);
      StepKeeps(c, ss[k - 1], es[k - 1]);
    }
  }

  /** Only the first translation finds the plugin not started. */
  lemma {:induction false} RunStarts(c: seq<Fault>, es: seq<Event>, ss: seq<State>, k: nat)
    requires IsRun(c, es, ss) && k <= |es|
    ensures if k == 0 then ss[k] == Registered(c) else ss[k].started
  {
    hide Inv, Translate, TriggerCallback, ExecCallback;
    if k > 0 {
      RunKeeps(c, es, ss, k - 1);
      assert IsStep(ss[k - 1], es[k - 1], ss[k - 1 + 1]);
      RunStarts(c, es, ss, k - 1);
      if k == 1 {
        TranslateKeeps(c, ss[0], es[0].vaddr, es[0].size);
      } else {
        StepKeeps(c, ss[k - 1], es[k - 1]);
      }
    }
  }

  /** The error branches cannot be reached: there is room in the live table for every transient
      fault still to come, and no entry of it has lifetime 0. */
  lemma TablesNeverOverflow(c: seq<Fault>, es: seq<Event>, ss: seq<State>, k: nat, i: nat)
    requires IsRun(c, es, ss) && k <= |es| && i < |c|
    ensures var s := ss[k];
            && Sized(s) && |s.faults| == |c|
            && (s.injections[i] == 0 && c[i].lifetime > 0 ==> s.liveNumber < |c|)
            && (s.injections[i] == 0 && c[i].kind == Instruction ==> s.current < |c|)
            && (s.live[i].Some? ==> s.live[i].value < |c| && s.faults[s.live[i].value].lifetime > 0)
  {
    RunKeeps(c, es, ss, k);
    if ss[k].injections[i] == 0 { TablesHaveRoom(c, ss[k], i); }
    assert LiveOk(ss[k], i);
  }

  ghost function CountEvents(es: seq<Event>, e: Event, k: nat): nat
    requires k <= |es|
  {
    if k == 0 then 0 else CountEvents(es, e, k - 1) + if es[k - 1] == e then 1 else 0
  }

  lemma RunSized(c: seq<Fault>, es: seq<Event>, ss: seq<State>, k: nat)
    requires IsRun(c, es, ss) && k <= |es|
    ensures Sized(ss[k]) && |ss[k].faults| == |c|
  {
    RunKeeps(c, es, ss, k);
  }

  /** The histories count the events of the run. */
  lemma {:induction false} HistoryCountsEvents(c: seq<Fault>, es: seq<Event>, ss: seq<State>, k: nat, i: nat)
    requires IsRun(c, es, ss) && k <= |es| && i < |c|
    ensures Sized(ss[k]) && |ss[k].faults| == |c|
    ensures ss[k].hits[i] == CountEvents(es, TriggerHit(i), k) && ss[k].lives[i] == CountEvents(es, LiveHit(i), k)
  {
    hide Step, Enabled;
    RunSized(c, es, ss, k);
    if k > 0 {
      HistoryCountsEvents(c, es, ss, k - 1, i);
      assert IsStep(ss[k - 1], es[k - 1], ss[k - 1 + 1]);
      StepCounts(c, ss[k - 1], es[k - 1], i, ss[k]);
    }
  }

  ghost predicate SameCounters(s: State, r: State) {
    r.hits == s.hits && r.lives == s.lives
  }

  lemma InjectCounters(s: State, i: nat)
    requires Sized(s) && i < |s.faults|
    ensures SameCounters(s, Inject(s, i))
  {
  }

  lemma FirstTbFaultCounters(s: State, i: nat, r: State)
    requires Sized(s) && i < |s.faults| && r == FirstTbFault(s, i)
    ensures SameCounters(s, r)
  {
    hide Inject;
    InjectCounters(AddRequest(s), i);
  }

  lemma {:induction false} FirstTbCounters(s: State, n: nat)
    requires Sized(s) && n <= |s.faults|
    ensures SameCounters(s, FirstTb(s, n))
  {
    hide FirstTbFault;
    if n > 0 {
      FirstTbCounters(s, n - 1);
      FirstTbFaultCounters(FirstTb(s, n - 1), n - 1, FirstTb(s, n));
    }
  }

  lemma TriggerCounters(s: State, i: nat)
    requires Sized(s) && i < |s.faults|
    ensures SameCounters(s.(hits := s.hits[i := s.hits[i] + 1]), TriggerCallback(s, i))
  {
    if s.faults[i].hitcounter > 0 { InjectCounters(Counted(s, i), i); }
  }

  lemma ExecCounters(s: State, i: nat)
    requires Sized(s) && i < |s.faults|
    ensures SameCounters(s.(lives := s.lives[i := s.lives[i] + 1]), ExecCallback(s, i))
  {
  }

  lemma TranslateCounters(s: State, vaddr: int, size: int)
    requires Sized(s)
    ensures SameCounters(s, Translate(s, vaddr, size))
  {
    hide FirstTb, CheckEntries;
    var a := if s.started then Evaluated(s, vaddr, size) else FirstTb(s, |s.faults|).(started := true);
    FirstTbCounters(s, |s.faults|);
    CheckEntriesCapture(a, vaddr, size, a.current);
  }

  lemma StepCounts(c: seq<Fault>, s: State, e: Event, i: nat, r: State)
    requires IsStep(s, e, r) && |s.faults| == |c| && i < |c| && Sized(r) && |r.faults| == |c|
    ensures r.hits[i] == s.hits[i] + if e == TriggerHit(i) then 1 else 0
    ensures r.lives[i] == s.lives[i] + if e == LiveHit(i) then 1 else 0
  {
    hide Translate, TriggerCallback, ExecCallback;
    match e
    case TranslateTb(vaddr, size) => TranslateCounters(s, vaddr, size);
    case TriggerHit(j) => TriggerCounters(s, j);
    case LiveHit(j) => ExecCounters(s, j);
  }

  /** Each fault is injected at most once, by the trigger callback that completes its hit counter,
      or by the first TB; and reversed at most once, by the last of its live callbacks. */
  lemma InjectedAndReversedOnTime(c: seq<Fault>, es: seq<Event>, ss: seq<State>, k: nat, i: nat)
    requires IsRun(c, es, ss) && k <= |es| && i < |c|
    ensures var s, f := ss[k], c[i];
            var hits, lives := CountEvents(es, TriggerHit(i), k), CountEvents(es, LiveHit(i), k);
            && Sized(s) && |s.faults| == |c|
            && s.injections[i] == (if f.hitcounter > 0 then (if hits >= f.hitcounter then 1 else 0)
                                   else if f.kind == Instruction && k > 0 then 1 else 0)
            && s.reversals[i] == (if f.lifetime > 0 && lives >= f.lifetime then 1 else 0)
            && (lives > 0 ==> s.injections[i] == 1)
            && s.liveNumber <= |c|
  {
    RunKeeps(c, es, ss, k);
    RunStarts(c, es, ss, k);
    HistoryCountsEvents(c, es, ss, k, i);
    assert OnTime(c[i], RecordOf(ss[k], i), ss[k].started);
  }

  // ---- Reachable states ----

  ghost predicate Reachable(c: seq<Fault>, s: State) {
    exists es, ss :: IsRun(c, es, ss) && ss[|es|] == s
  }

  lemma StartIsReachable(c: seq<Fault>)
    ensures Reachable(c, Registered(c))
  {
    assert IsRun(c, [], [Registered(c)]);
  }

  lemma RunExtends(c: seq<Fault>, es: seq<Event>, ss: seq<State>, e: Event)
    requires IsRun(c, es, ss) && Enabled(ss[|es|], e)
    ensures Sized(ss[|es|]) && |ss[|es|].faults| == |c| && IsRun(c, es + [e], ss + [Step(ss[|es|], e)])
  {
    hide Step, Enabled, Inv, Registered;
    RunSized(c, es, ss, |es|);
    var es', ss' := es + [e], ss + [Step(ss[|es|], e)];
    forall k | 0 <= k < |es'| ensures IsStep(ss'[k], es'[k], ss'[k + 1]) {
      if k < |es| { assert IsStep(ss[k], es[k], ss[k + 1]); }
    }
  }

  lemma NextIsReachable(c: seq<Fault>, s: State, e: Event)
    requires Reachable(c, s) && Enabled(s, e)
    ensures Sized(s) && |s.faults| == |c| && Reachable(c, Step(s, e))
  {
    hide Step, Enabled, Registered;
    var es, ss :| IsRun(c, es, ss) && ss[|es|] == s;
    RunExtends(c, es, ss, e);
    var es', ss' := es + [e], ss + [Step(s, e)];
    assert IsRun(c, es', ss') && ss'[|es'|] == Step(s, e);
  }

  // ---- What a translation registers ----

  lemma {:induction false} LivesWatched(c: seq<Fault>, s: State, n: nat, i: nat)
    requires Shape(c, s) && n <= |s.live| && i < |c| && s.injections[i] == 1 && s.faults[i].lifetime > 0
    requires 0 <= s.faults[i].trignum < n
    ensures i in EvaluateLives(s, n).watched
  {
    hide LiveOk, InjectedOf;
    assert FaultOk(c, s, i);
    EvaluateLivesKeeps(c, s, n - 1);
    if s.faults[i].trignum < n - 1 { LivesWatched(c, s, n - 1, i); }
  }

  /** Whatever TB a started plugin translates, afterwards each fault in effect has its live callback. */
  lemma TranslationWatches(c: seq<Fault>, s: State, e: Event, i: nat)
    requires Reachable(c, s) && s.started && e.TranslateTb? && i < |c|
    requires i < |s.injections| && i < |s.faults| && s.injections[i] == 1 && s.faults[i].lifetime > 0
    ensures Sized(s) && i in Step(s, e).watched
  {
    hide Reachable, LiveOk, InjectedOf, Registered, EvaluateLives, EvaluateSlots, CheckFaultedTbs;
    ReachableKeeps(c, s);
    var a := EvaluateSlots(s, e.vaddr, e.size, |c|);
    ShapeIgnores(c, s, a);
    assert FaultOk(c, s, i);
    LivesWatched(c, a, s.liveNumber, i);
    EvaluationKeeps(c, s, e.vaddr, e.size);
    CheckKeeps(c, Evaluated(s, e.vaddr, e.size), e.vaddr, e.size);
  }

  lemma ReachableKeeps(c: seq<Fault>, s: State)
    requires Reachable(c, s)
    ensures Inv(c, s) && (s.started || s == Registered(c))
  {
    hide Inv, Registered;
    var es, ss :| IsRun(c, es, ss) && ss[|es|] == s;
    RunKeeps(c, es, ss, |es|);
    RunStarts(c, es, ss, |es|);
  }
}
