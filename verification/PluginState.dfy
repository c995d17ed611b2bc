/** The replay plugin as a state machine: what every callback does to the fault list, the
    trigger and live tables, the single-step requests and the faulted-TB table. */
module PluginState {
  import opened Wrappers

  datatype Kind = Data | Instruction | Register

  datatype Fault = Fault(address: int, kind: Kind, lifetime: nat, triggerAddress: int, hitcounter: nat, trignum: int)

  /** An entry of the faulted-TB list; `assembled` once its disassembly was saved. */
  datatype FaultedTb = FaultedTb(address: int, assembled: bool)

  /** The value written over a served entry of the active-trigger table. */
  const SERVED := 0xdeadbeaf

  /** The plugin's globals, and what has happened so far. `hits`, `lives`, `injections` and
      `reversals` count, for each fault, its trigger callbacks, its live callbacks, and the calls
      of inject and reverse for it; `refused` counts the calls that gave back a single-step
      request when there was none; `captured` tells which entries of the active-trigger table
      were served; `armed` and `watched` are the faults whose callbacks were registered. */
  datatype State = State(
    faults: seq<Fault>, slots: seq<int>, live: seq<Option<nat>>, liveNumber: nat, started: bool,
    requests: nat, stepping: bool, refused: nat,
    active: seq<int>, captured: seq<bool>, current: nat, done: nat, list: seq<FaultedTb>,
    hits: seq<nat>, lives: seq<nat>, injections: seq<nat>, reversals: seq<nat>,
    armed: set<nat>, watched: set<nat>)

  ghost predicate Sized(s: State) {
    var n := |s.faults|;
    && |s.slots| == n && |s.live| == n && |s.active| == n && |s.captured| == n
    && |s.hits| == n && |s.lives| == n && |s.injections| == n && |s.reversals| == n
    && s.liveNumber <= n && s.current <= n
  }

  // ---- singlestep.c ----

  function AddRequest(s: State): State {
    s.(requests := s.requests + 1, stepping := true)
  }

  function RemoveRequest(s: State): (r: State)
    ensures r == s.(requests := r.requests, stepping := r.stepping, refused := r.refused)
  {
    if s.requests != 0 then s.(requests := s.requests - 1, stepping := s.requests - 1 != 0)
    else s.(refused := s.refused + 1)
  }

  // ---- tb_faulted_collection.c ----

  function RegisterFaultedTb(s: State, address: int): (r: State)
    ensures |r.active| == |s.active| && (s.current <= |s.active| ==> r.current <= |r.active|)
    ensures r == s.(requests := r.requests, stepping := r.stepping, list := r.list, active := r.active, current := r.current)
  {
    if s.current >= |s.active| then s
    else
      var r := AddRequest(s);
      r.(list := [FaultedTb(address, false)] + s.list, active := s.active[s.current := address], current := s.current + 1)
  }

  function FindFaultedTb(list: seq<FaultedTb>, address: int): (r: Option<nat>)
    ensures r.Some? ==> r.value < |list| && list[r.value].address == address
                        && forall i :: 0 <= i < r.value ==> list[i].address != address
    ensures r.None? ==> forall i :: 0 <= i < |list| ==> list[i].address != address
  {
    if list == [] then None
    else if list[0].address == address then Some(0)
    else
      var r := FindFaultedTb(list[1..], address);
      if r.Some? then Some(r.value + 1) else None
  }

  function InsertFaultedAssembly(s: State, address: int): State {
    var item := FindFaultedTb(s.list, address);
    if item.None? then s
    else RemoveRequest(s).(list := s.list[item.value := FaultedTb(address, true)])
  }

  predicate InTb(vaddr: int, size: int, address: int) {
    address >= vaddr && address <= vaddr + size
  }

  function CheckEntry(s: State, vaddr: int, size: int, k: nat): (r: State)
    requires k < |s.active| == |s.captured|
    ensures |r.active| == |s.active| && |r.captured| == |s.captured|
  {
    if InTb(vaddr, size, s.active[k]) then
      var r := InsertFaultedAssembly(s, s.active[k]);
      r.(active := s.active[k := SERVED], captured := s.captured[k := true], done := s.done + 1)
    else s
  }

  function CheckEntries(s: State, vaddr: int, size: int, n: nat): (r: State)
    requires n <= |s.active| == |s.captured|
    ensures |r.active| == |s.active| && |r.captured| == |s.captured|
  {
    if n == 0 then s else CheckEntry(CheckEntries(s, vaddr, size, n - 1), vaddr, size, n - 1)
  }

  function CheckFaultedTbs(s: State, vaddr: int, size: int): State
    requires s.current <= |s.active| == |s.captured|
  {
    if s.done == s.current then s else CheckEntries(s, vaddr, size, s.current)
  }

  // ---- fault_injection.c ----

  /** What `register_live_faults_callback` returns: the next free entry, or -1 when all are used. */
  function LiveIndex(s: State): int {
    if s.liveNumber == |s.faults| then -1 else s.liveNumber
  }

  function RegisterLive(s: State, i: nat): State
    requires |s.live| == |s.faults| && s.liveNumber <= |s.faults|
  {
    if s.liveNumber == |s.faults| then s
    else AddRequest(s).(live := s.live[s.liveNumber := Some(i)], liveNumber := s.liveNumber + 1)
  }

  function ClearSlot(s: State, k: int): (r: State)
    ensures |r.slots| == |s.slots| && r == s.(slots := r.slots)
  {
    if 0 <= k < |s.slots| then s.(slots := s.slots[k := 0]) else s
  }

  /** First half of `inject_fault`: the fault takes effect, its trigger and its request go. */
  function Apply(s: State, i: nat): (r: State)
    requires Sized(s) && i < |s.faults|
    ensures Sized(r) && r.faults == s.faults && r.live == s.live && r.liveNumber == s.liveNumber
  {
    var f := s.faults[i];
    var a := if f.kind == Instruction then RegisterFaultedTb(s, f.address) else s;
    RemoveRequest(ClearSlot(a, f.trignum)).(injections := s.injections[i := s.injections[i] + 1])
  }

  /** Second half: a transient fault enters the live table, which gives it a new number. */
  function Enliven(s: State, i: nat): (r: State)
    requires Sized(s) && i < |s.faults|
    ensures Sized(r) && |r.faults| == |s.faults|
  {
    var f := s.faults[i];
    if f.lifetime == 0 then s
    else RegisterLive(s, i).(faults := s.faults[i := f.(trignum := LiveIndex(s))])
  }

  function Inject(s: State, i: nat): (r: State)
    requires Sized(s) && i < |s.faults|
    ensures Sized(r) && |r.faults| == |s.faults|
  {
    Enliven(Apply(s, i), i)
  }

  function Reverse(s: State, i: nat): State
    requires i < |s.reversals|
  {
    RemoveRequest(s).(reversals := s.reversals[i := s.reversals[i] + 1])
  }

  // ---- faultplugin.c ----

  function FirstTbFault(s: State, i: nat): (r: State)
    requires Sized(s) && i < |s.faults|
    ensures Sized(r) && |r.faults| == |s.faults|
  {
    var f := s.faults[i];
    var a := if f.hitcounter == 0 && f.kind == Instruction
             then var inj := Inject(AddRequest(s), i); ClearSlot(inj, inj.faults[i].trignum)
             else s;
    if a.faults[i].hitcounter == 1 then AddRequest(a) else a
  }

  function TriggerCallback(s: State, i: nat): State
    requires Sized(s) && i < |s.faults|
  {
    var a := s.(hits := s.hits[i := s.hits[i] + 1]);
    var f := s.faults[i];
    if f.hitcounter == 0 then a
    else
      var b := a.(faults := a.faults[i := f.(hitcounter := f.hitcounter - 1)]);
      var c := if f.hitcounter - 1 == 0 then Inject(b, i) else b;
      if c.faults[i].hitcounter == 1 then AddRequest(c) else c
  }

  function ExecCallback(s: State, i: nat): State
    requires Sized(s) && i < |s.faults|
  {
    var a := s.(lives := s.lives[i := s.lives[i] + 1]);
    var f := s.faults[i];
    if f.lifetime == 0 then a
    else
      var b := a.(faults := a.faults[i := f.(lifetime := f.lifetime - 1)]);
      if f.lifetime - 1 == 0 then
        var c := Reverse(b, i);
        if 0 <= f.trignum < |c.live| then c.(live := c.live[f.trignum := None]) else c
      else b
  }

  /** `get_fault_struct_by_trigger`: the first fault with this address and number. */
  function Lookup(faults: seq<Fault>, address: int, number: int): (r: Option<nat>)
    ensures r.Some? ==> r.value < |faults| && Matches(faults[r.value], address, number)
                        && forall j :: 0 <= j < r.value ==> !Matches(faults[j], address, number)
    ensures r.None? ==> forall j :: 0 <= j < |faults| ==> !Matches(faults[j], address, number)
  {
    if faults == [] then None
    else if Matches(faults[0], address, number) then Some(0)
    else
      var r := Lookup(faults[1..], address, number);
      if r.Some? then
        assert forall j :: 1 <= j < r.value + 1 ==> faults[j] == faults[1..][j - 1];
        Some(r.value + 1)
      else
        assert forall j :: 1 <= j < |faults| ==> faults[j] == faults[1..][j - 1];
        None
  }

  predicate Matches(f: Fault, address: int, number: int) {
    f.triggerAddress == address && f.trignum == number
  }

  function EvaluateTrigger(s: State, k: nat): State
    requires k < |s.slots|
  {
    var r := Lookup(s.faults, s.slots[k], k);
    if r.None? then s else s.(armed := s.armed + {r.value})
  }

  function EvaluateSlots(s: State, vaddr: int, size: int, n: nat): (r: State)
    requires n <= |s.slots|
    ensures r == s.(armed := r.armed)
  {
    if n == 0 then s
    else
      var r := EvaluateSlots(s, vaddr, size, n - 1);
      if vaddr <= r.slots[n - 1] && vaddr + size > r.slots[n - 1] then EvaluateTrigger(r, n - 1) else r
  }

  function EvaluateLive(s: State, k: nat): State
    requires k < |s.live|
  {
    if s.live[k].None? || s.live[k].value >= |s.faults| then s
    else if s.faults[s.live[k].value].lifetime == 0 then RemoveRequest(s.(live := s.live[k := None]))
    else s.(watched := s.watched + {s.live[k].value})
  }

  function EvaluateLives(s: State, n: nat): (r: State)
    requires n <= |s.live|
    ensures |r.live| == |s.live|
    ensures r == s.(live := r.live, watched := r.watched, requests := r.requests, stepping := r.stepping, refused := r.refused)
  {
    if n == 0 then s else EvaluateLive(EvaluateLives(s, n - 1), n - 1)
  }

  function FirstTb(s: State, n: nat): (r: State)
    requires Sized(s) && n <= |s.faults|
    ensures Sized(r) && |r.faults| == |s.faults|
  {
    if n == 0 then s else FirstTbFault(FirstTb(s, n - 1), n - 1)
  }

  function Translate(s: State, vaddr: int, size: int): State
    requires Sized(s)
  {
    var a := if s.started then EvaluateLives(EvaluateSlots(s, vaddr, size, |s.faults|), s.liveNumber)
             else FirstTb(s, |s.faults|).(started := true);
    CheckFaultedTbs(a, vaddr, size)
  }

  // ---- Runs ----

  datatype Event = TranslateTb(vaddr: int, size: int) | TriggerHit(i: nat) | LiveHit(i: nat)

  /** A callback fires only for a fault for which it was registered. */
  ghost predicate Enabled(s: State, e: Event) {
    match e
    case TranslateTb(_, _) => true
    case TriggerHit(i) => i in s.armed && i < |s.faults|
    case LiveHit(i) => i in s.watched && i < |s.faults|
  }

  function Step(s: State, e: Event): State
    requires Sized(s) && Enabled(s, e)
  {
    match e
    case TranslateTb(vaddr, size) => Translate(s, vaddr, size)
    case TriggerHit(i) => TriggerCallback(s, i)
    case LiveHit(i) => ExecCallback(s, i)
  }

  /** `register_fault_trigger_addresses` and `tb_faulted_init`: numbers, slots and empty tables. */
  function Registered(faults: seq<Fault>): (s: State)
    ensures Sized(s) && |s.faults| == |faults|
  {
    var n := |faults|;
    State(seq(n, i requires 0 <= i < n => faults[i].(trignum := i)), seq(n, i requires 0 <= i < n => faults[i].triggerAddress),
          seq(n, _ => None), 0, false, 0, false, 0, seq(n, _ => 0xdeadbeef), seq(n, _ => false), 0, 0, [],
          seq(n, _ => 0), seq(n, _ => 0), seq(n, _ => 0), seq(n, _ => 0), {}, {})
  }
}
