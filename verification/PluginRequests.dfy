/** The single-step requests: who holds one, and in which configurations every run of the plugin
    keeps the counter equal to the number of holders. */
module PluginRequests {
  import opened Wrappers
  import opened PluginState
  import opened PluginRuns
  import opened PluginTriggers

  // ---- The holders ----

  /** Faults, among the first `upto`, that wait for their last hit. */
  ghost function Imminent(s: State, upto: nat): seq<bool> {
    seq(|s.faults|, i requires 0 <= i < |s.faults| => i < upto && s.faults[i].hitcounter == 1)
  }

  /** Transient faults that are in effect. */
  ghost function InEffect(s: State): seq<bool>
    requires Sized(s)
  {
    seq(|s.faults|, i requires 0 <= i < |s.faults| => s.injections[i] > 0 && s.faults[i].lifetime > 0)
  }

  /** Faulted TBs that are registered but not captured yet, counted by their table entries: of two
      with the same address the list saves only the newer one, although both are captured. */
  ghost function Waiting(s: State): seq<bool>
    requires Sized(s)
  {
    seq(|s.active|, k requires 0 <= k < |s.active| => k < s.current && !s.captured[k])
  }

  ghost function Holders(s: State, upto: nat): nat
    requires Sized(s)
  {
    CountTrue(Imminent(s, upto)) + CountTrue(InEffect(s)) + CountTrue(Waiting(s))
  }

  /** Every holder has one request, `extra` more are held for the moment; no request was given
      back in vain, and the processor is stepped exactly while there is one. */
  ghost predicate Conserved(s: State, upto: nat, extra: nat)
    requires Sized(s)
  {
    s.requests == Holders(s, upto) + extra && s.refused == 0 && s.stepping == (s.requests > 0)
  }

  ghost predicate IsConserved(c: seq<Fault>, s: State) {
    Sized(s) && |s.faults| == |c| && Conserved(s, if s.started then |c| else 0, 0)
  }

  // ---- The faulted TBs ----

  ghost predicate Listed(s: State, address: int) {
    exists j :: 0 <= j < |s.list| && s.list[j].address == address
  }

  ghost predicate EntryOk(s: State, k: nat)
    requires Sized(s) && k < |s.active|
  {
    && (s.captured[k] ==> k < s.current && s.active[k] == SERVED)
    && (k < s.current && !s.captured[k] ==> Listed(s, s.active[k]))
  }

  /** An instruction fault at the address has been injected. */
  ghost predicate FaultAt(c: seq<Fault>, s: State, address: int)
    requires Sized(s) && |s.faults| == |c|
  {
    exists i :: 0 <= i < |c| && s.injections[i] > 0 && c[i].kind == Instruction && c[i].address == address
  }

  ghost predicate SomeCapture(s: State) {
    exists k :: 0 <= k < |s.captured| && s.captured[k]
  }

  /** The list has the injected instruction faults, and the table's entries are in it until captured. */
  ghost predicate Registry(c: seq<Fault>, s: State) {
    && Sized(s) && |s.faults| == |c|
    && (forall k :: 0 <= k < |c| ==> EntryOk(s, k))
    && (forall a :: Listed(s, a) <==> FaultAt(c, s, a))
    && (s.done > 0 ==> SomeCapture(s))
  }

  ghost predicate SameRegistry(s: State, r: State) {
    && r.injections == s.injections && r.active == s.active && r.captured == s.captured
    && r.current == s.current && r.done == s.done && r.list == s.list
  }

  lemma RegistryIgnores(c: seq<Fault>, s: State, r: State)
    requires Registry(c, s) && Sized(r) && |r.faults| == |c| && SameRegistry(s, r)
    ensures Registry(c, r) && Waiting(r) == Waiting(s) && (Sentinel(s) ==> Sentinel(r))
  {
    hide FaultAt;
    forall k | 0 <= k < |c| ensures EntryOk(r, k) { assert EntryOk(s, k); }
    forall a ensures Listed(r, a) <==> FaultAt(c, r, a) {
      assert Listed(r, a) <==> Listed(s, a);
      FaultsAt(c, s, r, a);
    }
    assert Listed(r, SERVED) <==> Listed(s, SERVED);
  }

  lemma FaultsAt(c: seq<Fault>, s: State, r: State, a: int)
    requires Sized(s) && |s.faults| == |c| && Sized(r) && |r.faults| == |c| && r.injections == s.injections
    ensures FaultAt(c, s, a) <==> FaultAt(c, r, a)
  {
  }

  lemma GrownList(c: seq<Fault>, s: State, i: nat, r: State, a: int)
    requires Registry(c, s) && i < |c| && s.injections[i] == 0 && Grows(c, s, i, r)
    ensures Listed(r, a) <==> Listed(s, a) || (c[i].kind == Instruction && c[i].address == a)
    ensures Listed(r, a) <==> FaultAt(c, r, a)
  {
    if c[i].kind == Instruction {
      assert r.list[0].address == c[i].address;
      assert forall j :: 0 <= j < |s.list| ==> r.list[j + 1] == s.list[j];
      assert forall j :: 1 <= j < |r.list| ==> r.list[j] == s.list[j - 1];
    }
    assert Listed(r, a) <==> Listed(s, a) || (c[i].kind == Instruction && c[i].address == a);
    assert r.injections[i] == 1 && forall x :: 0 <= x < |c| && x != i ==> r.injections[x] == s.injections[x];
    if FaultAt(c, s, a) {
      var x :| 0 <= x < |c| && s.injections[x] > 0 && c[x].kind == Instruction && c[x].address == a;
      assert r.injections[x] > 0;
    }
    assert FaultAt(c, r, a) <==> FaultAt(c, s, a) || (c[i].kind == Instruction && c[i].address == a);
  }

  lemma GrowKeepsRegistry(c: seq<Fault>, s: State, i: nat, r: State)
    requires Registry(c, s) && i < |c| && s.injections[i] == 0 && Grows(c, s, i, r)
    ensures Registry(c, r)
    ensures Waiting(r) == if c[i].kind == Instruction then Waiting(s)[s.current := true] else Waiting(s)
    ensures c[i].kind == Instruction ==> s.current < |Waiting(s)| && !Waiting(s)[s.current]
  {
    hide Listed, FaultAt;
    forall a ensures Listed(r, a) <==> FaultAt(c, r, a) { GrownList(c, s, i, r, a); }
    forall k | 0 <= k < |c| ensures EntryOk(r, k) {
      assert EntryOk(s, k);
      GrownList(c, s, i, r, r.active[k]);
    }
    if c[i].kind == Instruction { assert EntryOk(s, s.current); }
  }

  // ---- The marker of served entries ----

  /** All faulted TBs are at the marker address, and they were captured all at once or not at all. */
  ghost predicate Uniform(s: State)
    requires Sized(s)
  {
    && (forall k :: 0 <= k < s.current ==> s.active[k] == SERVED)
    && if s.done == 0 then !SomeCapture(s)
       else s.done == s.current && forall k :: 0 <= k < s.current ==> s.captured[k]
  }

  ghost predicate Sentinel(s: State) {
    Sized(s) && (Listed(s, SERVED) ==> Uniform(s))
  }

  /** Fault i can be injected as an instruction fault. */
  ghost predicate Registers(c: seq<Fault>, i: nat)
    requires i < |c|
  {
    c[i].kind == Instruction && MayRegister(c, i)
  }

  /** The marker does no harm: an instruction fault at its address is the only one that can be
      injected, or all that can be are at its address and injected together, by the first TB. */
  ghost predicate MarkerHarmless(c: seq<Fault>) {
    forall i, j {:trigger c[i], c[j]} :: 0 <= i < |c| && 0 <= j < |c| && i != j && Registers(c, i) && Registers(c, j) && c[i].address == SERVED ==>
      c[j].address == SERVED && c[i].hitcounter == 0 && c[j].hitcounter == 0
  }

  lemma SomeRegistered(c: seq<Fault>, s: State)
    requires Shape(c, s) && Registry(c, s) && s.current > 0
    ensures exists a :: Listed(s, a)
  {
    hide FaultOk, LiveOk, Listed;
    var b := InjectedOf(c, s, IsInstruction());
    CountBound(b);
    var j :| 0 <= j < |b| && b[j];
    assert FaultAt(c, s, c[j].address);
  }

  lemma GrowKeepsSentinel(c: seq<Fault>, s: State, i: nat, r: State)
    requires MarkerHarmless(c) && Shape(c, s) && Registry(c, s) && Sentinel(s) && i < |c| && s.injections[i] == 0 && Grows(c, s, i, r)
    requires MayRegister(c, i) && forall j :: 0 <= j < |c| && s.injections[j] > 0 ==> MayRegister(c, j)
    requires c[i].hitcounter > 0 || (s.done == 0 && !SomeCapture(s))
    ensures Sentinel(r)
  {
    hide FaultOk, LiveOk, MayRegister, Listed, CountTrue, InjectedOf;
    GrownList(c, s, i, r, SERVED);
    if Listed(r, SERVED) && c[i].kind == Instruction {
      assert Registers(c, i);
      if Listed(s, SERVED) { OnlyMarker(c, s, i, SERVED); }
      if exists a :: Listed(s, a) {
        var a :| Listed(s, a);
        OnlyMarker(c, s, i, a);
      } else {
        if s.current > 0 { SomeRegistered(c, s); }
        NothingCaptured(c, s);
      }
      forall k | 0 <= k < r.current ensures r.active[k] == SERVED {
        assert EntryOk(s, k);
        if k < s.current && !s.captured[k] { OnlyMarker(c, s, i, s.active[k]); }
      }
    }
  }

  lemma NothingCaptured(c: seq<Fault>, s: State)
    requires Registry(c, s) && s.current == 0
    ensures !SomeCapture(s) && s.done == 0
  {
    forall k | 0 <= k < |c| ensures !s.captured[k] { assert EntryOk(s, k); }
  }

  /** If fault i or what is listed lies at the marker, so does the other, both from the first TB. */
  lemma OnlyMarker(c: seq<Fault>, s: State, i: nat, a: int)
    requires MarkerHarmless(c) && Registry(c, s) && i < |c| && Registers(c, i) && s.injections[i] == 0 && Listed(s, a)
    requires forall j :: 0 <= j < |c| && s.injections[j] > 0 ==> MayRegister(c, j)
    ensures a == SERVED || c[i].address == SERVED ==> a == SERVED && c[i].address == SERVED && c[i].hitcounter == 0
  {
    hide MayRegister, Listed;
    assert FaultAt(c, s, a);
    var j :| 0 <= j < |c| && s.injections[j] > 0 && c[j].kind == Instruction && c[j].address == a;
    assert Registers(c, j);
  }

  // ---- inject_fault ----

  /** Injection gives back one request and takes one for each new holder. */
  lemma InjectRequests(c: seq<Fault>, s: State, i: nat)
    requires Ready(c, s, i)
    ensures var f := s.faults[i]; var r := Inject(s, i);
            && Grows(c, s, i, r)
            && (s.requests > 0 ==>
                  && r.requests == s.requests - 1 + (if f.kind == Instruction then 1 else 0) + (if f.lifetime > 0 then 1 else 0)
                  && r.refused == s.refused && r.stepping == (r.requests > 0))
  {
    hide LiveOk, InjectedOf;
    InjectResult(c, s, i);
    assert FaultOk(c, s, i);
  }

  lemma InjectedHolders(c: seq<Fault>, s: State, i: nat, upto: nat)
    requires Ready(c, s, i)
    ensures var r := Inject(s, i);
            && Imminent(r, upto) == Imminent(s, upto)
            && CountTrue(InEffect(r)) == CountTrue(InEffect(s)) + if s.faults[i].lifetime > 0 then 1 else 0
  {
    hide LiveOk, InjectedOf, Inject, FaultOk;
    InjectResult(c, s, i);
    var r, v := Inject(s, i), s.faults[i].lifetime > 0;
    assert Imminent(r, upto) == Imminent(s, upto);
    assert InEffect(r) == InEffect(s)[i := v];
    CountUpdate(InEffect(s), i, v);
  }

  /** Injection passes the request on: one holder fewer before, the new holders after. */
  lemma InjectConserves(c: seq<Fault>, s: State, i: nat, upto: nat, extra: nat)
    requires Ready(c, s, i) && Registry(c, s) && Conserved(s, upto, extra + 1)
    ensures Conserved(Inject(s, i), upto, extra) && Registry(c, Inject(s, i))
  {
    hide LiveOk, InjectedOf, Inject, EntryOk, Listed, Waiting, Imminent, InEffect, CountTrue;
    var r, f := Inject(s, i), s.faults[i];
    InjectRequests(c, s, i);
    InjectedHolders(c, s, i, upto);
    GrowKeepsRegistry(c, s, i, r);
    assert FaultOk(c, s, i);
    if f.kind == Instruction { CountUpdate(Waiting(s), s.current, true); }
  }

  // ---- The invariant ----

  ghost predicate Requests(c: seq<Fault>, s: State, upto: nat) {
    Shape(c, s) && Registry(c, s) && Sentinel(s) && Conserved(s, upto, 0)
  }

  /** What was injected so far could be. */
  ghost predicate Expected(c: seq<Fault>, s: State)
    requires Sized(s) && |s.faults| == |c|
  {
    forall j :: 0 <= j < |c| && s.injections[j] > 0 ==> MayRegister(c, j)
  }

  lemma InjectKeeps(c: seq<Fault>, s: State, i: nat, upto: nat)
    requires MarkerHarmless(c) && Ready(c, s, i) && Registry(c, s) && Sentinel(s) && Expected(c, s) && Conserved(s, upto, 1)
    requires MayRegister(c, i) && (c[i].hitcounter > 0 || (s.done == 0 && !SomeCapture(s)))
    ensures Requests(c, Inject(s, i), upto)
  {
    hide LiveOk, InjectedOf, Inject, EntryOk, Listed, Waiting, FaultOk, MayRegister, MarkerHarmless, Registry, Sentinel, Conserved;
    InjectShape(c, s, i);
    InjectConserves(c, s, i, upto, 0);
    InjectRequests(c, s, i);
    GrowKeepsSentinel(c, s, i, Inject(s, i));
  }

  // ---- The first TB ----

  lemma ImminentStep(s: State, k: nat)
    requires k < |s.faults|
    ensures CountTrue(Imminent(s, k + 1)) == CountTrue(Imminent(s, k)) + if s.faults[k].hitcounter == 1 then 1 else 0
  {
    var v := s.faults[k].hitcounter == 1;
    assert Imminent(s, k + 1) == Imminent(s, k)[k := v];
    CountUpdate(Imminent(s, k), k, v);
  }

  /** A change that no holder sees. */
  lemma SameHolders(c: seq<Fault>, s: State, r: State)
    requires Sized(s) && Sized(r) && r.faults == s.faults && SameRegistry(s, r)
    ensures forall upto :: Holders(r, upto) == Holders(s, upto)
  {
    forall upto ensures Imminent(r, upto) == Imminent(s, upto) {}
    assert InEffect(r) == InEffect(s) && Waiting(r) == Waiting(s);
  }

  ghost predicate Uncaptured(s: State) {
    s.done == 0 && !SomeCapture(s)
  }

  lemma FirstTbFaultKeepsRequests(c: seq<Fault>, s: State, k: nat)
    requires MarkerHarmless(c) && Requests(c, s, k) && k < |c| && Untouched(s, k) && History(c, s, k) && Uncaptured(s) && Expected(c, s)
    ensures var r := FirstTbFault(s, k); Requests(c, r, k + 1) && Uncaptured(r) && Expected(c, r)
  {
    hide FaultOk, LiveOk, InjectedOf, Inject, FirstTbFault, InEffect, Waiting, EntryOk, Listed, MarkerHarmless;
    var r, a := FirstTbFault(s, k), AddRequest(s);
    FirstTbFaultResult(c, s, k);
    FirstTbFaultKeepsShape(c, s, k);
    SameHolders(c, s, a);
    RegistryIgnores(c, s, a);
    assert OnTime(c[k], RecordOf(s, k), false);
    if AtFirstTb(s.faults[k]) {
      FirstInjection(c, s, k);
      SameHolders(c, Inject(a, k), r);
      RegistryIgnores(c, Inject(a, k), r);
    }
    ImminentStep(r, k);
  }

  lemma FirstInjection(c: seq<Fault>, s: State, k: nat)
    requires MarkerHarmless(c) && Requests(c, s, k) && k < |c| && Untouched(s, k) && History(c, s, k) && Uncaptured(s) && Expected(c, s)
    requires AtFirstTb(s.faults[k])
    ensures var r := Inject(AddRequest(s), k); Requests(c, r, k) && Uncaptured(r) && Expected(c, r)
  {
    hide LiveOk, InjectedOf, Inject, InEffect, Waiting, EntryOk, Listed, MarkerHarmless, MayTrigger;
    var a := AddRequest(s);
    FirstTbFaultResult(c, s, k);
    SameHolders(c, s, a);
    RegistryIgnores(c, s, a);
    assert FaultOk(c, s, k) && OnTime(c[k], RecordOf(s, k), false);
    InjectKeeps(c, a, k, k);
    InjectRequests(c, a, k);
  }

  lemma {:induction false} FirstTbKeepsRequests(c: seq<Fault>, s: State, n: nat)
    requires Sized(s) && |s.faults| == |c| && n <= |c| && FirstTbInv(c, s, 0)
    requires MarkerHarmless(c) && Requests(c, s, 0) && Uncaptured(s) && Expected(c, s)
    ensures var r := FirstTb(s, n); Requests(c, r, n) && Uncaptured(r) && Expected(c, r)
  {
    hide Shape, History, Untouched, MarkerHarmless, FirstTbFault, Registry, Sentinel, Conserved, MayRegister, Uncaptured, Expected;
    if n > 0 {
      FirstTbKeepsRequests(c, s, n - 1);
      FirstTbKeeps(c, s, n - 1);
      FirstTbFaultKeepsRequests(c, FirstTb(s, n - 1), n - 1);
    }
  }

  // ---- The callbacks ----

  /** Counting a hit changes who is imminent, nothing else. */
  lemma CountedHolders(c: seq<Fault>, s: State, i: nat)
    requires Shape(c, s) && i < |c| && s.faults[i].hitcounter > 0
    ensures Holders(Counted(s, i), |c|) + (if s.faults[i].hitcounter == 1 then 1 else 0)
         == Holders(s, |c|) + (if s.faults[i].hitcounter == 2 then 1 else 0)
  {
    hide FaultOk, LiveOk, InjectedOf;
    var b, v := Counted(s, i), s.faults[i].hitcounter == 2;
    assert Imminent(b, |c|) == Imminent(s, |c|)[i := v];
    CountUpdate(Imminent(s, |c|), i, v);
    assert InEffect(b) == InEffect(s) && Waiting(b) == Waiting(s);
  }

  lemma TriggerKeepsRequests(c: seq<Fault>, s: State, i: nat)
    requires MarkerHarmless(c) && Requests(c, s, |c|) && Expected(c, s) && i < |c| && (s.faults[i].hitcounter > 0 ==> MayTrigger(c, i))
    ensures Requests(c, TriggerCallback(s, i), |c|)
  {
    hide FaultOk, LiveOk, InjectedOf, Inject, TriggerCallback, InEffect, Imminent, Waiting, EntryOk, Listed, MarkerHarmless, MayTrigger, CountTrue;
    var r, n := TriggerCallback(s, i), s.faults[i].hitcounter;
    TriggerResult(c, s, i);
    TriggerKeepsShape(c, s, i);
    if n == 0 {
      RegistryIgnores(c, s, r);
      SameHolders(c, s, r);
    } else {
      var b := Counted(s, i);
      RegistryIgnores(c, s, b);
      CountedHolders(c, s, i);
      if n == 1 {
        MayTriggerHits(c, i);
        InjectKeeps(c, b, i, |c|);
      } else {
        RegistryIgnores(c, b, r);
        SameHolders(c, b, r);
      }
    }
  }

  lemma MayTriggerHits(c: seq<Fault>, i: nat)
    requires i < |c| && MayTrigger(c, i)
    ensures c[i].hitcounter > 0
  {
  }

  lemma ReversedHolders(c: seq<Fault>, s: State, i: nat)
    requires Shape(c, s) && i < |c| && s.injections[i] == 1
    ensures var r := ExecCallback(s, i);
            && Imminent(r, |c|) == Imminent(s, |c|)
            && CountTrue(InEffect(r)) == CountTrue(InEffect(s)) - if s.faults[i].lifetime == 1 then 1 else 0
    ensures s.faults[i].lifetime > 0 ==> CountTrue(InEffect(s)) > 0
  {
    hide FaultOk, LiveOk, InjectedOf, ExecCallback;
    var r, v := ExecCallback(s, i), s.faults[i].lifetime > 1;
    ExecResult(c, s, i);
    assert Imminent(r, |c|) == Imminent(s, |c|);
    assert InEffect(s)[i] <==> s.faults[i].lifetime > 0;
    CountBound(InEffect(s));
    assert InEffect(r) == InEffect(s)[i := v];
    CountUpdate(InEffect(s), i, v);
  }

  /** A reversal gives back the request that its fault held while it was in effect. */
  lemma ExecKeepsRequests(c: seq<Fault>, s: State, i: nat)
    requires Requests(c, s, |c|) && i < |c| && s.injections[i] == 1
    ensures Requests(c, ExecCallback(s, i), |c|) && (s.faults[i].lifetime > 0 ==> s.requests > 0)
  {
    hide FaultOk, LiveOk, InjectedOf, ExecCallback, EntryOk, Listed, Imminent, InEffect, CountTrue, Waiting;
    var r := ExecCallback(s, i);
    ExecKeepsShape(c, s, i);
    ExecResult(c, s, i);
    RegistryIgnores(c, s, r);
    ReversedHolders(c, s, i);
    if s.faults[i].lifetime == 1 { ReversalRequests(s, i); }
  }

  lemma ReversalRequests(s: State, i: nat)
    requires Sized(s) && i < |s.faults| && s.faults[i].lifetime == 1 && s.requests > 0
    ensures var r := ExecCallback(s, i); r.requests == s.requests - 1 && r.refused == s.refused && r.stepping == (r.requests > 0)
  {
  }

  // ---- Capturing faulted TBs ----

  ghost function Balance(s: State): int {
    s.requests - s.refused
  }

  lemma FoundIfListed(s: State, a: int)
    ensures FindFaultedTb(s.list, a).Some? <==> Listed(s, a)
  {
  }

  /** Serving an entry gives back one request if the list has its address. */
  lemma ServedEntry(c: seq<Fault>, s: State, vaddr: int, size: int, k: nat, r: State)
    requires Registry(c, s) && k < s.current && InTb(vaddr, size, s.active[k]) && r == CheckEntry(s, vaddr, size, k)
    ensures CapturedFrom(s, r) && r.active == s.active[k := SERVED] && r.captured == s.captured[k := true] && r.done == s.done + 1
    ensures if Listed(s, s.active[k]) then
              Balance(r) == Balance(s) - 1
              && (s.requests > 0 ==> r.requests == s.requests - 1 && r.refused == s.refused && r.stepping == (r.requests > 0))
            else r.requests == s.requests && r.refused == s.refused && r.stepping == s.stepping
    ensures forall a :: Listed(r, a) <==> Listed(s, a)
  {
    var item := FindFaultedTb(s.list, s.active[k]);
    FoundIfListed(s, s.active[k]);
    assert |r.list| == |s.list| && forall j :: 0 <= j < |s.list| ==> r.list[j].address == s.list[j].address;
    forall a ensures Listed(r, a) <==> Listed(s, a) {
      if Listed(s, a) {
        var j :| 0 <= j < |s.list| && s.list[j].address == a;
        assert r.list[j].address == a;
      }
      if Listed(r, a) {
        var j :| 0 <= j < |r.list| && r.list[j].address == a;
        assert s.list[j].address == a;
      }
    }
  }

  lemma ServedKeepsRegistry(c: seq<Fault>, s: State, k: nat, r: State)
    requires Registry(c, s) && k < s.current && Sized(r) && |r.faults| == |c| && r.injections == s.injections && r.current == s.current
    requires r.active == s.active[k := SERVED] && r.captured == s.captured[k := true] && r.done == s.done + 1
    requires forall a :: Listed(r, a) <==> Listed(s, a)
    ensures Registry(c, r)
  {
    hide Listed, FaultAt;
    assert r.captured[k];
    forall x | 0 <= x < |c| ensures EntryOk(r, x) { assert EntryOk(s, x); }
    forall a ensures Listed(r, a) <==> FaultAt(c, r, a) { FaultsAt(c, s, r, a); }
  }

  /** The entries, among the first n, whose address lies in the TB. */
  ghost function Covered(active: seq<int>, vaddr: int, size: int, n: nat): nat
    requires n <= |active|
  {
    if n == 0 then 0 else Covered(active, vaddr, size, n - 1) + if InTb(vaddr, size, active[n - 1]) then 1 else 0
  }

  lemma {:induction false} CoveredBounds(active: seq<int>, vaddr: int, size: int, n: nat)
    requires n <= |active|
    ensures Covered(active, vaddr, size, n) == n <==> forall k :: 0 <= k < n ==> InTb(vaddr, size, active[k])
    ensures Covered(active, vaddr, size, n) == 0 <==> forall k :: 0 <= k < n ==> !InTb(vaddr, size, active[k])
    ensures Covered(active, vaddr, size, n) <= n
  {
    if n > 0 { CoveredBounds(active, vaddr, size, n - 1); }
  }

  /** The first n entries have been served where the TB covers them. */
  ghost predicate Served(c: seq<Fault>, s: State, vaddr: int, size: int, n: nat, r: State)
    requires Sized(s) && |s.faults| == |c| && n <= |c|
  {
    && Registry(c, r) && CapturedFrom(s, r) && r.done == s.done + Covered(s.active, vaddr, size, n)
    && (forall k :: 0 <= k < |c| ==> (r.captured[k] <==> s.captured[k] || (k < n && InTb(vaddr, size, s.active[k]))))
    && (forall k :: 0 <= k < |c| ==> r.active[k] == if k < n && InTb(vaddr, size, s.active[k]) then SERVED else s.active[k])
    && (forall a :: Listed(r, a) <==> Listed(s, a))
  }

  lemma ServeNext(c: seq<Fault>, s: State, vaddr: int, size: int, n: nat, p: State, r: State)
    requires Registry(c, s) && n < s.current && Served(c, s, vaddr, size, n, p) && r == CheckEntry(p, vaddr, size, n)
    ensures Served(c, s, vaddr, size, n + 1, r)
  {
    hide Listed, EntryOk, FaultAt, InTb, CheckEntry;
    if InTb(vaddr, size, p.active[n]) {
      ServedEntry(c, p, vaddr, size, n, r);
      ServedKeepsRegistry(c, p, n, r);
    } else {
      NotServed(p, vaddr, size, n);
    }
  }

  lemma NotServed(s: State, vaddr: int, size: int, k: nat)
    requires k < |s.active| == |s.captured| && !InTb(vaddr, size, s.active[k])
    ensures CheckEntry(s, vaddr, size, k) == s
  {
  }

  lemma {:induction false} EntriesServed(c: seq<Fault>, s: State, vaddr: int, size: int, n: nat)
    requires Registry(c, s) && n <= s.current
    ensures Served(c, s, vaddr, size, n, CheckEntries(s, vaddr, size, n))
  {
    hide EntryOk, FaultAt, CheckEntry, Served, Listed;
    if n == 0 {
      ServedNone(c, s, vaddr, size);
    } else {
      EntriesServed(c, s, vaddr, size, n - 1);
      ServeNext(c, s, vaddr, size, n - 1, CheckEntries(s, vaddr, size, n - 1), CheckEntries(s, vaddr, size, n));
    }
  }

  lemma ServedNone(c: seq<Fault>, s: State, vaddr: int, size: int)
    requires Registry(c, s)
    ensures Served(c, s, vaddr, size, 0, s)
  {
    hide Listed, EntryOk, FaultAt;
  }

  ghost function Debt(s: State): int
    requires Sized(s)
  {
    CountTrue(Waiting(s)) - Balance(s)
  }

  /** Serving an entry again, with its marker in the list, gives back a request that nobody held. */
  lemma ServedDebt(c: seq<Fault>, s: State, vaddr: int, size: int, k: nat, r: State)
    requires Registry(c, s) && k < s.current && InTb(vaddr, size, s.active[k]) && r == CheckEntry(s, vaddr, size, k)
    ensures Sized(r) && Debt(r) == Debt(s) + if s.captured[k] && Listed(s, SERVED) then 1 else 0
    ensures !(s.captured[k] && Listed(s, SERVED)) ==> (forall upto, extra :: Conserved(s, upto, extra) ==> Conserved(r, upto, extra))
  {
    hide Listed, FaultAt, CheckEntry, InTb, Balance, CountTrue;
    assert EntryOk(s, k);
    ServedEntry(c, s, vaddr, size, k, r);
    var w := Waiting(s);
    assert w[k] == !s.captured[k];
    assert Waiting(r) == w[k := false];
    CountUpdate(w, k, false);
    CountBound(w);
    forall upto ensures Imminent(r, upto) == Imminent(s, upto) {}
    assert InEffect(r) == InEffect(s);
    ServedBalance(s, r);
  }

  lemma ServedBalance(s: State, r: State)
    ensures r.requests == s.requests && r.refused == s.refused ==> Balance(r) == Balance(s)
  {
  }

  lemma {:induction false} DebtGrows(c: seq<Fault>, s: State, vaddr: int, size: int, n: nat)
    requires Registry(c, s) && n <= s.current
    ensures var r := CheckEntries(s, vaddr, size, n);
            && Sized(r) && Debt(r) >= Debt(s)
            && (Listed(s, SERVED) && InTb(vaddr, size, SERVED) && (exists k :: 0 <= k < n && s.captured[k]) ==> Debt(r) > Debt(s))
  {
    hide Listed, FaultAt, CheckEntry, Debt;
    if n > 0 {
      var p := CheckEntries(s, vaddr, size, n - 1);
      DebtGrows(c, s, vaddr, size, n - 1);
      EntriesServed(c, s, vaddr, size, n - 1);
      if InTb(vaddr, size, p.active[n - 1]) {
        ServedDebt(c, p, vaddr, size, n - 1, CheckEntries(s, vaddr, size, n));
      } else {
        NotServed(p, vaddr, size, n - 1);
        assert EntryOk(s, n - 1);
      }
    }
  }

  /** Without a listed marker, or with nothing captured yet, serving entries conserves the requests. */
  lemma {:induction false} ServingConserves(c: seq<Fault>, s: State, vaddr: int, size: int, n: nat, upto: nat)
    requires Registry(c, s) && n <= s.current && Conserved(s, upto, 0)
    requires Listed(s, SERVED) ==> !SomeCapture(s)
    ensures Sized(CheckEntries(s, vaddr, size, n)) && Conserved(CheckEntries(s, vaddr, size, n), upto, 0)
  {
    hide Listed, FaultAt, CheckEntry, Conserved, EntryOk;
    if n > 0 {
      var p := CheckEntries(s, vaddr, size, n - 1);
      ServingConserves(c, s, vaddr, size, n - 1, upto);
      EntriesServed(c, s, vaddr, size, n - 1);
      if InTb(vaddr, size, p.active[n - 1]) {
        ServedDebt(c, p, vaddr, size, n - 1, CheckEntries(s, vaddr, size, n));
      } else {
        NotServed(p, vaddr, size, n - 1);
      }
    }
  }

  lemma ServedUniformly(c: seq<Fault>, s: State, vaddr: int, size: int, r: State)
    requires Registry(c, s) && Uniform(s) && s.done != s.current && Served(c, s, vaddr, size, s.current, r)
    ensures Uniform(r)
  {
    hide Listed, FaultAt, CountTrue, InTb;
    CoveredBounds(s.active, vaddr, size, s.current);
    forall k | 0 <= k < |c| ensures !s.captured[k] && (r.captured[k] ==> k < s.current) { assert EntryOk(s, k); }
    if s.current > 0 && InTb(vaddr, size, SERVED) {
      assert forall k :: 0 <= k < s.current ==> InTb(vaddr, size, s.active[k]);
    } else {
      assert forall k :: 0 <= k < s.current ==> !InTb(vaddr, size, s.active[k]);
    }
  }

  lemma CheckKeepsRequests(c: seq<Fault>, s: State, vaddr: int, size: int)
    requires Requests(c, s, |c|) && History(c, s, |c|)
    ensures Requests(c, CheckFaultedTbs(s, vaddr, size), |c|)
  {
    hide Listed, FaultAt, Conserved, CheckEntries, EntryOk, FaultOk, LiveOk, InjectedOf, Uniform, CountTrue;
    var r := CheckFaultedTbs(s, vaddr, size);
    CheckKeeps(c, s, vaddr, size);
    if s.done != s.current {
      EntriesServed(c, s, vaddr, size, s.current);
      if Listed(s, SERVED) {
        UniformUncaptured(s);
        ServedUniformly(c, s, vaddr, size, r);
      }
      ServingConserves(c, s, vaddr, size, s.current, |c|);
    }
  }

  lemma UniformUncaptured(s: State)
    requires Sized(s) && Uniform(s) && s.done != s.current
    ensures !SomeCapture(s)
  {
  }

  // ---- Every run ----

  /** What a translation does to the requests before it captures. */
  lemma EvaluationKeepsRequests(c: seq<Fault>, s: State, vaddr: int, size: int)
    requires Requests(c, s, |c|) && History(c, s, |c|)
    ensures Requests(c, Evaluated(s, vaddr, size), |c|) && History(c, Evaluated(s, vaddr, size), |c|)
  {
    hide Listed, EntryOk, FaultAt, FaultOk, LiveOk, InjectedOf, EvaluateSlots, EvaluateLives, CountTrue, Uniform;
    var r := Evaluated(s, vaddr, size);
    EvaluationKeeps(c, s, vaddr, size);
    RegistryIgnores(c, s, r);
    SameHolders(c, s, r);
  }

  lemma StartRequests(c: seq<Fault>)
    ensures var s := Registered(c); Requests(c, s, 0) && Uncaptured(s) && Expected(c, s)
  {
    var s := Registered(c);
    StartKeeps(c);
    AllFalse(Imminent(s, 0));
    AllFalse(InEffect(s));
    AllFalse(Waiting(s));
  }

  lemma FirstTranslationRequests(c: seq<Fault>, vaddr: int, size: int)
    requires MarkerHarmless(c)
    ensures Requests(c, Translate(Registered(c), vaddr, size), |c|)
  {
    hide MarkerHarmless, FaultOk, LiveOk, InjectedOf, FirstTb, CheckFaultedTbs, Listed, EntryOk, FaultAt, CountTrue, Uniform;
    var s, b := Registered(c), FirstTb(Registered(c), |c|);
    StartKeeps(c);
    StartRequests(c);
    FirstTbKeepsRequests(c, s, |c|);
    FirstTranslationKeeps(c, s);
    var a := b.(started := true);
    RegistryIgnores(c, b, a);
    SameHolders(c, b, a);
    CheckKeepsRequests(c, a, vaddr, size);
  }

  lemma StepKeepsRequests(c: seq<Fault>, s: State, e: Event)
    requires MarkerHarmless(c) && RunningInv(c, s) && Numbered(c, s) && Requests(c, s, |c|) && Enabled(s, e)
    ensures Requests(c, Step(s, e), |c|)
  {
    hide MarkerHarmless, FaultOk, LiveOk, InjectedOf, Registry, Sentinel, Conserved, MayTrigger;
    hide TriggerCallback, ExecCallback, EvaluateSlots, EvaluateLives, CheckFaultedTbs;
    match e
    case TranslateTb(vaddr, size) =>
      EvaluationKeepsRequests(c, s, vaddr, size);
      CheckKeepsRequests(c, Evaluated(s, vaddr, size), vaddr, size);
    case TriggerHit(i) =>
      assert OnTime(c[i], RecordOf(s, i), true);
      TriggerKeepsRequests(c, s, i);
    case LiveHit(i) =>
      WatchedIsInjected(c, s, i);
      ExecKeepsRequests(c, s, i);
  }

  lemma {:induction false} RunKeepsRequests(c: seq<Fault>, es: seq<Event>, ss: seq<State>, k: nat)
    requires MarkerHarmless(c) && IsRun(c, es, ss) && k <= |es|
    ensures Requests(c, ss[k], if k == 0 then 0 else |c|)
  {
    hide MarkerHarmless, Requests, RunningInv, Numbered, Translate, TriggerCallback, ExecCallback, Registered;
    StartRequests(c);
    StartNotStarted(c);
    if k > 0 {
      assert IsStep(ss[k - 1], es[k - 1], ss[k - 1 + 1]);
      RunKeepsRequests(c, es, ss, k - 1);
      if k == 1 {
        FirstTranslationRequests(c, es[0].vaddr, es[0].size);
      } else {
        RunIsNumbered(c, es, ss, k - 1);
        StepKeepsRequests(c, ss[k - 1], es[k - 1]);
      }
    }
  }

  lemma ConservedWhenHarmless(c: seq<Fault>, s: State)
    requires MarkerHarmless(c) && Reachable(c, s)
    ensures IsConserved(c, s)
  {
    hide MarkerHarmless, Registered, Inv, Registry, Sentinel, Conserved, FaultOk, LiveOk, InjectedOf;
    var es, ss :| IsRun(c, es, ss) && ss[|es|] == s;
    RunStarts(c, es, ss, |es|);
    RunKeepsRequests(c, es, ss, |es|);
    StartNotStarted(c);
  }

  // ---- Runs that do not conserve ----

  /** Each of the first n faults that the first TB injects has an entry. */
  ghost predicate Entered(c: seq<Fault>, s: State, n: nat)
    requires Sized(s) && |s.faults| == |c| && n <= |c|
  {
    forall i :: 0 <= i < n && AtFirstTb(c[i]) ==> HasEntry(s, c[i].address)
  }

  ghost predicate HasEntry(s: State, address: int)
    requires Sized(s)
  {
    exists k :: 0 <= k < s.current && s.active[k] == address
  }

  lemma FirstTbFaultRegistry(c: seq<Fault>, s: State, k: nat, r: State)
    requires FirstTbInv(c, s, k) && k < |c| && r == FirstTbFault(s, k) && Registry(c, s) && Uncaptured(s) && Entered(c, s, k)
    ensures Sized(r) && |r.faults| == |c| && Registry(c, r) && Uncaptured(r) && Entered(c, r, k + 1)
  {
    hide FaultOk, LiveOk, InjectedOf, Inject, FirstTbFault, EntryOk, Listed, FaultAt, Sentinel;
    var a := AddRequest(s);
    FirstTbFaultResult(c, s, k);
    RegistryIgnores(c, s, a);
    assert OnTime(c[k], RecordOf(s, k), false);
    FirstTbFaultKeepsShape(c, s, k);
    if AtFirstTb(s.faults[k]) {
      InjectRequests(c, a, k);
      GrowKeepsRegistry(c, a, k, Inject(a, k));
      RegistryIgnores(c, Inject(a, k), r);
      FaultKind(c, s, k);
      assert r.active[s.current] == c[k].address;
      forall i | 0 <= i < k && AtFirstTb(c[i]) ensures HasEntry(r, c[i].address) {
        var x :| 0 <= x < s.current && s.active[x] == c[i].address;
        assert r.active[x] == c[i].address;
      }
    } else {
      FaultKind(c, s, k);
    }
  }

  lemma FaultKind(c: seq<Fault>, s: State, k: nat)
    requires Shape(c, s) && k < |c|
    ensures s.faults[k].kind == c[k].kind && s.faults[k].address == c[k].address
  {
    assert FaultOk(c, s, k);
  }

  lemma {:induction false} FirstTbRegistry(c: seq<Fault>, s: State, n: nat)
    requires Sized(s) && |s.faults| == |c| && n <= |c| && FirstTbInv(c, s, 0) && Registry(c, s) && Uncaptured(s)
    ensures var r := FirstTb(s, n); Registry(c, r) && Uncaptured(r) && Entered(c, r, n)
  {
    hide Shape, Untouched, History, EntryOk, Listed, FaultAt, FirstTbFault, Uncaptured, HasEntry;
    if n > 0 {
      FirstTbRegistry(c, s, n - 1);
      FirstTbKeeps(c, s, n - 1);
      FirstTbFaultRegistry(c, FirstTb(s, n - 1), n - 1, FirstTb(s, n));
    }
  }

  /** The state in which the first translation starts to capture. */
  lemma BeforeFirstCapture(c: seq<Fault>, vaddr: int, size: int) returns (a: State)
    ensures RunningInv(c, a) && Registry(c, a) && Uncaptured(a) && Entered(c, a, |c|) && a.started
    ensures Translate(Registered(c), vaddr, size) == CheckFaultedTbs(a, vaddr, size)
  {
    hide FaultOk, LiveOk, InjectedOf, FirstTb, CheckFaultedTbs, Listed, EntryOk, FaultAt, Sentinel;
    var s := Registered(c);
    StartKeeps(c);
    StartRequests(c);
    FirstTbRegistry(c, s, |c|);
    FirstTranslationKeeps(c, s);
    a := FirstTb(s, |c|).(started := true);
    RegistryIgnores(c, FirstTb(s, |c|), a);
  }

  lemma CheckRegistry(c: seq<Fault>, s: State, vaddr: int, size: int)
    requires Registry(c, s)
    ensures var r := CheckFaultedTbs(s, vaddr, size);
            && Registry(c, r) && CapturedFrom(s, r) && (forall a :: Listed(r, a) <==> Listed(s, a))
            && (s.done != s.current ==> Served(c, s, vaddr, size, s.current, r))
  {
    hide Listed, FaultAt, EntryOk, CheckEntries;
    if s.done != s.current { EntriesServed(c, s, vaddr, size, s.current); }
  }

  /** What a running plugin's translation does to the registry. */
  lemma TranslationServes(c: seq<Fault>, s: State, vaddr: int, size: int)
    requires RunningInv(c, s) && s.started && Registry(c, s)
    ensures var r := Translate(s, vaddr, size);
            && Registry(c, r) && RunningInv(c, r) && r.started && r.injections == s.injections && r.current == s.current
            && (forall a :: Listed(r, a) <==> Listed(s, a))
            && (s.done != s.current ==> Served(c, Evaluated(s, vaddr, size), vaddr, size, s.current, r))
  {
    hide FaultOk, LiveOk, InjectedOf, History, EvaluateSlots, EvaluateLives, CheckFaultedTbs, Listed, EntryOk, FaultAt, Served, Sentinel;
    var e := Evaluated(s, vaddr, size);
    EvaluationKeeps(c, s, vaddr, size);
    SameList(s, e);
    RegistryIgnores(c, s, e);
    CheckRegistry(c, e, vaddr, size);
    CheckKeeps(c, e, vaddr, size);
  }

  lemma SameList(s: State, r: State)
    requires r.list == s.list
    ensures forall a :: Listed(r, a) <==> Listed(s, a)
  {
    forall a ensures Listed(r, a) <==> Listed(s, a) {}
  }

  lemma HitRegistry(c: seq<Fault>, s: State, i: nat)
    requires RunningInv(c, s) && Registry(c, s) && i < |c|
    ensures Registry(c, TriggerCallback(s, i))
  {
    hide FaultOk, LiveOk, InjectedOf, Inject, TriggerCallback, EntryOk, Listed, FaultAt, Sentinel;
    var r := TriggerCallback(s, i);
    TriggerResult(c, s, i);
    TriggerKeepsShape(c, s, i);
    if s.faults[i].hitcounter == 1 {
      var b := Counted(s, i);
      RegistryIgnores(c, s, b);
      InjectRequests(c, b, i);
      GrowKeepsRegistry(c, b, i, r);
    } else {
      RegistryIgnores(c, s, r);
    }
  }

  lemma StepRegistry(c: seq<Fault>, s: State, e: Event)
    requires RunningInv(c, s) && s.started && Registry(c, s) && Enabled(s, e)
    ensures Registry(c, Step(s, e))
  {
    hide FaultOk, LiveOk, InjectedOf, History, TriggerCallback, ExecCallback, Translate, EntryOk, Listed, FaultAt, Sentinel, Served;
    match e
    case TranslateTb(vaddr, size) => TranslationServes(c, s, vaddr, size);
    case TriggerHit(i) => HitRegistry(c, s, i);
    case LiveHit(i) =>
      WatchedIsInjected(c, s, i);
      ExecResult(c, s, i);
      RegistryIgnores(c, s, ExecCallback(s, i));
  }

  lemma {:induction false} RunRegistry(c: seq<Fault>, es: seq<Event>, ss: seq<State>, k: nat)
    requires IsRun(c, es, ss) && k <= |es|
    ensures Registry(c, ss[k])
  {
    hide Registry, Inv, RunningInv, Numbered, Translate, TriggerCallback, ExecCallback, Registered;
    if k == 0 {
      StartRegistry(c);
    } else {
      assert IsStep(ss[k - 1], es[k - 1], ss[k - 1 + 1]);
      StartNotStarted(c);
      if k == 1 {
        var a := BeforeFirstCapture(c, es[0].vaddr, es[0].size);
        CheckRegistry(c, a, es[0].vaddr, es[0].size);
      } else {
        RunRegistry(c, es, ss, k - 1);
        RunStarts(c, es, ss, k - 1);
        RunIsNumbered(c, es, ss, k - 1);
        StepRegistry(c, ss[k - 1], es[k - 1]);
      }
    }
  }

  lemma StartRegistry(c: seq<Fault>)
    ensures Registry(c, Registered(c))
  {
    StartRequests(c);
  }

  lemma ReachableRegistry(c: seq<Fault>, s: State)
    requires Reachable(c, s)
    ensures Registry(c, s)
  {
    hide Registry, Registered;
    var es, ss :| IsRun(c, es, ss) && ss[|es|] == s;
    RunRegistry(c, es, ss, |es|);
  }

  ghost predicate AlwaysConserved(c: seq<Fault>) {
    forall s :: Reachable(c, s) ==> IsConserved(c, s)
  }

  /** A state whose next translation, of a TB with the marker address, gives back a request too many. */
  ghost predicate Doomed(c: seq<Fault>, s: State) {
    Reachable(c, s) && s.started && Listed(s, SERVED) && SomeCapture(s) && s.done != s.current
  }

  lemma DoomedBreaks(c: seq<Fault>, s: State)
    requires Doomed(c, s)
    ensures !AlwaysConserved(c)
  {
    hide Reachable, FaultOk, LiveOk, InjectedOf, History, EvaluateSlots, EvaluateLives, CheckEntries, Listed, EntryOk, FaultAt, Sentinel, Debt;
    ReachableKeeps(c, s);
    ReachableRegistry(c, s);
    var e := Evaluated(s, SERVED, 1);
    EvaluationKeeps(c, s, SERVED, 1);
    SameList(s, e);
    RegistryIgnores(c, s, e);
    CapturedBefore(c, e);
    DebtGrows(c, e, SERVED, 1, e.current);
    NextIsReachable(c, s, TranslateTb(SERVED, 1));
    var r := Translate(s, SERVED, 1);
    CheckEntriesCapture(e, SERVED, 1, e.current);
    if AlwaysConserved(c) {
      assert IsConserved(c, s) && IsConserved(c, r);
      OwedNothing(s, r, e, |c|);
    }
  }

  lemma CapturedBefore(c: seq<Fault>, s: State)
    requires Registry(c, s) && SomeCapture(s)
    ensures exists k :: 0 <= k < s.current && s.captured[k] && s.active[k] == SERVED
  {
    var k :| 0 <= k < |s.captured| && s.captured[k];
    assert EntryOk(s, k);
  }

  lemma OwedNothing(s: State, r: State, e: State, n: nat)
    requires Sized(s) && Sized(r) && Sized(e) && Conserved(s, n, 0) && Conserved(r, n, 0)
    requires e.faults == s.faults && SameRegistry(s, e) && e.requests == s.requests && e.refused == s.refused
    requires r.faults == e.faults && r.injections == e.injections
    ensures Debt(r) == Debt(e)
  {
    hide CountTrue;
    assert Imminent(r, n) == Imminent(s, n) && InEffect(r) == InEffect(s) && Waiting(e) == Waiting(s);
  }

  // ---- Reaching such a state ----

  /** A translation of the first entry's TB captures something, unless it was done before. */
  lemma Capture(c: seq<Fault>, s: State, vaddr: int) returns (r: State)
    requires Reachable(c, s) && s.started && Sized(s) && |s.faults| == |c| && s.current > 0
    requires vaddr == s.active[0] || SomeCapture(s)
    ensures Reachable(c, r) && r.started && Sized(r) && |r.faults| == |c| && SomeCapture(r)
    ensures r.injections == s.injections && s.armed <= r.armed && r.current == s.current
    ensures forall a :: Listed(r, a) <==> Listed(s, a)
    ensures s.done != s.current && SomeCapture(s) && vaddr == SERVED ==> r.done > s.done
  {
    hide Reachable, FaultOk, LiveOk, InjectedOf, History, Translate, EvaluateSlots, EvaluateLives, Listed, EntryOk, FaultAt, Sentinel, Registry;
    ReachableKeeps(c, s);
    ReachableRegistry(c, s);
    ReachableNumbers(c, s);
    if s.done == s.current {
      r := s;
      DoneCaptures(c, s);
    } else {
      r := Step(s, TranslateTb(vaddr, 1));
      NextIsReachable(c, s, TranslateTb(vaddr, 1));
      TranslationServes(c, s, vaddr, 1);
      RunningTranslation(c, s, vaddr, 1);
      SlotArms(s, vaddr, 1, |c|, 0);
      EvaluationKeeps(c, s, vaddr, 1);
      ServedCaptures(c, s, Evaluated(s, vaddr, 1), vaddr, r);
    }
  }

  lemma DoneCaptures(c: seq<Fault>, s: State)
    requires Registry(c, s) && s.done == s.current > 0
    ensures SomeCapture(s)
  {
  }

  lemma ServedCaptures(c: seq<Fault>, s: State, e: State, vaddr: int, r: State)
    requires Registry(c, s) && Sized(e) && |e.faults| == |c| && SameRegistry(s, e) && s.current > 0
    requires Served(c, e, vaddr, 1, s.current, r) && (vaddr == s.active[0] || SomeCapture(s))
    ensures SomeCapture(r) && (SomeCapture(s) && vaddr == SERVED ==> r.done > s.done)
  {
    hide Listed, FaultAt, Registry;
    CoveredBounds(s.active, vaddr, 1, s.current);
    if SomeCapture(s) {
      CapturedBefore(c, s);
      var k :| 0 <= k < s.current && s.captured[k] && s.active[k] == SERVED;
      assert r.captured[k];
      assert vaddr == SERVED ==> InTb(vaddr, 1, s.active[k]);
    } else {
      assert r.captured[0];
    }
  }

  /** One more faulted TB while others are captured and the marker is in the list. */
  lemma DoomByInjection(c: seq<Fault>, b: State, i: nat) returns (s: State)
    requires Reachable(c, b) && b.started && Sized(b) && |b.faults| == |c| && SomeCapture(b) && b.done != b.current + 1
    requires i < |c| && i in b.armed && b.injections[i] == 0 && c[i].hitcounter > 0 && c[i].kind == Instruction
    requires c[i].address == SERVED || Listed(b, SERVED)
    ensures Doomed(c, s)
  {
    hide Reachable, Registry, Listed;
    ReachableRegistry(c, b);
    s := InjectNow(c, b, i);
    GrownList(c, b, i, s, SERVED);
  }

  lemma DoomByTrigger(c: seq<Fault>, a: State, i: nat)
    requires Reachable(c, a) && a.started && Sized(a) && |a.faults| == |c| && a.current > 0
    requires i < |c| && i in a.armed && a.injections[i] == 0 && c[i].hitcounter > 0 && c[i].kind == Instruction
    requires c[i].address == SERVED || Listed(a, SERVED)
    ensures !AlwaysConserved(c)
  {
    hide Reachable, Listed, AlwaysConserved;
    var b := Capture(c, a, a.active[0]);
    if b.done != b.current + 1 {
      var s := DoomByInjection(c, b, i);
      DoomedBreaks(c, s);
    } else if Listed(b, SERVED) {
      DoomedBreaks(c, b);
    } else {
      var d := Capture(c, b, SERVED);
      var s := DoomByInjection(c, d, i);
      DoomedBreaks(c, s);
    }
  }

  lemma InjectedEntry(c: seq<Fault>, s: State, i: nat)
    requires Reachable(c, s) && Sized(s) && |s.faults| == |c| && i < |c| && s.injections[i] == 1 && c[i].kind == Instruction
    ensures s.current > 0 && Listed(s, c[i].address)
  {
    hide Reachable, FaultOk, LiveOk, Listed;
    ReachableKeeps(c, s);
    ReachableRegistry(c, s);
    assert InjectedOf(c, s, IsInstruction())[i];
    CountBound(InjectedOf(c, s, IsInstruction()));
    assert FaultAt(c, s, c[i].address);
  }

  lemma FirstTbInjected(c: seq<Fault>, s: State, i: nat)
    requires RunningInv(c, s) && i < |c| && AtFirstTb(c[i])
    ensures s.injections[i] == 1
  {
    assert OnTime(c[i], RecordOf(s, i), true);
  }

  /** Two instruction faults, the first of them at the marker, one of them injected by its trigger. */
  lemma LaterFaultBreaks(c: seq<Fault>, i: nat, j: nat)
    requires i < |c| && j < |c| && i != j && Registers(c, i) && Registers(c, j) && c[i].address == SERVED
    requires c[i].hitcounter > 0 || c[j].hitcounter > 0
    ensures !AlwaysConserved(c)
  {
    hide Reachable, Shape, History, Listed, AlwaysConserved, Numbered;
    var a := ArmedRun(c, |c|);
    ReachableNumbers(c, a);
    if c[i].hitcounter == 0 {
      FirstTbInjected(c, a, i);
      InjectedEntry(c, a, i);
      DoomByTrigger(c, a, j);
    } else if c[j].hitcounter == 0 {
      FirstTbInjected(c, a, j);
      InjectedEntry(c, a, j);
      DoomByTrigger(c, a, i);
    } else {
      var b := InjectNow(c, a, j);
      InjectedEntry(c, b, j);
      DoomByTrigger(c, b, i);
    }
  }

  /** A TB with the marker address, but without another. */
  function MarkerTb(other: int): (vaddr: int)
    requires other != SERVED
    ensures InTb(vaddr, 1, SERVED) && !InTb(vaddr, 1, other)
  {
    if other == SERVED + 1 then SERVED - 1 else SERVED
  }

  /** Two instruction faults injected by the first TB, only one of them at the marker. */
  lemma ApartFaultsBreak(c: seq<Fault>, i: nat, j: nat)
    requires i < |c| && j < |c| && AtFirstTb(c[i]) && AtFirstTb(c[j]) && c[i].address == SERVED && c[j].address != SERVED
    ensures !AlwaysConserved(c)
  {
    hide Reachable, Shape, History, Listed, AlwaysConserved, Translate, Registered, CheckFaultedTbs;
    var vaddr := MarkerTb(c[j].address);
    var a := BeforeFirstCapture(c, vaddr, 1);
    var r := CheckFaultedTbs(a, vaddr, 1);
    StartIsReachable(c);
    NextIsReachable(c, Registered(c), TranslateTb(vaddr, 1));
    assert HasEntry(a, c[i].address) && HasEntry(a, c[j].address);
    var x :| 0 <= x < a.current && a.active[x] == SERVED;
    var y :| 0 <= y < a.current && a.active[y] == c[j].address;
    CheckRegistry(c, a, vaddr, 1);
    CoveredBounds(a.active, vaddr, 1, a.current);
    assert EntryOk(a, x) && !a.captured[x] && r.captured[x];
    DoomedBreaks(c, r);
  }

  /** In every state of every run the requests are conserved, none given back in vain, if and
      only if the marker of served entries is harmless. */
  lemma RequestsAreConserved(c: seq<Fault>)
    ensures (forall s :: Reachable(c, s) ==> IsConserved(c, s)) <==> MarkerHarmless(c)
  {
    hide Reachable, IsConserved, MayTrigger;
    if MarkerHarmless(c) {
      forall s | Reachable(c, s) ensures IsConserved(c, s) { ConservedWhenHarmless(c, s); }
    } else {
      var i, j :| 0 <= i < |c| && 0 <= j < |c| && i != j && Registers(c, i) && Registers(c, j) && c[i].address == SERVED
                  && !(c[j].address == SERVED && c[i].hitcounter == 0 && c[j].hitcounter == 0);
      if c[i].hitcounter > 0 || c[j].hitcounter > 0 {
        LaterFaultBreaks(c, i, j);
      } else {
        MayTriggerHit(c, i);
        MayTriggerHit(c, j);
        ApartFaultsBreak(c, i, j);
      }
    }
  }

  lemma MayTriggerHit(c: seq<Fault>, i: nat)
    requires i < |c| && c[i].hitcounter == 0
    ensures !MayTrigger(c, i)
  {
  }

  /** So stepping is on exactly while a fault is imminent or in effect or a faulted TB waits. */
  lemma SteppingOnDemand(c: seq<Fault>, s: State)
    requires Reachable(c, s) && MarkerHarmless(c)
    ensures Sized(s) && |s.faults| == |c|
    ensures s.stepping == ((s.started && exists i :: 0 <= i < |c| && s.faults[i].hitcounter == 1)
                           || (exists i :: 0 <= i < |c| && s.injections[i] > 0 && s.faults[i].lifetime > 0)
                           || (exists k :: 0 <= k < s.current && !s.captured[k]))
  {
    hide Reachable, MarkerHarmless;
    RequestsAreConserved(c);
    assert IsConserved(c, s);
    var imminent, effect, waiting := Imminent(s, if s.started then |c| else 0), InEffect(s), Waiting(s);
    CountBound(imminent);
    CountBound(effect);
    CountBound(waiting);
    forall i | 0 <= i < |c| ensures imminent[i] <==> s.started && s.faults[i].hitcounter == 1 {}
    forall i | 0 <= i < |c| ensures effect[i] <==> s.injections[i] > 0 && s.faults[i].lifetime > 0 {}
    forall k | 0 <= k < |c| ensures waiting[k] <==> k < s.current && !s.captured[k] {}
  }

  // ---- Which faulted TBs are captured ----

  /** The newest entry of the list with this address has its assembly saved. */
  ghost predicate NewestSaved(list: seq<FaultedTb>, address: int) {
    exists j :: 0 <= j < |list| && list[j] == FaultedTb(address, true) && forall i :: 0 <= i < j ==> list[i].address != address
  }

  /** Of the first n entries those not captured before that lie in the TB have been saved, and nothing else was. */
  ghost predicate SavedIn(s: State, vaddr: int, size: int, n: nat, r: State)
    requires Sized(s) && n <= |s.active|
  {
    && |r.list| == |s.list|
    && (forall k :: 0 <= k < n && !s.captured[k] && vaddr <= s.active[k] <= vaddr + size ==> NewestSaved(r.list, s.active[k]))
    && (forall j :: 0 <= j < |s.list| ==>
          r.list[j] == s.list[j] || (r.list[j] == FaultedTb(s.list[j].address, true) && vaddr <= s.list[j].address <= vaddr + size))
  }

  lemma SavedStays(list: seq<FaultedTb>, item: nat, a: int, b: int)
    requires item < |list| && list[item].address == b && NewestSaved(list, a)
    ensures NewestSaved(list[item := FaultedTb(b, true)], a)
  {
    var j :| 0 <= j < |list| && list[j] == FaultedTb(a, true) && forall i :: 0 <= i < j ==> list[i].address != a;
    var r := list[item := FaultedTb(b, true)];
    assert r[j] == FaultedTb(a, true) && forall i :: 0 <= i < j ==> r[i].address == list[i].address;
  }

  lemma SaveNext(c: seq<Fault>, s: State, vaddr: int, size: int, n: nat, p: State)
    requires Registry(c, s) && n < s.current && Served(c, s, vaddr, size, n, p) && SavedIn(s, vaddr, size, n, p)
    ensures |CheckEntry(p, vaddr, size, n).active| == |s.active| && SavedIn(s, vaddr, size, n + 1, CheckEntry(p, vaddr, size, n))
  {
    hide Listed, FaultAt, NewestSaved;
    var r, a := CheckEntry(p, vaddr, size, n), p.active[n];
    var item := FindFaultedTb(p.list, a);
    FoundIfListed(p, a);
    assert EntryOk(s, n) && EntryOk(p, n);
    if InTb(vaddr, size, a) {
      if item.Some? {
        var list := p.list[item.value := FaultedTb(a, true)];
        assert r.list == list;
        NewestIs(list, item.value, a);
        forall k | 0 <= k < n && !s.captured[k] && vaddr <= s.active[k] <= vaddr + size ensures NewestSaved(list, s.active[k]) {
          SavedStays(p.list, item.value, s.active[k], a);
        }
      } else {
        assert r.list == p.list;
      }
    }
  }

  lemma NewestIs(list: seq<FaultedTb>, j: nat, a: int)
    requires j < |list| && list[j] == FaultedTb(a, true) && forall i :: 0 <= i < j ==> list[i].address != a
    ensures NewestSaved(list, a)
  {
  }

  lemma {:induction false} EntriesSaved(c: seq<Fault>, s: State, vaddr: int, size: int, n: nat)
    requires Registry(c, s) && n <= s.current
    ensures SavedIn(s, vaddr, size, n, CheckEntries(s, vaddr, size, n))
  {
    hide EntryOk, FaultAt, CheckEntry, Served, Listed, SavedIn;
    if n == 0 {
      SavedNone(s, vaddr, size);
    } else {
      EntriesSaved(c, s, vaddr, size, n - 1);
      EntriesServed(c, s, vaddr, size, n - 1);
      SaveNext(c, s, vaddr, size, n - 1, CheckEntries(s, vaddr, size, n - 1));
    }
  }

  lemma SavedNone(s: State, vaddr: int, size: int)
    requires Sized(s)
    ensures SavedIn(s, vaddr, size, 0, s)
  {
  }

  /** No faulted TB that waits lies in the TB just translated. */
  ghost predicate NoneMissed(r: State, vaddr: int, size: int) {
    Sized(r) && forall k :: 0 <= k < r.current && !r.captured[k] ==> !(vaddr <= r.active[k] <= vaddr + size)
  }

  /** What a translation captures, unless the counter of served entries makes it skip that: all
      faulted TBs that lie in the TB, their newest list entries saved, no others. */
  lemma CheckCaptures(c: seq<Fault>, s: State, vaddr: int, size: int)
    requires Registry(c, s) && s.done != s.current
    ensures var r := CheckFaultedTbs(s, vaddr, size);
            && NoneMissed(r, vaddr, size) && r.current == s.current
            && (forall k :: 0 <= k < s.current ==>
                  (r.captured[k] <==> s.captured[k] || vaddr <= s.active[k] <= vaddr + size))
            && SavedIn(s, vaddr, size, s.current, r)
  {
    hide Listed, FaultAt, EntryOk, CheckEntries, SavedIn;
    EntriesServed(c, s, vaddr, size, s.current);
    EntriesSaved(c, s, vaddr, size, s.current);
  }

  /** In a started plugin: what CheckCaptures says of one translation. */
  lemma TranslationCaptures(c: seq<Fault>, s: State, vaddr: int, size: int)
    requires Reachable(c, s) && s.started && s.done != s.current
    ensures Sized(s) && |s.faults| == |c|
    ensures var r := Step(s, TranslateTb(vaddr, size));
            && NoneMissed(r, vaddr, size) && r.current == s.current
            && (forall k :: 0 <= k < s.current ==>
                  (r.captured[k] <==> s.captured[k] || vaddr <= s.active[k] <= vaddr + size))
            && SavedIn(s, vaddr, size, s.current, r)
  {
    hide Reachable, Registry, FaultOk, LiveOk, InjectedOf, History, EvaluateSlots, EvaluateLives, CheckFaultedTbs, NoneMissed, SavedIn;
    ReachableKeeps(c, s);
    ReachableRegistry(c, s);
    var e := Evaluated(s, vaddr, size);
    EvaluationKeeps(c, s, vaddr, size);
    RegistryIgnores(c, s, e);
    CheckCaptures(c, e, vaddr, size);
    SavedBefore(s, e, vaddr, size, CheckFaultedTbs(e, vaddr, size));
  }

  lemma SavedBefore(s: State, e: State, vaddr: int, size: int, r: State)
    requires Sized(s) && Sized(e) && e.list == s.list && e.active == s.active && e.captured == s.captured && e.current == s.current
    requires SavedIn(e, vaddr, size, e.current, r)
    ensures SavedIn(s, vaddr, size, s.current, r)
  {
  }

  /** A translation misses a faulted TB that waits in it exactly if the plugin has started, the
      counter of served entries says that all are served, and one in the TB is not. */
  lemma MissedExactlyIf(c: seq<Fault>, s: State, vaddr: int, size: int)
    requires Reachable(c, s)
    ensures Sized(s) && |s.faults| == |c|
    ensures NoneMissed(Step(s, TranslateTb(vaddr, size)), vaddr, size)
            <==> !s.started || s.done != s.current || NoneMissed(s, vaddr, size)
  {
    hide Reachable, Registry, FaultOk, LiveOk, InjectedOf, History, EvaluateSlots, EvaluateLives, CheckEntries, FirstTb, SavedIn, Registered;
    ReachableKeeps(c, s);
    if !s.started {
      OnlyStart(c, s);
      var a := BeforeFirstCapture(c, vaddr, size);
      if a.done != a.current { CheckCaptures(c, a, vaddr, size); } else { NothingWaits(a); }
    } else if s.done != s.current {
      TranslationCaptures(c, s, vaddr, size);
    } else {
      EvaluationKeeps(c, s, vaddr, size);
    }
  }

  lemma NothingWaits(s: State)
    requires Uncaptured(s) && s.done == s.current
    ensures s.current == 0
  {
  }

  /** Only the start state is not started. */
  lemma OnlyStart(c: seq<Fault>, s: State)
    requires Reachable(c, s) && !s.started
    ensures s == Registered(c)
  {
    hide Inv, Registered;
    var es, ss :| IsRun(c, es, ss) && ss[|es|] == s;
    RunStarts(c, es, ss, |es|);
  }

  // ---- The counter of served entries ----

  ghost predicate DoneIsCount(s: State) {
    s.done == CountTrue(s.captured)
  }

  lemma {:induction false} CountPrefix(b: seq<bool>, n: nat)
    requires n <= |b| && forall k :: n <= k < |b| ==> !b[k]
    ensures CountTrue(b) <= n && (CountTrue(b) == n ==> forall k :: 0 <= k < n ==> b[k])
    decreases |b|
  {
    if |b| > n {
      CountPrefix(b[..|b| - 1], n);
      assert forall k :: 0 <= k < n ==> b[..|b| - 1][k] == b[k];
    } else if b != [] {
      CountPrefix(b[..n - 1], n - 1);
      assert forall k :: 0 <= k < n - 1 ==> b[..n - 1][k] == b[k];
    }
  }

  /** When the counter is right, the capture is skipped only if nothing waits. */
  lemma SkippedWhenDone(c: seq<Fault>, s: State)
    requires Registry(c, s) && DoneIsCount(s) && s.done == s.current
    ensures forall k :: 0 <= k < s.current ==> s.captured[k]
  {
    forall k | s.current <= k < |c| ensures !s.captured[k] { assert EntryOk(s, k); }
    CountPrefix(s.captured, s.current);
  }

  lemma {:induction false} ServingCounts(c: seq<Fault>, s: State, vaddr: int, size: int, n: nat)
    requires Registry(c, s) && n <= s.current && DoneIsCount(s) && !(vaddr <= SERVED <= vaddr + size)
    ensures DoneIsCount(CheckEntries(s, vaddr, size, n))
  {
    hide Listed, FaultAt, CheckEntry, CountTrue;
    if n > 0 {
      var p := CheckEntries(s, vaddr, size, n - 1);
      ServingCounts(c, s, vaddr, size, n - 1);
      EntriesServed(c, s, vaddr, size, n - 1);
      if InTb(vaddr, size, p.active[n - 1]) {
        assert EntryOk(p, n - 1);
        ServedEntry(c, p, vaddr, size, n - 1, CheckEntries(s, vaddr, size, n));
        CountUpdate(p.captured, n - 1, true);
      } else {
        NotServed(p, vaddr, size, n - 1);
      }
    }
  }

  /** No translated TB contains the marker address. */
  ghost predicate MarkerNotTranslated(es: seq<Event>) {
    forall k :: 0 <= k < |es| && es[k].TranslateTb? ==> !(es[k].vaddr <= SERVED <= es[k].vaddr + es[k].size)
  }

  lemma CheckCounts(c: seq<Fault>, s: State, vaddr: int, size: int)
    requires Registry(c, s) && DoneIsCount(s) && !(vaddr <= SERVED <= vaddr + size)
    ensures DoneIsCount(CheckFaultedTbs(s, vaddr, size)) && NoneMissed(CheckFaultedTbs(s, vaddr, size), vaddr, size)
  {
    hide EntryOk, Listed, FaultAt, CheckEntries, SavedIn;
    if s.done == s.current {
      SkippedWhenDone(c, s);
    } else {
      ServingCounts(c, s, vaddr, size, s.current);
      CheckCaptures(c, s, vaddr, size);
    }
  }

  lemma StepCountsDone(c: seq<Fault>, s: State, e: Event)
    requires RunningInv(c, s) && s.started && Registry(c, s) && DoneIsCount(s) && Enabled(s, e)
    requires e.TranslateTb? ==> !(e.vaddr <= SERVED <= e.vaddr + e.size)
    ensures DoneIsCount(Step(s, e)) && (e.TranslateTb? ==> NoneMissed(Step(s, e), e.vaddr, e.size))
  {
    hide FaultOk, LiveOk, InjectedOf, History, TriggerCallback, ExecCallback, EvaluateSlots, EvaluateLives, CheckFaultedTbs, Inject;
    hide Registry, CountTrue, NoneMissed;
    match e
    case TranslateTb(vaddr, size) =>
      var a := Evaluated(s, vaddr, size);
      EvaluationKeeps(c, s, vaddr, size);
      RegistryIgnores(c, s, a);
      CheckCounts(c, a, vaddr, size);
    case TriggerHit(i) =>
      TriggerResult(c, s, i);
      if s.faults[i].hitcounter == 1 { InjectRequests(c, Counted(s, i), i); }
    case LiveHit(i) =>
      WatchedIsInjected(c, s, i);
      ExecResult(c, s, i);
  }

  lemma {:induction false} RunCountsDone(c: seq<Fault>, es: seq<Event>, ss: seq<State>, k: nat)
    requires IsRun(c, es, ss) && 0 < k <= |es| && MarkerNotTranslated(es)
    ensures DoneIsCount(ss[k]) && (es[k - 1].TranslateTb? ==> NoneMissed(ss[k], es[k - 1].vaddr, es[k - 1].size))
  {
    hide Registry, RunningInv, Numbered, Translate, TriggerCallback, ExecCallback, Registered, DoneIsCount, NoneMissed, FirstTb;
    assert IsStep(ss[k - 1], es[k - 1], ss[k - 1 + 1]);
    StartNotStarted(c);
    if k == 1 {
      var a := BeforeFirstCapture(c, es[0].vaddr, es[0].size);
      UncapturedCounts(a);
      CheckCounts(c, a, es[0].vaddr, es[0].size);
    } else {
      RunCountsDone(c, es, ss, k - 1);
      RunRegistry(c, es, ss, k - 1);
      RunStarts(c, es, ss, k - 1);
      RunIsNumbered(c, es, ss, k - 1);
      StepCountsDone(c, ss[k - 1], es[k - 1]);
    }
  }

  lemma UncapturedCounts(s: State)
    requires Uncaptured(s)
    ensures DoneIsCount(s)
  {
    AllFalse(s.captured);
  }

  /** Every faulted TB is captured as soon as it is translated, in every run that does not
      translate the marker address, whatever the configuration. */
  lemma CapturedWhenTranslated(c: seq<Fault>, es: seq<Event>, ss: seq<State>, k: nat)
    requires IsRun(c, es, ss) && k < |es| && MarkerNotTranslated(es) && es[k].TranslateTb?
    ensures NoneMissed(ss[k + 1], es[k].vaddr, es[k].size)
  {
    RunCountsDone(c, es, ss, k + 1);
  }

  // ---- Configurations ----

  const ON_MARKER := [Fault(SERVED, Instruction, 0, 0, 0, 0), Fault(0x3000, Instruction, 0, 0, 0, 1)]

  /** Two faulted TBs, of which the one at the marker address was captured `times` times. */
  function MarkerState(times: nat): State
    requires 0 < times <= 2
  {
    State(ON_MARKER, [0, 0], [None, None], 0, true, 2 - times, times < 2, 0, [SERVED, 0x3000], [true, false], 2, times,
          [FaultedTb(0x3000, false), FaultedTb(SERVED, true)], [0, 0], [0, 0], [1, 1], [0, 0], {}, {})
  }

  lemma MarkerStart(s: State)
    requires s == Registered(ON_MARKER)
    ensures s == State(ON_MARKER, [0, 0], [None, None], 0, false, 0, false, 0, [0xdeadbeef, 0xdeadbeef], [false, false], 0, 0, [],
                       [0, 0], [0, 0], [0, 0], [0, 0], {}, {})
  {
  }

  lemma MarkerInjection(s: State, k: nat)
    requires Sized(s) && k < |s.faults| && AtFirstTb(s.faults[k]) && s.faults[k].lifetime == 0 && s.faults[k].trignum == k
    requires s.slots[k] == 0 && s.current < |s.active|
    ensures var f := s.faults[k]; FirstTbFault(s, k) == s.(
              injections := s.injections[k := s.injections[k] + 1], requests := s.requests + 1, stepping := true,
              current := s.current + 1, active := s.active[s.current := f.address], list := [FaultedTb(f.address, false)] + s.list)
  {
    assert s.slots[k := 0] == s.slots;
  }

  lemma MarkerFirstTb(s: State, r: State)
    requires s == Registered(ON_MARKER) && r == Translate(s, SERVED, 1)
    ensures r == MarkerState(1)
  {
    hide FirstTbFault, CheckFaultedTbs, Registered;
    MarkerStart(s);
    MarkerInjection(s, 0);
    var a := FirstTb(s, 1);
    assert FirstTb(s, 0) == s && a == FirstTbFault(s, 0);
    MarkerInjection(a, 1);
    assert FirstTb(s, 2) == FirstTbFault(a, 1);
    MarkerCapture(FirstTb(s, 2).(started := true), r);
  }

  lemma MarkerCapture(s: State, r: State)
    requires s.active == [SERVED, 0x3000] && |s.captured| == 2 && s.current == 2 && s.done < 2 && s.requests > 0
    requires |s.list| == 2 && s.list[0] == FaultedTb(0x3000, false) && s.list[1].address == SERVED
    requires r == CheckFaultedTbs(s, SERVED, 1)
    ensures r == s.(captured := s.captured[0 := true], done := s.done + 1, requests := s.requests - 1, stepping := s.requests - 1 > 0,
                    list := [FaultedTb(0x3000, false), FaultedTb(SERVED, true)])
  {
    assert FindFaultedTb(s.list, SERVED) == Some(1);
    assert CheckEntries(s, SERVED, 1, 0) == s;
    var e := CheckEntries(s, SERVED, 1, 1);
    assert e.active == [SERVED, 0x3000];
    assert CheckEntries(s, SERVED, 1, 2) == e;
  }

  /** With a fault at the marker address the TB there is captured twice and gives back the
      request of another one: stepping is off while that one still waits. */
  lemma SentinelBreaksConservation(ss: seq<State>)
    requires ss == [Registered(ON_MARKER), MarkerState(1), MarkerState(2)]
    ensures !MarkerHarmless(ON_MARKER) && IsRun(ON_MARKER, [TranslateTb(SERVED, 1), TranslateTb(SERVED, 1)], ss)
    ensures Sized(ss[2]) && ss[2].requests == 0 && ss[2].done == ss[2].current && Waiting(ss[2])[1]
  {
    MarkerFirstTb(ss[0], Translate(ss[0], SERVED, 1));
    var s := MarkerState(1);
    assert EvaluateSlots(s, SERVED, 1, 0) == EvaluateSlots(s, SERVED, 1, 1) == s;
    assert EvaluateSlots(s, SERVED, 1, 2) == s;
    MarkerCapture(s, Translate(s, SERVED, 1));
    forall k | 0 <= k < 2 ensures IsStep(ss[k], TranslateTb(SERVED, 1), ss[k + 1]) {}
    assert Registers(ON_MARKER, 0) && Registers(ON_MARKER, 1);
    assert ON_MARKER[0].address == SERVED && ON_MARKER[1].address != SERVED;
  }

  /** The counter of served entries has then reached their number, so that the other faulted TB is
      not captured when it is translated. */
  lemma ServedTwiceIsMissed(ss: seq<State>)
    requires ss == [Registered(ON_MARKER), MarkerState(1), MarkerState(2)]
    ensures Reachable(ON_MARKER, ss[2]) && Sized(ss[2]) && !NoneMissed(Step(ss[2], TranslateTb(0x3000, 4)), 0x3000, 4)
  {
    hide Registered, MarkerHarmless;
    SentinelBreaksConservation(ss);
    var es := [TranslateTb(SERVED, 1), TranslateTb(SERVED, 1)];
    assert IsRun(ON_MARKER, es, ss) && ss[|es|] == ss[2];
    MissedExactlyIf(ON_MARKER, ss[2], 0x3000, 4);
    assert !ss[2].captured[1] && ss[2].active[1] == 0x3000;
  }

  /** A fault at the marker does no harm as long as it is the only one that can be injected. */
  lemma LoneMarkerConserves(s: State)
    requires Reachable(ON_MARKER[..1], s)
    ensures IsConserved(ON_MARKER[..1], s)
  {
    RequestsAreConserved(ON_MARKER[..1]);
  }
}
