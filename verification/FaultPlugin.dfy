/** The plugin as it is written: a linked list of faults, arrays of triggers and live faults,
    callbacks that update them in place. Every operation refines its step of the state machine,
    and the invariant of the runs keeps every array access within bounds. */
module FaultPlugin {
  import opened Wrappers
  import opened PluginState
  import opened PluginRuns

  /** `fault_list_t`; `rank` counts the nodes behind this one. */
  class FaultNode {
    var fault: Fault
    const next: FaultNode?
    ghost const rank: nat

    constructor (fault: Fault, next: FaultNode?)
      ensures this.fault == fault && this.next == next && rank == if next == null then 0 else next.rank + 1
    {
      this.fault := fault;
      this.next := next;
      this.rank := if next == null then 0 else next.rank + 1;
    }
  }

  /** `tb_faulted_t`. */
  class TbNode {
    const address: int
    var assembled: bool
    const next: TbNode?
    ghost const rank: nat

    constructor (address: int, next: TbNode?)
      ensures this.address == address && this.next == next && !assembled && rank == if next == null then 0 else next.rank + 1
    {
      this.address := address;
      this.assembled := false;
      this.next := next;
      this.rank := if next == null then 0 else next.rank + 1;
    }
  }

  ghost predicate Linked(first: FaultNode?, nodes: seq<FaultNode>) {
    && first == (if nodes == [] then null else nodes[0])
    && (forall i {:trigger nodes[i]} :: 0 <= i < |nodes| ==> nodes[i].rank == |nodes| - 1 - i)
    && (forall i {:trigger nodes[i].next} :: 0 <= i < |nodes| ==> nodes[i].next == if i + 1 < |nodes| then nodes[i + 1] else null)
  }

  ghost predicate TbLinked(first: TbNode?, nodes: seq<TbNode>) {
    && first == (if nodes == [] then null else nodes[0])
    && (forall i {:trigger nodes[i]} :: 0 <= i < |nodes| ==> nodes[i].rank == |nodes| - 1 - i)
    && (forall i {:trigger nodes[i].next} :: 0 <= i < |nodes| ==> nodes[i].next == if i + 1 < |nodes| then nodes[i + 1] else null)
  }

  /** The first n faults have been numbered. */
  ghost predicate Numbered(nodes: seq<FaultNode>, c: seq<Fault>, n: nat)
    reads nodes
  {
    |nodes| == |c| && forall i :: 0 <= i < |c| ==> nodes[i].fault == if i < n then c[i].(trignum := i) else c[i]
  }

  method SetFaultTriggerNum(ghost nodes: seq<FaultNode>, ghost c: seq<Fault>, trignum: nat, ghost first: FaultNode?, current: FaultNode)
    requires Linked(first, nodes) && Numbered(nodes, c, trignum) && trignum < |nodes| && current == nodes[trignum]
    modifies current
    ensures Numbered(nodes, c, trignum + 1)
  {
    current.fault := current.fault.(trignum := trignum);
  }

  lemma Following(first: FaultNode?, nodes: seq<FaultNode>, i: nat)
    requires Linked(first, nodes) && i < |nodes|
    ensures nodes[i].next == if i + 1 < |nodes| then nodes[i + 1] else null
  {
  }

  method RegisterFaultTriggerAddresses(first: FaultNode?, ghost nodes: seq<FaultNode>, ghost c: seq<Fault>, addresses: array<int>)
    requires Linked(first, nodes) && FaultsAgree(nodes, c) && addresses.Length == |c|
    modifies addresses, nodes
    ensures FaultsAgree(nodes, Registered(c).faults) && addresses[..] == Registered(c).slots
  {
    var current := first;
    for j := 0 to addresses.Length
      invariant Numbered(nodes, c, j) && current == if j < |nodes| then nodes[j] else null
      invariant forall i :: 0 <= i < j ==> addresses[i] == c[i].triggerAddress
    {
      Following(first, nodes, j);
      addresses[j] := current.fault.triggerAddress;
      SetFaultTriggerNum(nodes, c, j, first, current);
      current := current.next;
    }
  }

  lemma StartTables(nodes: seq<FaultNode>, c: seq<Fault>, live: array<FaultNode?>)
    requires live.Length == |c| && forall i :: 0 <= i < |c| ==> live[i] == null
    ensures var s := Registered(c);
            && s.active == seq(|c|, _ => 0xdeadbeef) && LiveAgree(live, nodes, s.live)
            && s.liveNumber == s.requests == s.current == s.done == 0 && !s.started && !s.stepping && s.list == []
    ensures TbsAgree([], []) && TbLinked(null, [])
  {
  }

  lemma TbPush(first: TbNode?, nodes: seq<TbNode>, list: seq<FaultedTb>, n: TbNode)
    requires TbLinked(first, nodes) && TbsAgree(nodes, list) && !n.assembled
    requires n.next == first && n.rank == if first == null then 0 else first.rank + 1
    ensures TbLinked(n, [n] + nodes) && TbsAgree([n] + nodes, [FaultedTb(n.address, false)] + list)
  {
    var more := [n] + nodes;
    forall i | 0 <= i < |more|
      ensures more[i].rank == |more| - 1 - i && more[i].next == if i + 1 < |more| then more[i + 1] else null
    {
      if i > 0 {
        var p := i - 1;
        assert more[i] == nodes[p];
        assert nodes[p].next == if p + 1 < |nodes| then nodes[p + 1] else null;
      }
      if i < |nodes| { assert more[i + 1] == nodes[i]; }
    }
  }

  ghost predicate FaultsAgree(nodes: seq<FaultNode>, faults: seq<Fault>)
    reads nodes
  {
    |nodes| == |faults| && forall i :: 0 <= i < |nodes| ==> nodes[i].fault == faults[i]
  }

  ghost predicate TbsAgree(nodes: seq<TbNode>, list: seq<FaultedTb>)
    reads nodes
  {
    |nodes| == |list| && forall i :: 0 <= i < |nodes| ==> list[i] == FaultedTb(nodes[i].address, nodes[i].assembled)
  }

  ghost predicate LiveAgree(liveFaults: array<FaultNode?>, nodes: seq<FaultNode>, live: seq<Option<nat>>)
    reads liveFaults
  {
    && liveFaults.Length == |live|
    && forall k :: 0 <= k < |live| ==>
         liveFaults[k] == if live[k].Some? && live[k].value < |nodes| then nodes[live[k].value] else null
  }

  lemma {:induction false} CheckEntriesCurrent(s: State, vaddr: int, size: int, n: nat)
    requires n <= |s.active| == |s.captured|
    ensures CheckEntries(s, vaddr, size, n).current == s.current
  {
    if n > 0 { CheckEntriesCurrent(s, vaddr, size, n - 1); }
  }

  ghost function Faults(nodes: seq<FaultNode>): (r: seq<Fault>)
    reads nodes
    ensures FaultsAgree(nodes, r)
  {
    seq(|nodes|, i requires 0 <= i < |nodes| reads nodes => nodes[i].fault)
  }

  /** `fault_list.c`: the newest fault is the first. */
  class FaultList {
    var first: FaultNode?
    ghost var nodes: seq<FaultNode>

    ghost predicate Valid()
      reads this
    {
      Linked(first, nodes)
    }

    constructor ()
      ensures Valid() && nodes == []
    {
      first, nodes := null, [];
    }

    method AddFault(fault: Fault)
      requires Valid()
      modifies this
      ensures Valid() && |nodes| > 0 && fresh(nodes[0]) && nodes == [nodes[0]] + old(nodes)
      ensures Faults(nodes) == [fault] + old(Faults(nodes))
    {
      var node := new FaultNode(fault, first);
      first := node;
      nodes := [node] + nodes;
    }

    method Size() returns (n: nat)
      requires Valid()
      ensures n == |nodes|
    {
      n := 0;
      var current := first;
      while current != null
        invariant Linked(first, nodes) && n <= |nodes| && current == if n < |nodes| then nodes[n] else null
        decreases |nodes| - n
      {
        n, current := n + 1, current.next;
      }
    }
  }

  lemma CurrentFault(nodes: seq<FaultNode>, faults: seq<Fault>, i: nat)
    requires FaultsAgree(nodes, faults) && i < |nodes|
    ensures |nodes| == |faults| && nodes[i].fault == faults[i]
  {
  }

  /** At the first TB the number that names a fault's slot, and later its live entry, is in range. */
  lemma FirstTbNumbers(c: seq<Fault>, s: State, i: nat)
    requires FirstTbInv(c, s, i) && i < |c|
    ensures Sized(s) && |s.faults| == |c| && s.faults[i].trignum == i
    ensures s.faults[i].hitcounter == 0 && s.faults[i].kind == Instruction ==>
              0 <= Inject(AddRequest(s), i).faults[i].trignum < |c|
  {
    FirstTbFaultResult(c, s, i);
    assert FaultOk(c, s, i);
    if s.faults[i].hitcounter == 0 && s.faults[i].kind == Instruction {
      InjectResult(c, AddRequest(s), i);
    }
  }

  lemma TriggerNumber(c: seq<Fault>, s: State, i: nat)
    requires RunningInv(c, s) && i < |c|
    ensures Sized(s) && |s.faults| == |c| && (s.faults[i].hitcounter > 0 ==> s.faults[i].trignum == i)
    ensures RunningInv(c, TriggerCallback(s, i))
  {
    hide TriggerCallback, LiveOk, InjectedOf;
    assert FaultOk(c, s, i);
    TriggerKeeps(c, s, i);
  }

  lemma ExecNumber(c: seq<Fault>, s: State, i: nat)
    requires RunningInv(c, s) && i < |c| && i in s.watched
    ensures Sized(s) && |s.faults| == |c| && (s.faults[i].lifetime > 0 ==> 0 <= s.faults[i].trignum < |c|)
    ensures RunningInv(c, ExecCallback(s, i))
  {
    hide ExecCallback, LiveOk, InjectedOf;
    assert FaultOk(c, s, i);
    ExecKeeps(c, s, i);
  }

  lemma LiveInRange(c: seq<Fault>, s: State, k: nat)
    requires Shape(c, s) && k < |c|
    ensures Sized(s) && |s.faults| == |c| && (s.live[k].Some? ==> s.live[k].value < |c|)
  {
    assert LiveOk(s, k);
  }

  lemma EmptyEntry(liveFaults: array<FaultNode?>, nodes: seq<FaultNode>, s: State, k: nat)
    requires LiveAgree(liveFaults, nodes, s.live) && k < |s.live| && liveFaults[k] == null
    requires s.live[k].Some? ==> s.live[k].value < |nodes|
    ensures EvaluateLive(s, k) == s
  {
  }

  lemma SlotsShape(c: seq<Fault>, s: State, vaddr: int, size: int)
    requires RunningInv(c, s)
    ensures Sized(s) && |s.faults| == |c|
    ensures var r := EvaluateSlots(s, vaddr, size, |c|); Shape(c, r) && r.liveNumber == s.liveNumber
  {
    ShapeIgnores(c, s, EvaluateSlots(s, vaddr, size, |c|));
  }

  // ---- The instructions of a TB ----

  datatype Insn = Insn(vaddr: int, size: nat)

  predicate HoldsAddress(insn: Insn, address: int) {
    address >= insn.vaddr && address < insn.vaddr + insn.size
  }

  /** The first n instructions lie one behind the other from vaddr on and take up size bytes. */
  ghost predicate Contiguous(insns: seq<Insn>, vaddr: int, size: int, n: nat)
    requires n <= |insns|
    decreases n
  {
    if n == 0 then size == 0
    else insns[n - 1].vaddr == vaddr + size - insns[n - 1].size && Contiguous(insns, vaddr, size - insns[n - 1].size, n - 1)
  }

  lemma {:induction false} Ends(insns: seq<Insn>, vaddr: int, size: int, n: nat, i: nat)
    requires i < n <= |insns| && Contiguous(insns, vaddr, size, n)
    ensures vaddr <= insns[i].vaddr && insns[i].vaddr + insns[i].size <= vaddr + size
    decreases n
  {
    if i < n - 1 {
      Ends(insns, vaddr, size - insns[n - 1].size, n - 1, i);
    } else if n > 1 {
      Ends(insns, vaddr, size - insns[n - 1].size, n - 1, n - 2);
    }
  }

  /** Exactly one instruction of a TB holds an address in it. */
  lemma {:induction false} OneHolds(insns: seq<Insn>, vaddr: int, size: int, n: nat, address: int) returns (i: nat)
    requires n <= |insns| && Contiguous(insns, vaddr, size, n) && vaddr <= address < vaddr + size
    ensures i < n && forall j :: 0 <= j < n ==> (HoldsAddress(insns[j], address) <==> j == i)
    decreases n
  {
    var last := insns[n - 1];
    if address >= last.vaddr {
      i := n - 1;
      forall j | 0 <= j < n - 1 ensures !HoldsAddress(insns[j], address) { Ends(insns, vaddr, size - last.size, n - 1, j); }
    } else {
      i := OneHolds(insns, vaddr, size - last.size, n - 1, address);
    }
  }

  // ---- Callbacks ----

  /** The callback of a fault, registered on an instruction of a TB. */
  datatype Callback = Callback(fault: FaultNode, insn: nat)

  /** One fault's callbacks: on each of these instructions that holds the address. */
  ghost predicate CallbacksOf(node: FaultNode, insns: seq<Insn>, address: int, callbacks: seq<Callback>) {
    && (forall x {:trigger x in callbacks} :: x in callbacks ==> x.fault == node)
    && forall j: nat {:trigger Callback(node, j)} :: Callback(node, j) in callbacks <==> j < |insns| && HoldsAddress(insns[j], address)
  }

  lemma NextCallback(node: FaultNode, insns: seq<Insn>, j: nat, address: int, before: seq<Callback>, after: seq<Callback>)
    requires j < |insns| && CallbacksOf(node, insns[..j], address, before)
    requires after == if HoldsAddress(insns[j], address) then before + [Callback(node, j)] else before
    ensures CallbacksOf(node, insns[..j + 1], address, after)
  {
    hide HoldsAddress;
    forall x: nat ensures Callback(node, x) in after <==> x < j + 1 && HoldsAddress(insns[..j + 1][x], address) {
      assert Callback(node, x) in before <==> x < j && HoldsAddress(insns[..j][x], address);
      assert x <= j ==> insns[..j + 1][x] == insns[x];
    }
  }

  /** The slots lo to hi - 1 have their faults' callbacks on the instructions that hold the triggers. */
  ghost predicate OnTriggers(nodes: seq<FaultNode>, faults: seq<Fault>, slots: seq<int>, insns: seq<Insn>, lo: nat, hi: nat, callbacks: seq<Callback>)
    requires |nodes| == |faults| == |slots| && lo <= hi <= |slots|
  {
    forall i: nat, j: nat {:trigger Callback(nodes[i], j)} :: i < |nodes| ==>
      (Callback(nodes[i], j) in callbacks
       <==> j < |insns| && HoldsAddress(insns[j], faults[i].triggerAddress)
            && exists k :: lo <= k < hi && Lookup(faults, slots[k], k) == Some(i))
  }

  /** The same of those among the first n slots whose address lies in the TB. */
  ghost predicate OnTriggersIn(nodes: seq<FaultNode>, faults: seq<Fault>, slots: seq<int>, insns: seq<Insn>, vaddr: int, size: int, n: nat,
                               callbacks: seq<Callback>)
    requires |nodes| == |faults| == |slots| && n <= |slots|
  {
    forall i: nat, j: nat {:trigger Callback(nodes[i], j)} :: i < |nodes| ==>
      (Callback(nodes[i], j) in callbacks
       <==> j < |insns| && HoldsAddress(insns[j], faults[i].triggerAddress)
            && exists k :: 0 <= k < n && vaddr <= slots[k] < vaddr + size && Lookup(faults, slots[k], k) == Some(i))
  }

  lemma NoTriggers(nodes: seq<FaultNode>, faults: seq<Fault>, slots: seq<int>, insns: seq<Insn>, vaddr: int, size: int)
    requires |nodes| == |faults| == |slots|
    ensures OnTriggersIn(nodes, faults, slots, insns, vaddr, size, 0, [])
  {
  }

  lemma MoreTriggers(nodes: seq<FaultNode>, faults: seq<Fault>, slots: seq<int>, insns: seq<Insn>, vaddr: int, size: int, n: nat,
                     before: seq<Callback>, more: seq<Callback>)
    requires |nodes| == |faults| == |slots| && n < |slots| && vaddr <= slots[n] < vaddr + size
    requires OnTriggersIn(nodes, faults, slots, insns, vaddr, size, n, before) && OnTriggers(nodes, faults, slots, insns, n, n + 1, more)
    ensures OnTriggersIn(nodes, faults, slots, insns, vaddr, size, n + 1, before + more)
  {
    hide HoldsAddress, Lookup;
  }

  lemma OtherTb(nodes: seq<FaultNode>, faults: seq<Fault>, slots: seq<int>, insns: seq<Insn>, vaddr: int, size: int, n: nat,
                callbacks: seq<Callback>)
    requires |nodes| == |faults| == |slots| && n < |slots| && !(vaddr <= slots[n] < vaddr + size)
    requires OnTriggersIn(nodes, faults, slots, insns, vaddr, size, n, callbacks)
    ensures OnTriggersIn(nodes, faults, slots, insns, vaddr, size, n + 1, callbacks)
  {
    hide HoldsAddress, Lookup;
  }

  /** A found fault has its callback on exactly one instruction of a TB whose instructions lie one behind the other. */
  lemma OneInstruction(nodes: seq<FaultNode>, faults: seq<Fault>, slots: seq<int>, insns: seq<Insn>, vaddr: int, size: int,
                       callbacks: seq<Callback>, i: nat, k: nat) returns (j: nat)
    requires |nodes| == |faults| == |slots| && OnTriggersIn(nodes, faults, slots, insns, vaddr, size, |slots|, callbacks)
    requires Contiguous(insns, vaddr, size, |insns|) && k < |slots| && i < |nodes|
    requires vaddr <= slots[k] < vaddr + size && Lookup(faults, slots[k], k) == Some(i)
    ensures j < |insns| && HoldsAddress(insns[j], slots[k]) && forall x: nat :: Callback(nodes[i], x) in callbacks <==> x == j
  {
    hide Lookup, Contiguous, HoldsAddress;
    LookupMatches(faults, slots[k], k, i);
    j := OneHolds(insns, vaddr, size, |insns|, slots[k]);
  }

  lemma LookupMatches(faults: seq<Fault>, address: int, number: int, i: nat)
    requires Lookup(faults, address, number) == Some(i)
    ensures i < |faults| && faults[i].triggerAddress == address
  {
  }

  /** The first n live entries have their faults' callbacks on all instructions. */
  ghost predicate OnLives(nodes: seq<FaultNode>, s: State, insns: seq<Insn>, n: nat, callbacks: seq<Callback>)
    requires Sized(s) && |nodes| == |s.faults| && n <= |s.live|
  {
    forall i: nat, j: nat {:trigger Callback(nodes[i], j)} :: i < |nodes| ==>
      (Callback(nodes[i], j) in callbacks
       <==> j < |insns| && s.faults[i].lifetime > 0 && exists k :: 0 <= k < n && s.live[k] == Some(i))
  }

  /** Exactly the faults in effect have a live callback, on every instruction. */
  ghost predicate OnAlive(nodes: seq<FaultNode>, s: State, insns: seq<Insn>, callbacks: seq<Callback>)
    requires Sized(s) && |nodes| == |s.faults|
  {
    forall i: nat, j: nat {:trigger Callback(nodes[i], j)} :: i < |nodes| ==>
      (Callback(nodes[i], j) in callbacks <==> j < |insns| && s.injections[i] == 1 && s.faults[i].lifetime > 0)
  }

  lemma NoLives(nodes: seq<FaultNode>, s: State, insns: seq<Insn>)
    requires Sized(s) && |nodes| == |s.faults|
    ensures OnLives(nodes, s, insns, 0, [])
  {
  }

  lemma NoEntry(liveFaults: array<FaultNode?>, nodes: seq<FaultNode>, s: State, k: nat)
    requires LiveAgree(liveFaults, nodes, s.live) && k < |s.live| && liveFaults[k] == null
    ensures s.live[k].Some? ==> s.live[k].value >= |nodes|
  {
  }

  lemma MoreLives(nodes: seq<FaultNode>, s: State, insns: seq<Insn>, n: nat, before: seq<Callback>, more: seq<Callback>)
    requires Sized(s) && |nodes| == |s.faults| && n < |s.live| && OnLives(nodes, s, insns, n, before)
    requires forall x, y :: 0 <= x < y < |nodes| ==> nodes[x] != nodes[y]
    requires s.live[n].Some? ==> s.live[n].value < |nodes|
    requires if s.live[n].Some? && s.faults[s.live[n].value].lifetime > 0
             then |more| == |insns| && forall j :: 0 <= j < |insns| ==> more[j] == Callback(nodes[s.live[n].value], j)
             else more == []
    ensures OnLives(nodes, s, insns, n + 1, before + more)
  {
    forall i: nat, j: nat | i < |nodes|
      ensures Callback(nodes[i], j) in before + more
              <==> j < |insns| && s.faults[i].lifetime > 0 && exists k :: 0 <= k < n + 1 && s.live[k] == Some(i)
    {
      if s.live[n] == Some(i) && s.faults[i].lifetime > 0 && j < |insns| { assert more[j] == Callback(nodes[i], j); }
    }
  }

  lemma AliveInTable(nodes: seq<FaultNode>, c: seq<Fault>, s: State, e: State, insns: seq<Insn>, callbacks: seq<Callback>)
    requires Shape(c, s) && Sized(e) && |nodes| == |e.faults| && e == s.(armed := e.armed)
    requires OnLives(nodes, e, insns, e.liveNumber, callbacks)
    ensures OnAlive(nodes, s, insns, callbacks)
  {
    hide InjectedOf;
    forall i: nat | i < |c|
      ensures s.faults[i].lifetime > 0 ==> (s.injections[i] == 1 <==> exists k :: 0 <= k < s.liveNumber && s.live[k] == Some(i))
    {
      assert FaultOk(c, s, i);
      if k :| 0 <= k < s.liveNumber && s.live[k] == Some(i) { assert LiveOk(s, k); }
    }
  }

  lemma NodesApart(p: Plugin)
    requires p.Valid()
    ensures forall x, y :: 0 <= x < y < |p.nodes| ==> p.nodes[x] != p.nodes[y]
  {
    hide FaultsAgree, TbsAgree, TbLinked, LiveAgree;
  }

  lemma OneTrigger(p: Plugin, insns: seq<Insn>, k: nat, i: Option<nat>, registered: FaultNode?, address: int, callbacks: seq<Callback>)
    requires p.Valid() && k < |p.st.slots| && i == Lookup(p.st.faults, p.st.slots[k], k)
    requires registered == if i.Some? && i.value < |p.nodes| then p.nodes[i.value] else null
    requires if registered != null then address == registered.fault.triggerAddress && CallbacksOf(registered, insns, address, callbacks)
             else callbacks == []
    ensures |p.nodes| == |p.st.faults| == |p.st.slots| && OnTriggers(p.nodes, p.st.faults, p.st.slots, insns, k, k + 1, callbacks)
  {
    hide TbsAgree, TbLinked, LiveAgree, HoldsAddress, Linked;
    NodesApart(p);
    forall x: nat, j: nat | x < |p.nodes|
      ensures Callback(p.nodes[x], j) in callbacks
              <==> j < |insns| && HoldsAddress(insns[j], p.st.faults[x].triggerAddress)
                   && exists y :: k <= y < k + 1 && Lookup(p.st.faults, p.st.slots[y], y) == Some(x)
    {
      if registered != null && x == i.value { assert Callback(registered, j) in callbacks <==> j < |insns| && HoldsAddress(insns[j], address); }
    }
  }

  class Plugin {
    var firstFault: FaultNode?
    const triggerAddresses: array<int>
    const liveFaults: array<FaultNode?>
    const faultNumber: nat
    var liveFaultsNumber: nat
    var firstTb: bool
    var reqSinglestep: nat
    var stepping: bool
    var tbFaultedList: TbNode?
    const activeTriggers: array<int>
    const maxTriggers: nat
    var currentTriggers: nat
    var doneTriggers: nat

    ghost const nodes: seq<FaultNode>
    ghost var tbNodes: seq<TbNode>
    ghost var st: State

    ghost predicate Valid()
      reads this, nodes, tbNodes, triggerAddresses, liveFaults, activeTriggers
    {
      && Sized(st) && faultNumber == maxTriggers == |st.faults|
      && liveFaultsNumber == st.liveNumber && firstTb == st.started
      && reqSinglestep == st.requests && stepping == st.stepping
      && currentTriggers == st.current && doneTriggers == st.done
      && |nodes| == |st.faults| && Linked(firstFault, nodes) && FaultsAgree(nodes, st.faults)
      && TbLinked(tbFaultedList, tbNodes) && TbsAgree(tbNodes, st.list)
      && triggerAddresses != activeTriggers && triggerAddresses[..] == st.slots && activeTriggers[..] == st.active
      && liveFaults.Length == |st.live| && LiveAgree(liveFaults, nodes, st.live)
    }

    /** The plugin's tables for a list of faults. */
    constructor (list: FaultList, number: nat, ghost c: seq<Fault>)
      requires list.Valid() && number == |list.nodes| == |c| && FaultsAgree(list.nodes, c)
      modifies list.nodes
      ensures Valid() && nodes == list.nodes && tbNodes == [] && st == Registered(c)
      ensures fresh(triggerAddresses) && fresh(liveFaults) && fresh(activeTriggers)
    {
      hide Linked, FaultsAgree, TbsAgree, TbLinked, Registered;
      var addresses := new int[number];
      var active := new int[number](_ => 0xdeadbeef);
      var live := new FaultNode?[number](_ => null);
      RegisterFaultTriggerAddresses(list.first, list.nodes, c, addresses);
      StartTables(list.nodes, c, live);
      firstFault, nodes := list.first, list.nodes;
      triggerAddresses, activeTriggers, liveFaults := addresses, active, live;
      faultNumber, maxTriggers := number, number;
      liveFaultsNumber, currentTriggers, doneTriggers, reqSinglestep := 0, 0, 0, 0;
      firstTb, stepping, tbFaultedList, tbNodes := false, false, null, [];
      st := Registered(c);
    }

    // ---- singlestep.c ----

    method AddSinglestepReq()
      requires Valid()
      modifies `reqSinglestep, `stepping, `st
      ensures Valid() && st == AddRequest(old(st))
    {
      hide FaultsAgree, TbsAgree, LiveAgree, Linked, TbLinked;
      reqSinglestep := reqSinglestep + 1;
      CheckSinglestep();
      st := AddRequest(st);
    }

    method RemSinglestepReq()
      requires Valid()
      modifies `reqSinglestep, `stepping, `st
      ensures Valid() && st == RemoveRequest(old(st))
    {
      hide FaultsAgree, TbsAgree, LiveAgree, Linked, TbLinked;
      if reqSinglestep != 0 {
        reqSinglestep := reqSinglestep - 1;
        CheckSinglestep();
      }
      st := RemoveRequest(st);
    }

    method CheckSinglestep()
      modifies `stepping
      ensures stepping == (reqSinglestep != 0)
    {
      if reqSinglestep == 0 { stepping := false; } else { stepping := true; }
    }

    // ---- tb_faulted_collection.c ----

    method PushTb(address: int)
      requires Valid()
      modifies `st, `tbFaultedList, `tbNodes
      ensures Valid() && st == old(st).(list := [FaultedTb(address, false)] + old(st).list)
      ensures |tbNodes| > 0 && fresh(tbNodes[0]) && tbNodes == [tbNodes[0]] + old(tbNodes)
    {
      hide FaultsAgree, LiveAgree, Linked, TbsAgree, TbLinked;
      var item := new TbNode(address, tbFaultedList);
      TbPush(tbFaultedList, tbNodes, st.list, item);
      tbFaultedList := item;
      tbNodes := [item] + tbNodes;
      st := st.(list := [FaultedTb(address, false)] + st.list);
    }

    method TbFaultedRegister(address: int)
      requires Valid()
      modifies `reqSinglestep, `stepping, `st, `tbFaultedList, `tbNodes, `currentTriggers, activeTriggers
      ensures Valid() && st == RegisterFaultedTb(old(st), address)
      ensures tbNodes == old(tbNodes) || (|tbNodes| > 0 && fresh(tbNodes[0]) && tbNodes == [tbNodes[0]] + old(tbNodes))
    {
      hide FaultsAgree, LiveAgree, Linked, TbsAgree, TbLinked;
      if maxTriggers == currentTriggers { return; }
      ghost var s := st;
      AddSinglestepReq();
      PushTb(address);
      activeTriggers[currentTriggers] := address;
      currentTriggers := currentTriggers + 1;
      st := RegisterFaultedTb(s, address);
    }

    method SaveAssembly(item: TbNode, ghost j: nat)
      requires Valid() && j < |tbNodes| && item == tbNodes[j]
      modifies `st, item
      ensures Valid() && st == old(st).(list := old(st).list[j := FaultedTb(item.address, true)])
    {
      hide FaultsAgree, LiveAgree, Linked;
      item.assembled := true;
      st := st.(list := st.list[j := FaultedTb(item.address, true)]);
    }

    method InsertFaultedAssembly(address: int)
      requires Valid()
      modifies `reqSinglestep, `stepping, `st, tbNodes
      ensures Valid() && st == PluginState.InsertFaultedAssembly(old(st), address)
    {
      hide FaultsAgree, LiveAgree, Linked;
      var item := tbFaultedList;
      ghost var j := 0;
      while item != null && item.address != address
        invariant j <= |tbNodes| && item == if j < |tbNodes| then tbNodes[j] else null
        invariant forall i :: 0 <= i < j ==> st.list[i].address != address
        decreases |tbNodes| - j
      {
        item, j := item.next, j + 1;
      }
      if item == null { return; }
      ghost var s := st;
      assert FindFaultedTb(s.list, address) == Some(j);
      RemSinglestepReq();
      SaveAssembly(item, j);
    }

    method CheckEntry(vaddr: int, size: int, k: nat)
      requires Valid() && k < currentTriggers
      modifies `reqSinglestep, `stepping, `st, `doneTriggers, tbNodes, activeTriggers
      ensures Valid() && st == PluginState.CheckEntry(old(st), vaddr, size, k)
    {
      hide FaultsAgree, LiveAgree, Linked, TbLinked, TbsAgree;
      ghost var s := st;
      if activeTriggers[k] >= vaddr && activeTriggers[k] <= vaddr + size {
        InsertFaultedAssembly(activeTriggers[k]);
        activeTriggers[k] := SERVED;
        doneTriggers := doneTriggers + 1;
        st := PluginState.CheckEntry(s, vaddr, size, k);
      }
    }

    method CheckTbFaulted(vaddr: int, size: int)
      requires Valid()
      modifies `reqSinglestep, `stepping, `st, `doneTriggers, tbNodes, activeTriggers
      ensures Valid() && st == CheckFaultedTbs(old(st), vaddr, size)
    {
      hide FaultsAgree, LiveAgree, Linked, TbLinked, TbsAgree;
      if doneTriggers == currentTriggers { return; }
      ghost var s := st;
      for i := 0 to currentTriggers
        invariant Valid() && st == CheckEntries(s, vaddr, size, i) && st.current == s.current && tbNodes == old(tbNodes)
      {
        CheckEntriesCurrent(s, vaddr, size, i + 1);
        CheckEntry(vaddr, size, i);
      }
    }

    // ---- fault_injection.c ----

    method RegisterLiveFaultsCallback(fault: FaultNode, ghost i: nat) returns (number: int)
      requires Valid() && i < |nodes| && fault == nodes[i]
      modifies `reqSinglestep, `stepping, `st, `liveFaultsNumber, liveFaults
      ensures Valid() && st == RegisterLive(old(st), i) && number == LiveIndex(old(st))
    {
      hide FaultsAgree, Linked, TbLinked, TbsAgree;
      if liveFaultsNumber == faultNumber { return -1; }
      ghost var s := st;
      AddSinglestepReq();
      liveFaults[liveFaultsNumber] := fault;
      liveFaultsNumber := liveFaultsNumber + 1;
      st := RegisterLive(s, i);
      return liveFaultsNumber - 1;
    }

    method InvalidateFaultTriggerAddress(k: int)
      requires Valid() && 0 <= k < triggerAddresses.Length
      modifies `st, triggerAddresses
      ensures Valid() && st == ClearSlot(old(st), k)
    {
      hide FaultsAgree, LiveAgree, Linked, TbLinked, TbsAgree;
      triggerAddresses[k] := 0;
      st := ClearSlot(st, k);
    }

    /** What injection may change in the TB list: one new entry at its head. */
    twostate predicate TbListGrew()
      reads this
    {
      tbNodes == old(tbNodes) || (|tbNodes| > 0 && fresh(tbNodes[0]) && tbNodes == [tbNodes[0]] + old(tbNodes))
    }

    method ApplyFault(current: FaultNode, ghost i: nat)
      requires Valid() && i < |nodes| && current == nodes[i] && 0 <= current.fault.trignum < triggerAddresses.Length
      modifies `reqSinglestep, `stepping, `st, `tbFaultedList, `tbNodes, `currentTriggers, activeTriggers, triggerAddresses
      ensures Valid() && st == Apply(old(st), i) && TbListGrew()
    {
      hide FaultsAgree, LiveAgree, Linked, TbLinked, TbsAgree;
      ghost var s := st;
      CurrentFault(nodes, st.faults, i);
      if current.fault.kind == Instruction {
        TbFaultedRegister(current.fault.address);
      }
      InvalidateFaultTriggerAddress(current.fault.trignum);
      RemSinglestepReq();
      st := Apply(s, i);
    }

    method InjectFault(current: FaultNode, ghost i: nat)
      requires Valid() && i < |nodes| && current == nodes[i] && 0 <= current.fault.trignum < triggerAddresses.Length
      modifies `reqSinglestep, `stepping, `st, `tbFaultedList, `tbNodes, `currentTriggers, `liveFaultsNumber,
               activeTriggers, triggerAddresses, liveFaults, current
      ensures Valid() && st == Inject(old(st), i) && TbListGrew()
    {
      hide LiveAgree, TbLinked, TbsAgree, Apply;
      ApplyFault(current, i);
      CurrentFault(nodes, st.faults, i);
      ghost var a := st;
      if current.fault.lifetime != 0 {
        var number := RegisterLiveFaultsCallback(current, i);
        current.fault := current.fault.(trignum := number);
        st := Enliven(a, i);
      }
    }

    method ReverseFault(ghost i: nat)
      requires Valid() && i < |st.reversals|
      modifies `reqSinglestep, `stepping, `st
      ensures Valid() && st == Reverse(old(st), i)
    {
      hide FaultsAgree, LiveAgree, Linked, TbLinked, TbsAgree;
      ghost var s := st;
      RemSinglestepReq();
      st := Reverse(s, i);
    }

    // ---- faultplugin.c ----

    method SetFault(current: FaultNode, fault: Fault, ghost i: nat)
      requires Valid() && i < |nodes| && current == nodes[i]
      modifies current, `st
      ensures Valid() && st == old(st).(faults := old(st).faults[i := fault]) && current.fault == fault
    {
      hide LiveAgree, TbLinked, TbsAgree;
      current.fault := fault;
      st := st.(faults := st.faults[i := fault]);
    }

    method DropLiveFault(k: int)
      requires Valid() && 0 <= k < liveFaults.Length
      modifies liveFaults, `st
      ensures Valid() && st == old(st).(live := old(st).live[k := None])
    {
      hide Linked, FaultsAgree, TbLinked, TbsAgree;
      liveFaults[k] := null;
      st := st.(live := st.live[k := None]);
    }

    method FirstTbInsertion(current: FaultNode, ghost c: seq<Fault>, ghost i: nat)
      requires Valid() && i < |nodes| && current == nodes[i] && |c| == |nodes| && FirstTbInv(c, st, i)
      modifies `reqSinglestep, `stepping, `st, `tbFaultedList, `tbNodes, `currentTriggers, `liveFaultsNumber,
               activeTriggers, triggerAddresses, liveFaults, current
      ensures Valid() && st == FirstTbFault(old(st), i) && TbListGrew()
    {
      hide LiveAgree, TbLinked, TbsAgree, Linked, FaultsAgree, FirstTbInv, Inject;
      ghost var s := st;
      FirstTbNumbers(c, s, i);
      CurrentFault(nodes, st.faults, i);
      if current.fault.hitcounter == 0 && current.fault.kind == Instruction {
        AddSinglestepReq();
        InjectFault(current, i);
        CurrentFault(nodes, st.faults, i);
        InvalidateFaultTriggerAddress(current.fault.trignum);
      }
      if current.fault.hitcounter == 1 {
        AddSinglestepReq();
      }
    }

    method HandleFirstTbFaultInsertion(ghost c: seq<Fault>)
      requires Valid() && |c| == |nodes| && FirstTbInv(c, st, 0)
      modifies `reqSinglestep, `stepping, `st, `tbFaultedList, `tbNodes, `currentTriggers, `liveFaultsNumber,
               activeTriggers, triggerAddresses, liveFaults, nodes
      ensures Valid() && st == FirstTb(old(st), |c|) && fresh(set n | n in tbNodes && n !in old(tbNodes))
    {
      hide LiveAgree, TbLinked, TbsAgree, FirstTbInv, FirstTbFault;
      var current := firstFault;
      ghost var i, s := 0, st;
      while current != null
        invariant Valid() && i <= |nodes| && current == if i < |nodes| then nodes[i] else null
        invariant Sized(s) && |s.faults| == |nodes| && st == FirstTb(s, i)
        invariant fresh(set n | n in tbNodes && n !in old(tbNodes))
        decreases |nodes| - i
      {
        FirstTbKeeps(c, s, i);
        FirstTbInsertion(current, c, i);
        current, i := current.next, i + 1;
      }
    }

    method TriggerInsnCb(current: FaultNode, ghost c: seq<Fault>, ghost i: nat)
      requires Valid() && i < |nodes| && current == nodes[i] && |c| == |nodes| && RunningInv(c, st)
      modifies this, activeTriggers, triggerAddresses, liveFaults, current
      ensures Valid() && st == TriggerCallback(old(st), i) && RunningInv(c, st) && TbListGrew()
    {
      hide LiveAgree, TbLinked, TbsAgree, RunningInv, Inject, Linked, FaultsAgree;
      ghost var s := st;
      TriggerNumber(c, s, i);
      CurrentFault(nodes, st.faults, i);
      st := st.(hits := st.hits[i := st.hits[i] + 1]);
      if current.fault.hitcounter != 0 {
        SetFault(current, current.fault.(hitcounter := current.fault.hitcounter - 1), i);
        if current.fault.hitcounter == 0 {
          InjectFault(current, i);
          CurrentFault(nodes, st.faults, i);
        }
        if current.fault.hitcounter == 1 {
          AddSinglestepReq();
        }
      }
    }

    method TbExecCb(current: FaultNode, ghost c: seq<Fault>, ghost i: nat)
      requires Valid() && i < |nodes| && current == nodes[i] && |c| == |nodes| && RunningInv(c, st) && i in st.watched
      modifies this, liveFaults, current
      ensures Valid() && st == ExecCallback(old(st), i) && RunningInv(c, st)
    {
      hide TbLinked, TbsAgree, RunningInv, Linked, LiveAgree, FaultsAgree;
      ghost var s := st;
      ExecNumber(c, s, i);
      CurrentFault(nodes, st.faults, i);
      st := st.(lives := st.lives[i := st.lives[i] + 1]);
      if current.fault.lifetime != 0 {
        SetFault(current, current.fault.(lifetime := current.fault.lifetime - 1), i);
        if current.fault.lifetime == 0 {
          ReverseFault(i);
          CurrentFault(nodes, st.faults, i);
          DropLiveFault(current.fault.trignum);
        }
      }
    }

    method GetFaultStructByTrigger(address: int, number: int) returns (r: FaultNode?, ghost i: Option<nat>)
      requires Valid()
      ensures i == Lookup(st.faults, address, number)
      ensures r == if i.Some? && i.value < |nodes| then nodes[i.value] else null
    {
      hide LiveAgree, TbLinked, TbsAgree;
      r, i := firstFault, None;
      ghost var k := 0;
      while r != null
        invariant k <= |nodes| && r == if k < |nodes| then nodes[k] else null
        invariant forall j :: 0 <= j < k ==> !Matches(st.faults[j], address, number)
        decreases |nodes| - k
      {
        if r.fault.triggerAddress == address {
          if r.fault.trignum == number {
            i := Some(k);
            return;
          }
        }
        r, k := r.next, k + 1;
      }
    }

    /** Registers the trigger callback on the instructions that hold the trigger address, unless
        the fault of this slot is not found. */
    method EvaluateTrigger(k: nat, insns: seq<Insn>) returns (callbacks: seq<Callback>)
      requires Valid() && k < triggerAddresses.Length
      modifies `st
      ensures Valid() && st == PluginState.EvaluateTrigger(old(st), k)
      ensures |nodes| == |st.faults| == |st.slots| && OnTriggers(nodes, st.faults, st.slots, insns, k, k + 1, callbacks)
    {
      hide LiveAgree, TbLinked, TbsAgree, Linked, FaultsAgree, Lookup, OnTriggers;
      var registered;
      ghost var i;
      registered, i := GetFaultStructByTrigger(triggerAddresses[k], k);
      st := PluginState.EvaluateTrigger(st, k);
      callbacks := [];
      ghost var address := if registered == null then 0 else registered.fault.triggerAddress;
      if registered != null {
        for j := 0 to |insns|
          invariant CallbacksOf(registered, insns[..j], address, callbacks)
          modifies {}
        {
          ghost var before := callbacks;
          if registered.fault.triggerAddress >= insns[j].vaddr && registered.fault.triggerAddress < insns[j].vaddr + insns[j].size {
            callbacks := callbacks + [Callback(registered, j)];
          }
          NextCallback(registered, insns, j, address, before, callbacks);
        }
        assert insns[..|insns|] == insns;
      }
      OneTrigger(this, insns, k, i, registered, address, callbacks);
    }

    /** Registers the live callback on every instruction, unless the entry is empty or has run out. */
    method EvalLiveFaultCallback(k: nat, insns: seq<Insn>) returns (callbacks: seq<Callback>)
      requires Valid() && k < liveFaults.Length && (st.live[k].Some? ==> st.live[k].value < |nodes|)
      modifies `st, `reqSinglestep, `stepping, liveFaults
      ensures Valid() && st == EvaluateLive(old(st), k)
      ensures var i := old(st).live[k];
              if i.Some? && old(st).faults[i.value].lifetime > 0
              then |callbacks| == |insns| && forall j :: 0 <= j < |insns| ==> callbacks[j] == Callback(nodes[i.value], j)
              else callbacks == []
    {
      hide TbLinked, TbsAgree, Linked;
      ghost var s := st;
      var registered := liveFaults[k];
      callbacks := [];
      if registered == null { return; }
      CurrentFault(nodes, st.faults, st.live[k].value);
      if registered.fault.lifetime == 0 {
        DropLiveFault(k);
        RemSinglestepReq();
      } else {
        for j := 0 to |insns|
          invariant |callbacks| == j && forall x :: 0 <= x < j ==> callbacks[x] == Callback(registered, x)
          modifies {}
        {
          callbacks := callbacks + [Callback(registered, j)];
        }
        st := EvaluateLive(s, k);
      }
    }

    method EvaluateTriggers(vaddr: int, size: int, insns: seq<Insn>) returns (callbacks: seq<Callback>)
      requires Valid()
      modifies `st
      ensures Valid() && st == EvaluateSlots(old(st), vaddr, size, |old(st).slots|)
      ensures |nodes| == |st.faults| == |st.slots| && OnTriggersIn(nodes, st.faults, st.slots, insns, vaddr, size, |nodes|, callbacks)
    {
      hide LiveAgree, TbLinked, TbsAgree, Linked, FaultsAgree, PluginState.EvaluateTrigger, OnTriggers, OnTriggersIn;
      ghost var s := st;
      callbacks := [];
      NoTriggers(nodes, st.faults, st.slots, insns, vaddr, size);
      for i := 0 to faultNumber
        invariant Valid() && st == EvaluateSlots(s, vaddr, size, i)
        invariant OnTriggersIn(nodes, st.faults, st.slots, insns, vaddr, size, i, callbacks)
      {
        ghost var before := callbacks;
        if vaddr <= triggerAddresses[i] && vaddr + size > triggerAddresses[i] {
          var more := EvaluateTrigger(i, insns);
          assert st == EvaluateSlots(s, vaddr, size, i + 1);
          callbacks := callbacks + more;
          MoreTriggers(nodes, st.faults, st.slots, insns, vaddr, size, i, before, more);
        } else {
          OtherTb(nodes, st.faults, st.slots, insns, vaddr, size, i, callbacks);
        }
      }
    }

    method EvaluateLiveFaults(insns: seq<Insn>, ghost c: seq<Fault>) returns (callbacks: seq<Callback>)
      requires Valid() && |c| == |nodes| && Shape(c, st)
      modifies `st, `reqSinglestep, `stepping, liveFaults
      ensures Valid() && st == EvaluateLives(old(st), old(st).liveNumber)
      ensures Sized(old(st)) && |nodes| == |old(st).faults| && OnLives(nodes, old(st), insns, old(st).liveNumber, callbacks)
    {
      hide LiveAgree, TbLinked, TbsAgree, Linked, FaultsAgree, EvaluateLive, Shape, OnLives;
      ghost var s := st;
      callbacks := [];
      NoLives(nodes, s, insns);
      for i := 0 to liveFaultsNumber
        invariant Valid() && st == EvaluateLives(s, i) && st.liveNumber == s.liveNumber
        invariant OnLives(nodes, s, insns, i, callbacks)
      {
        EvaluateLivesKeeps(c, s, i);
        LiveInRange(c, st, i);
        ghost var before := callbacks;
        var more := [];
        if liveFaults[i] != null {
          more := EvalLiveFaultCallback(i, insns);
          callbacks := callbacks + more;
        } else {
          EmptyEntry(liveFaults, nodes, st, i);
          NoEntry(liveFaults, nodes, s, i);
        }
        NodesApart(this);
        MoreLives(nodes, s, insns, i, before, more);
        assert before + [] == before;
      }
    }

    /** Registers the callbacks of a TB: each fault in effect on all its instructions, and each
        fault whose trigger lies in the TB, and is found, on the one instruction that holds it. */
    method HandleTbTranslateEvent(vaddr: int, size: int, insns: seq<Insn>, ghost c: seq<Fault>)
        returns (triggers: seq<Callback>, lives: seq<Callback>)
      requires Valid() && |c| == |nodes| && RunningInv(c, st)
      modifies `st, `reqSinglestep, `stepping, liveFaults
      ensures Valid() && st == EvaluateLives(EvaluateSlots(old(st), vaddr, size, |c|), old(st).liveNumber)
      ensures Sized(old(st)) && |nodes| == |old(st).faults|
      ensures OnTriggersIn(nodes, old(st).faults, old(st).slots, insns, vaddr, size, |nodes|, triggers)
      ensures OnAlive(nodes, old(st), insns, lives)
    {
      hide LiveAgree, TbLinked, TbsAgree, Linked, Shape, OnTriggersIn, OnLives, OnAlive, FaultsAgree, History;
      ghost var s := st;
      SlotsShape(c, st, vaddr, size);
      triggers := EvaluateTriggers(vaddr, size, insns);
      ghost var e := st;
      lives := EvaluateLiveFaults(insns, c);
      AliveInTable(nodes, c, s, e, insns, lives);
    }

    /** `vcpu_translateblock_translation_event`, once the start point was reached. */
    method TranslationEvent(vaddr: int, size: int, insns: seq<Insn>, ghost c: seq<Fault>)
        returns (triggers: seq<Callback>, lives: seq<Callback>)
      requires Valid() && |c| == |nodes| && Inv(c, st)
      modifies this, triggerAddresses, activeTriggers, liveFaults, nodes, tbNodes
      ensures Valid() && st == Translate(old(st), vaddr, size) && Inv(c, st)
      ensures fresh(set n | n in tbNodes && n !in old(tbNodes))
      ensures if old(firstTb) then
                && Sized(old(st)) && |nodes| == |old(st).faults|
                && OnTriggersIn(nodes, old(st).faults, old(st).slots, insns, vaddr, size, |nodes|, triggers)
                && OnAlive(nodes, old(st), insns, lives)
              else triggers == [] && lives == []
    {
      hide LiveAgree, TbLinked, TbsAgree, Linked, Shape, FaultsAgree, OnTriggersIn, OnAlive, RunningInv, FirstTbInv, CheckFaultedTbs, FirstTb;
      ghost var s := st;
      TranslateKeeps(c, s, vaddr, size);
      if firstTb {
        triggers, lives := HandleTbTranslateEvent(vaddr, size, insns, c);
      } else {
        triggers, lives := [], [];
        HandleFirstTbFaultInsertion(c);
        firstTb := true;
        st := st.(started := true);
      }
      CheckTbFaulted(vaddr, size);
    }
  }
}
