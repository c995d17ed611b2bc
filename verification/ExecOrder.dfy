/** The order in which TBs were executed: kept whole as a list, or the last 100 in a ring buffer. */
module ExecOrder {

  const TB_EXEC_RB_SIZE: nat := 100

  /** `tb_info_t`, as far as it matters here. */
  class Block {
    const baseAddress: int
    var numOfExec: nat

    constructor (baseAddress: int)
      ensures this.baseAddress == baseAddress && numOfExec == 0
    {
      this.baseAddress, this.numOfExec := baseAddress, 0;
    }
  }

  /** One entry of a dump. */
  datatype Entry = Entry(baseAddress: int, pos: nat)

  function AddressOf(tb: Block?): int {
    if tb == null then 0 else tb.baseAddress
  }

  /** The dump of everything that was executed: the base address of each TB, 0 for none, and its position. */
  ghost function Whole(history: seq<Block?>): (r: seq<Entry>)
    ensures |r| == |history| && forall i :: 0 <= i < |r| ==> r[i] == Entry(if history[i] == null then 0 else history[i].baseAddress, i)
  {
    seq(|history|, i requires 0 <= i < |history| => Entry(AddressOf(history[i]), i))
  }

  /** The last entries, at most n of them. */
  function Last(s: seq<Entry>, n: nat): (r: seq<Entry>)
    ensures |r| == if |s| < n then |s| else n
    ensures forall i :: 0 <= i < |r| ==> r[i] == s[|s| - |r| + i]
  {
    if |s| < n then s else s[|s| - n..]
  }

  // ---- Ring buffer ----

  lemma NextSlot(k: nat)
    ensures (k + 1) % TB_EXEC_RB_SIZE == if k % TB_EXEC_RB_SIZE + 1 == TB_EXEC_RB_SIZE then 0 else k % TB_EXEC_RB_SIZE + 1
  {
  }

  /** Within one round no slot is used twice. */
  lemma OtherSlot(k: nat, n: nat)
    requires k < n < k + TB_EXEC_RB_SIZE
    ensures k % TB_EXEC_RB_SIZE != n % TB_EXEC_RB_SIZE
  {
  }

  datatype RbElement = RbElement(tb: Block?, pos: nat)

  class RingLog {
    const elements: array<RbElement>
    var index: nat
    var numExecOrder: nat
    ghost var history: seq<Block?>

    ghost predicate Valid()
      reads this, elements
    {
      && elements.Length == TB_EXEC_RB_SIZE && numExecOrder == |history| && index == numExecOrder % TB_EXEC_RB_SIZE
      && forall k {:trigger history[k]} :: 0 <= k < |history| && |history| - TB_EXEC_RB_SIZE <= k ==>
           elements[k % TB_EXEC_RB_SIZE] == RbElement(history[k], k)
    }

    constructor ()
      ensures Valid() && history == [] && fresh(elements)
    {
      elements := new RbElement[TB_EXEC_RB_SIZE](_ => RbElement(null, 0));
      index, numExecOrder, history := 0, 0, [];
    }

    /** `tb_exec_data_event` in ring mode. */
    method Event(tb: Block?)
      requires Valid()
      modifies this, elements, if tb != null then {tb} else {}
      ensures Valid() && history == old(history) + [tb] && (tb != null ==> tb.numOfExec == old(tb.numOfExec) + 1)
    {
      if tb != null { tb.numOfExec := tb.numOfExec + 1; }
      NextSlot(numExecOrder);
      forall k | numExecOrder - TB_EXEC_RB_SIZE < k < numExecOrder && 0 <= k
        ensures k % TB_EXEC_RB_SIZE != index
      {
        OtherSlot(k, numExecOrder);
      }
      elements[index] := RbElement(tb, numExecOrder);
      index := index + 1;
      if index == TB_EXEC_RB_SIZE { index := 0; }
      numExecOrder := numExecOrder + 1;
      history := history + [tb];
    }

    /** `plugin_dump_tb_exec_order` in ring mode. */
    method Dump() returns (r: seq<Entry>)
      requires Valid()
      ensures r == Last(Whole(history), TB_EXEC_RB_SIZE)
    {
      var i := 0;
      if numExecOrder >= TB_EXEC_RB_SIZE { i := index; }
      ghost var start := if numExecOrder >= TB_EXEC_RB_SIZE then numExecOrder - TB_EXEC_RB_SIZE else 0;
      StartSlot(numExecOrder);
      r := [];
      var j := 0;
      while j < TB_EXEC_RB_SIZE && j < numExecOrder
        invariant j <= TB_EXEC_RB_SIZE && j <= numExecOrder && start + j <= numExecOrder
        invariant i == (start + j) % TB_EXEC_RB_SIZE
        invariant |r| == j && forall x :: 0 <= x < j ==> r[x] == Entry(AddressOf(history[start + x]), start + x)
      {
        assert elements[i] == RbElement(history[start + j], start + j);
        r := r + [Entry(AddressOf(elements[i].tb), elements[i].pos)];
        NextSlot(start + j);
        i := i + 1;
        if i == TB_EXEC_RB_SIZE { i := 0; }
        j := j + 1;
      }
    }
  }

  lemma StartSlot(n: nat)
    ensures n >= TB_EXEC_RB_SIZE ==> (n - TB_EXEC_RB_SIZE) % TB_EXEC_RB_SIZE == n % TB_EXEC_RB_SIZE
  {
  }

  // ---- List ----

  /** `tb_exec_order_t`. */
  class ExecNode {
    const tb: Block?
    const prev: ExecNode?
    var next: ExecNode?

    constructor (tb: Block?, prev: ExecNode?)
      ensures this.tb == tb && this.prev == prev && next == null
    {
      this.tb, this.prev, this.next := tb, prev, null;
    }
  }

  class ListLog {
    var last: ExecNode?
    var numExecOrder: nat
    ghost var nodes: seq<ExecNode>
    ghost var history: seq<Block?>

    ghost predicate Linked()
      reads this, nodes
    {
      && (forall i {:trigger nodes[i].prev} :: 0 <= i < |nodes| ==> nodes[i].prev == if i > 0 then nodes[i - 1] else null)
      && (forall i {:trigger nodes[i].next} :: 0 <= i < |nodes| ==> nodes[i].next == if i + 1 < |nodes| then nodes[i + 1] else null)
      && (forall i, j :: 0 <= i < j < |nodes| ==> nodes[i] != nodes[j])
    }

    ghost predicate Valid()
      reads this, nodes
    {
      && numExecOrder == |history| == |nodes| && Linked()
      && (forall i :: 0 <= i < |nodes| ==> nodes[i].tb == history[i])
      && last == if nodes == [] then null else nodes[|nodes| - 1]
    }

    constructor ()
      ensures Valid() && history == []
    {
      last, numExecOrder, nodes, history := null, 0, [], [];
    }

    /** `tb_exec_data_event` in list mode. */
    method Event(tb: Block?)
      requires Valid()
      modifies this, if last != null then {last} else {}, if tb != null then {tb} else {}
      ensures Valid() && history == old(history) + [tb] && (tb != null ==> tb.numOfExec == old(tb.numOfExec) + 1)
      ensures |nodes| > 0 && fresh(nodes[|nodes| - 1]) && nodes == old(nodes) + [nodes[|nodes| - 1]]
    {
      if tb != null { tb.numOfExec := tb.numOfExec + 1; }
      var node := new ExecNode(tb, last);
      if last != null { last.next := node; }
      last := node;
      numExecOrder := numExecOrder + 1;
      nodes, history := nodes + [node], history + [tb];
    }

    /** `plugin_dump_tb_exec_order` in list mode: back to the first entry, then forward. */
    method Dump() returns (r: seq<Entry>)
      requires Valid()
      ensures r == Whole(history)
    {
      r := [];
      if numExecOrder == 0 { return; }
      var item := last;
      var i := 0;
      while item.prev != null
        invariant item != null && i < |nodes| && item == nodes[|nodes| - 1 - i]
        decreases |nodes| - i
      {
        i := i + 1;
        item := item.prev;
      }
      i := 0;
      while item != null
        invariant i <= |nodes| && item == if i < |nodes| then nodes[i] else null
        invariant |r| == i && forall x :: 0 <= x < i ==> r[x] == Entry(AddressOf(history[x]), x)
        decreases |nodes| - i
      {
        r := r + [Entry(AddressOf(item.tb), i)];
        item := item.next;
        i := i + 1;
      }
    }
  }

  /** Both logs of one run: the ring buffer dumps exactly the end of what the list dumps. */
  method DumpBoth(tbs: seq<Block?>) returns (ring: seq<Entry>, list: seq<Entry>)
    modifies set tb <- tbs | tb != null
    ensures list == Whole(tbs) && ring == Last(list, TB_EXEC_RB_SIZE)
  {
    hide Whole, Last, RingLog.Valid;
    var ringLog := new RingLog();
    var listLog := new ListLog();
    for i := 0 to |tbs|
      invariant ringLog.Valid() && listLog.Valid() && ringLog.history == listLog.history == tbs[..i]
      invariant fresh(ringLog) && fresh(ringLog.elements) && fresh(listLog) && fresh(listLog.nodes)
    {
      ringLog.Event(tbs[i]);
      listLog.Event(tbs[i]);
    }
    assert tbs[..|tbs|] == tbs;
    ring := ringLog.Dump();
    list := listLog.Dump();
  }
}
