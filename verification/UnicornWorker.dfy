/** The Unicorn worker: how it injects a fault, when its lifespan queue undoes it, and whether
    the undone memory is what it was. Big numbers are little-endian byte sequences. */
module UnicornWorker {
  import opened Wrappers

  const TWO_64: nat := 0x1_0000_0000_0000_0000
  const MAX: nat := 0xffff_ffff_ffff_ffff

  // ---- Big numbers as bytes ----

  /** The bytes of a number, the most significant zero bytes dropped; zero itself has one byte. */
  function ToBytes(data: seq<bv8>): (r: seq<bv8>)
    ensures |data| > 0 ==> 0 < |r| <= |data| && r == data[..|r|] && forall i :: |r| <= i < |data| ==> data[i] == 0
    ensures |r| > 1 ==> r[|r| - 1] != 0
  {
    if |data| == 0 then [0]
    else if |data| > 1 && data[|data| - 1] == 0 then ToBytes(data[..|data| - 1])
    else data
  }

  function ByteAt(data: seq<bv8>, i: nat): bv8 {
    if i < |data| then data[i] else 0
  }

  /** All bits up to the highest one that is set. */
  function Ones(b: bv8): bv8 {
    if b == 0 then 0
    else if b < 2 then 1
    else if b < 4 then 3
    else if b < 8 then 7
    else if b < 16 then 15
    else if b < 32 then 31
    else if b < 64 then 63
    else if b < 128 then 127
    else 255
  }

  // ---- Fault models ----

  datatype Model = Set0 | Set1 | Toggle | Overwrite

  /** `log` is the binary logarithm of the mask as floating-point arithmetic gives it, 0 for the empty mask. */
  datatype Fault = Fault(address: nat, model: Model, mask: seq<bv8>, log: real, numBytes: nat, lifespan: nat, hitcounter: nat)

  /** Rounding is monotonic and keeps multiples of 8: the logarithm of a number of n bytes stays between 8 (n - 1) and 8 n. */
  ghost predicate LogRounds(f: Fault) {
    var n := |ToBytes(f.mask)|;
    8.0 * (n - 1) as real <= f.log <= 8.0 * n as real
  }

  /** `calculate_fault_size`; the cast to an unsigned number makes 0 of a negative one. */
  function FaultSize(f: Fault): nat {
    if f.model == Overwrite then f.numBytes
    else if f.log < 0.0 then 1 else (f.log / 8.0).Floor + 1
  }

  /** The size is the mask's number of bytes exactly if its logarithm was not rounded up to the
      next multiple of 8, as it is for 2^64 - 1; otherwise it is one byte more. */
  lemma FaultSizeExact(f: Fault)
    requires LogRounds(f)
    ensures f.model == Overwrite ==> FaultSize(f) == f.numBytes
    ensures var n := |ToBytes(f.mask)|; f.model != Overwrite ==> FaultSize(f) == if f.log < 8.0 * n as real then n else n + 1
  {
    var n := |ToBytes(f.mask)|;
    var x := f.log / 8.0;
    assert (n - 1) as real <= x <= n as real;
    if f.log == 8.0 * n as real { assert x == n as real; }
  }

  /** `data ^ (data & mask)`. */
  function Clear(x: bv8, m: bv8): bv8 { x ^ (x & m) }

  function And(x: bv8, m: bv8): bv8 { x & m }

  function Or(x: bv8, m: bv8): bv8 { x | m }

  function Xor(x: bv8, m: bv8): bv8 { x ^ m }

  /** `apply_model`, byte by byte. */
  function FaultyByte(f: Fault, data: seq<bv8>, i: nat): bv8 {
    match f.model
    case Set0 => Clear(ByteAt(data, i), ByteAt(f.mask, i))
    case Set1 => Or(ByteAt(data, i), ByteAt(f.mask, i))
    case Toggle =>
      var used := |ToBytes(data)|;
      if i + 1 < used then Xor(ByteAt(data, i), 0xff)
      else if i + 1 == used then Xor(ByteAt(data, i), Ones(ByteAt(data, i)))
      else ByteAt(data, i)
    case Overwrite => ByteAt(f.mask, i)
  }

  /** The bytes written over the data, filled up with zeros. */
  function Faulty(f: Fault, data: seq<bv8>): (r: seq<bv8>)
    ensures |r| == |data| && forall i :: 0 <= i < |r| ==> r[i] == FaultyByte(f, data, i)
  {
    seq(|data|, i requires 0 <= i < |data| => FaultyByte(f, data, i))
  }

  // ---- What the models mean ----

  function Weight(j: nat): bv8 {
    if j == 0 then 1 else if j == 1 then 2 else if j == 2 then 4 else if j == 3 then 8
    else if j == 4 then 16 else if j == 5 then 32 else if j == 6 then 64 else if j == 7 then 128 else 0
  }

  predicate BitOf(b: bv8, j: nat) {
    And(b, Weight(j)) != 0
  }

  /** Bit k of a number. */
  predicate Bit(data: seq<bv8>, k: nat) {
    k / 8 < |data| && BitOf(data[k / 8], k % 8)
  }

  /** Bit k or a higher one is set. */
  ghost predicate SomeFrom(data: seq<bv8>, k: nat) {
    exists h: nat :: k <= h && Bit(data, h)
  }

  /** `Set0` clears and `Set1` sets the bits of the mask, `Toggle` flips the bits up to the highest
      one that is set, `Overwrite` puts the mask in place of the data. */
  predicate BitMeans(model: Model, mask: bool, bit: bool, above: bool, r: bool) {
    match model
    case Set0 => r == (bit && !mask)
    case Set1 => r == (bit || mask)
    case Toggle => r == if above then !bit else bit
    case Overwrite => r == mask
  }

  ghost predicate FaultMeans(f: Fault, data: seq<bv8>, r: seq<bv8>) {
    |r| == |data| && forall k: nat {:trigger Bit(r, k)} :: k < 8 * |data| ==> BitMeans(f.model, Bit(f.mask, k), Bit(data, k), SomeFrom(data, k), Bit(r, k))
  }

  lemma ClearedBit(x: bv8, m: bv8, j: nat)
    requires j < 8
    ensures BitOf(Clear(x, m), j) <==> BitOf(x, j) && !BitOf(m, j)
  {
    hide Weight, And, Clear;
    OneBit(m, j);
    if BitOf(m, j) { ClearInside(x, m, Weight(j)); } else { ClearOutside(x, m, Weight(j)); }
  }

  lemma OneBit(m: bv8, j: nat)
    ensures And(m, Weight(j)) == 0 || And(m, Weight(j)) == Weight(j)
  {
  }

  lemma ClearInside(x: bv8, m: bv8, w: bv8)
    requires And(m, w) == w
    ensures And(Clear(x, m), w) == 0
  {
  }

  lemma ClearOutside(x: bv8, m: bv8, w: bv8)
    requires And(m, w) == 0
    ensures And(Clear(x, m), w) == And(x, w)
  {
  }

  lemma SetBit(x: bv8, m: bv8, j: nat)
    requires j < 8
    ensures BitOf(Or(x, m), j) <==> BitOf(x, j) || BitOf(m, j)
  {
    hide Weight, And, Or;
    OrPart(x, m, Weight(j));
  }

  lemma OrPart(x: bv8, m: bv8, w: bv8)
    ensures And(Or(x, m), w) != 0 <==> And(x, w) != 0 || And(m, w) != 0
  {
  }

  lemma FlippedBit(x: bv8, j: nat)
    requires j < 8
    ensures BitOf(Xor(x, 0xff), j) <==> !BitOf(x, j)
  {
  }

  lemma NoBit(j: nat)
    ensures !BitOf(0, j)
  {
  }

  /** The highest bit of a byte that is not zero. */
  function Top(x: bv8): (h: nat)
    requires x != 0
    ensures h < 8 && BitOf(x, h)
  {
    if x >= 128 then 7 else if x >= 64 then 6 else if x >= 32 then 5 else if x >= 16 then 4
    else if x >= 8 then 3 else if x >= 4 then 2 else if x >= 2 then 1 else 0
  }

  lemma AboveTop(x: bv8, j: nat)
    requires x != 0 && Top(x) < j < 8
    ensures !BitOf(x, j)
  {
  }

  lemma OnesBit(x: bv8, j: nat)
    requires x != 0 && j < 8
    ensures BitOf(Xor(x, Ones(x)), j) <==> if j <= Top(x) then !BitOf(x, j) else BitOf(x, j)
  {
  }

  /** The highest bit that is set lies in the last used byte. */
  lemma HighestBit(data: seq<bv8>, k: nat)
    requires k < 8 * |data|
    ensures var last := |ToBytes(data)| - 1;
            SomeFrom(data, k) <==> data[last] != 0 && k <= 8 * last + Top(data[last])
  {
    hide BitOf, ToBytes, Top;
    var last := |ToBytes(data)| - 1;
    if data[last] != 0 {
      var h := 8 * last + Top(data[last]);
      assert h / 8 == last && h % 8 == Top(data[last]);
      assert Bit(data, h);
    }
    forall h: nat | Bit(data, h) ensures data[last] != 0 && h <= 8 * last + Top(data[last]) {
      BitBelowTop(data, h);
    }
  }

  lemma BitBelowTop(data: seq<bv8>, h: nat)
    requires Bit(data, h)
    ensures var last := |ToBytes(data)| - 1; data[last] != 0 && h <= 8 * last + Top(data[last])
  {
    hide BitOf, Top;
    var last := |ToBytes(data)| - 1;
    NoBit(h % 8);
    assert data[h / 8] != 0;
    if h / 8 == last && Top(data[last]) < h % 8 { AboveTop(data[last], h % 8); }
  }

  lemma ToggledBit(f: Fault, data: seq<bv8>, k: nat)
    requires f.model == Toggle && k < 8 * |data|
    ensures BitOf(FaultyByte(f, data, k / 8), k % 8) <==> if SomeFrom(data, k) then !Bit(data, k) else Bit(data, k)
  {
    hide BitOf, ToBytes, Top, Ones, SomeFrom, Xor;
    var i, last, x := k / 8, |ToBytes(data)| - 1, data[k / 8];
    HighestBit(data, k);
    if i < last {
      assert data[last] != 0;
      FlippedBit(x, k % 8);
    } else if i == last {
      if x == 0 { NothingFlipped(); } else { OnesBit(x, k % 8); }
    }
  }

  lemma NothingFlipped()
    ensures Xor(0, Ones(0)) == 0
  {
  }

  lemma FaultyBit(f: Fault, data: seq<bv8>, k: nat)
    requires k < 8 * |data|
    ensures BitMeans(f.model, Bit(f.mask, k), Bit(data, k), SomeFrom(data, k), BitOf(FaultyByte(f, data, k / 8), k % 8))
  {
    hide BitOf, SomeFrom, Clear, Or, Xor;
    if f.model == Toggle {
      ToggledBit(f, data, k);
    } else {
      hide ToBytes, Ones;
      var i, j := k / 8, k % 8;
      NoBit(j);
      ClearedBit(ByteAt(data, i), ByteAt(f.mask, i), j);
      SetBit(ByteAt(data, i), ByteAt(f.mask, i), j);
    }
  }

  lemma FaultyMeans(f: Fault, data: seq<bv8>)
    ensures FaultMeans(f, data, Faulty(f, data))
  {
    hide FaultyByte, BitMeans, BitOf, SomeFrom;
    var r := Faulty(f, data);
    forall k: nat | k < 8 * |data| ensures BitMeans(f.model, Bit(f.mask, k), Bit(data, k), SomeFrom(data, k), Bit(r, k)) {
      FaultyBit(f, data, k);
    }
  }

  // ---- Memory ----

  function Read(mem: seq<bv8>, address: nat, n: nat): seq<bv8>
    requires address + n <= |mem|
  {
    mem[address..address + n]
  }

  function Put(mem: seq<bv8>, address: nat, data: seq<bv8>): (r: seq<bv8>)
    requires address + |data| <= |mem|
    ensures |r| == |mem| && forall a :: 0 <= a < |mem| ==> r[a] == if address <= a < address + |data| then data[a - address] else mem[a]
  {
    mem[..address] + data + mem[address + |data|..]
  }

  /** What the undo writes: the saved number without its leading zero bytes. */
  function Undone(mem: seq<bv8>, address: nat, saved: seq<bv8>): (r: seq<bv8>)
    requires saved != [] && address + |saved| <= |mem|
    ensures |r| == |mem|
  {
    Put(mem, address, ToBytes(saved))
  }

  ghost predicate ZeroBeyond(data: seq<bv8>, used: nat) {
    forall i :: used <= i < |data| ==> data[i] == 0
  }

  lemma ReadPut(mem: seq<bv8>, address: nat, data: seq<bv8>, n: nat, i: nat)
    requires |data| <= n && address + n <= |mem| && i < n
    ensures Read(Put(mem, address, data), address, n)[i] == if i < |data| then data[i] else Read(mem, address, n)[i]
  {
  }

  /** The undo gives all bytes back exactly if the leading zero bytes of the saved value are zero now. */
  lemma UndoExact(mem: seq<bv8>, address: nat, saved: seq<bv8>)
    requires saved != [] && address + |saved| <= |mem|
    ensures Read(Undone(mem, address, saved), address, |saved|) == saved
            <==> ZeroBeyond(Read(mem, address, |saved|), |ToBytes(saved)|)
  {
    hide Put, Read;
    var r, now, n := Read(Undone(mem, address, saved), address, |saved|), Read(mem, address, |saved|), |ToBytes(saved)|;
    ReadSize(mem, address, |saved|);
    ReadSize(Undone(mem, address, saved), address, |saved|);
    forall i | 0 <= i < |saved| ensures r[i] == if i < n then saved[i] else now[i] {
      ReadPut(mem, address, ToBytes(saved), |saved|, i);
    }
  }

  lemma ReadSize(mem: seq<bv8>, address: nat, n: nat)
    requires address + n <= |mem|
    ensures |Read(mem, address, n)| == n
  {
  }

  /** A byte beyond the used ones is zero, and after the fault it is what the model makes of zero. */
  lemma BeyondUsed(f: Fault, data: seq<bv8>, i: nat)
    requires |ToBytes(data)| <= i < |data|
    ensures FaultyByte(f, data, i) == if f.model == Set0 || f.model == Toggle then 0 else ByteAt(f.mask, i)
  {
    assert ByteAt(data, i) == 0;
    BitsOfZero(ByteAt(f.mask, i));
  }

  lemma BitsOfZero(m: bv8)
    ensures Clear(0, m) == 0 && Or(0, m) == m
  {
  }

  ghost predicate MaskSpares(f: Fault, used: nat, size: nat) {
    forall i :: used <= i < size ==> ByteAt(f.mask, i) == 0
  }

  lemma FaultyBeyond(f: Fault, data: seq<bv8>)
    requires data != []
    ensures ZeroBeyond(Faulty(f, data), |ToBytes(data)|)
            <==> (f.model == Set0 || f.model == Toggle || MaskSpares(f, |ToBytes(data)|, |data|))
  {
    hide FaultyByte, ByteAt;
    var used, r := |ToBytes(data)|, Faulty(f, data);
    forall i | used <= i < |data|
      ensures r[i] == if f.model == Set0 || f.model == Toggle then 0 else ByteAt(f.mask, i)
    {
      BeyondUsed(f, data, i);
    }
  }

  /** A caller can tell beforehand whether a fault that nothing else disturbs can be undone
      exactly: the other models always, Set1 and Overwrite if the mask leaves the leading zero bytes alone. */
  lemma UndoableByModel(f: Fault, mem: seq<bv8>)
    requires FaultSize(f) > 0 && f.address + FaultSize(f) <= |mem|
    ensures var data := Read(mem, f.address, FaultSize(f)); data != [] && |data| == FaultSize(f)
    ensures var data := Read(mem, f.address, FaultSize(f)); var hit := Put(mem, f.address, Faulty(f, data));
            Undone(hit, f.address, data) == mem
            <==> (f.model == Set0 || f.model == Toggle || MaskSpares(f, |ToBytes(data)|, |data|))
  {
    hide FaultyByte, Put, Read, Undone, Faulty, MaskSpares, ZeroBeyond, FaultSize;
    var n := FaultSize(f);
    ReadSize(mem, f.address, n);
    var data := Read(mem, f.address, n);
    var hit := Put(mem, f.address, Faulty(f, data));
    ReadBack(mem, f.address, Faulty(f, data));
    UndoExact(hit, f.address, data);
    FaultyBeyond(f, data);
    OnlyTheWindow(mem, f.address, data, Faulty(f, data));
  }

  lemma ReadBack(mem: seq<bv8>, address: nat, data: seq<bv8>)
    requires address + |data| <= |mem|
    ensures Read(Put(mem, address, data), address, |data|) == data
  {
  }

  lemma OnlyTheWindow(mem: seq<bv8>, address: nat, data: seq<bv8>, faulty: seq<bv8>)
    requires data != [] && address + |data| <= |mem| && |faulty| == |data| && data == Read(mem, address, |data|)
    ensures var u := Undone(Put(mem, address, faulty), address, data); u == mem <==> Read(u, address, |data|) == data
  {
    var u := Undone(Put(mem, address, faulty), address, data);
    if Read(u, address, |data|) == data {
      forall a | 0 <= a < |mem| ensures u[a] == mem[a] {
        if address <= a < address + |data| { assert Read(u, address, |data|)[a - address] == data[a - address]; }
      }
    }
  }

  /** The toggle model pays no attention to its mask. */
  lemma ToggleIgnoresMask(f: Fault, mask: seq<bv8>, data: seq<bv8>)
    requires f.model == Toggle
    ensures Faulty(f.(mask := mask), data) == Faulty(f, data)
  {
  }

  // ---- Deadlines ----

  /** The priority of a fault in the queue, in 64-bit arithmetic. */
  function Priority(lifespan: nat, count: nat): (r: nat)
    requires lifespan <= MAX
    ensures r <= MAX
  {
    (MAX - lifespan + count) % TWO_64
  }

  /** What the undo takes the priority for. */
  function Deadline(priority: nat): nat
    requires priority <= MAX
  {
    MAX - priority
  }

  /** The stored deadline: the instruction count at the injection is subtracted, not added. */
  lemma StoredDeadline(lifespan: nat, count: nat)
    requires lifespan <= MAX && count <= MAX
    ensures Deadline(Priority(lifespan, count)) == if count <= lifespan then lifespan - count else TWO_64 + lifespan - count
  {
    if count > lifespan { assert (MAX - lifespan + count) % TWO_64 == MAX - lifespan + count - TWO_64; }
  }

  /** It is the intended one, the injection's count plus the lifespan, only for a fault injected
      before the first instruction. */
  lemma DeadlineIsRight(lifespan: nat, count: nat)
    requires lifespan < TWO_64 / 2 && count < TWO_64 / 2
    ensures Deadline(Priority(lifespan, count)) == count + lifespan <==> count == 0
  {
    StoredDeadline(lifespan, count);
  }

  // ---- The hooks ----

  /** An entry of the queue: the trigger that names the fault, and the data it replaced. */
  datatype Item = Item(trigger: int, saved: seq<bv8>)

  /** The bytes to be faulted exist, and hold what is written over them. */
  ghost predicate Fits(f: Fault, size: nat) {
    && LogRounds(f) && FaultSize(f) > 0 && f.address + FaultSize(f) <= size && f.lifespan <= MAX
    && (f.model == Overwrite ==> |ToBytes(f.mask)| <= f.numBytes)
  }

  ghost predicate AllFaultsFit(faults: map<int, Fault>, size: nat) {
    forall t :: t in faults ==> Fits(faults[t], size)
  }

  /** Every entry belongs to a fault that was injected, and no two to the same one. */
  ghost predicate QueueOk(faults: map<int, Fault>, queue: map<Item, nat>) {
    && (forall x :: x in queue ==> queue[x] <= MAX && x.trigger in faults && faults[x.trigger].hitcounter == 0
                                   && |x.saved| == FaultSize(faults[x.trigger]))
    && (forall x, y :: x in queue && y in queue && x.trigger == y.trigger ==> x == y)
  }

  /** Counting a hit. */
  lemma HitKeeps(faults: map<int, Fault>, queue: map<Item, nat>, size: nat, t: int, h: nat)
    requires AllFaultsFit(faults, size) && QueueOk(faults, queue) && t in faults && faults[t].hitcounter == h + 1
    ensures var faults' := faults[t := faults[t].(hitcounter := h)]; AllFaultsFit(faults', size) && QueueOk(faults', queue)
  {
  }

  /** The last hit makes a new entry in the queue. */
  lemma PushKeeps(faults: map<int, Fault>, queue: map<Item, nat>, x: Item, p: nat)
    requires QueueOk(faults, queue) && x.trigger in faults && faults[x.trigger].hitcounter == 1
    requires |x.saved| == FaultSize(faults[x.trigger]) && p <= MAX
    ensures x !in queue && QueueOk(faults[x.trigger := faults[x.trigger].(hitcounter := 0)], queue[x := p])
  {
  }

  class Worker {
    var faults: map<int, Fault>
    var queue: map<Item, nat>
    var instructionCount: nat
    var memory: seq<bv8>

    ghost predicate Valid()
      reads this
    {
      AllFaultsFit(faults, |memory|) && QueueOk(faults, queue)
    }

    constructor (faults: map<int, Fault>, memory: seq<bv8>)
      requires forall t :: t in faults ==> Fits(faults[t], |memory|)
      ensures Valid() && queue == map[] && instructionCount == 0 && this.faults == faults && this.memory == memory
    {
      this.faults, this.memory, queue, instructionCount := faults, memory, map[], 0;
    }

    /** `fault_hook_cb`, for faults in memory: each fault is injected once, by its last hit, and
        its entry in the queue is a new one. */
    method FaultHook(address: int)
      requires Valid() && address in faults
      modifies this
      ensures Valid() && instructionCount == old(instructionCount)
      ensures var f := old(faults[address]);
              && faults == old(faults)[address := f.(hitcounter := if f.hitcounter == 0 then 0 else f.hitcounter - 1)]
              && if f.hitcounter != 1 then memory == old(memory) && queue == old(queue)
                 else
                   var data := Read(old(memory), f.address, FaultSize(f));
                   && memory == Put(old(memory), f.address, Faulty(f, data)) && FaultMeans(f, data, Faulty(f, data))
                   && if f.lifespan == 0 then queue == old(queue)
                      else queue == old(queue)[Item(address, data) := Priority(f.lifespan, instructionCount)] && Item(address, data) !in old(queue)
    {
      hide ToBytes, FaultyByte, Ones, ByteAt, Put, QueueOk, FaultSize, FaultMeans;
      var f := faults[address];
      if f.hitcounter == 0 {
        assert faults[address := f] == faults;
        return;
      }
      HitKeeps(faults, queue, |memory|, address, f.hitcounter - 1);
      assert Fits(f, |memory|);
      faults := faults[address := f.(hitcounter := f.hitcounter - 1)];
      if faults[address].hitcounter >= 1 { return; }
      var size := FaultSize(f);
      var data := Read(memory, f.address, size);
      memory := Put(memory, f.address, Faulty(f, data));
      FaultyMeans(f, data);
      PushKeeps(old(faults), queue, Item(address, data), Priority(f.lifespan, instructionCount));
      if f.lifespan != 0 {
        queue := queue[Item(address, data) := Priority(f.lifespan, instructionCount)];
      }
    }

    /** The entry with the highest priority. */
    method Peek() returns (x: Item)
      requires queue != map[]
      ensures x in queue && forall y :: y in queue ==> queue[y] <= queue[x]
    {
      var rest := queue.Keys;
      x :| x in rest;
      rest := rest - {x};
      while rest != {}
        invariant x in queue && rest <= queue.Keys && forall y :: y in queue && y !in rest ==> queue[y] <= queue[x]
        decreases rest
      {
        var y :| y in rest;
        if queue[y] > queue[x] { x := y; }
        rest := rest - {y};
      }
    }

    /** `undo_faults`: at most one, one with the earliest deadline, and none before its deadline. */
    method UndoFaults() returns (undone: Option<Item>)
      requires Valid()
      modifies `queue, `memory
      ensures Valid()
      ensures undone.None? ==> queue == old(queue) && memory == old(memory) && forall x :: x in queue ==> Deadline(queue[x]) > instructionCount
      ensures undone.Some? ==>
                var x := undone.value;
                && x in old(queue) && Deadline(old(queue)[x]) <= instructionCount && queue == old(queue) - {x}
                && (forall y :: y in old(queue) ==> Deadline(old(queue)[x]) <= Deadline(old(queue)[y]))
                && memory == Undone(old(memory), faults[x.trigger].address, x.saved)
    {
      if |queue| == 0 { return None; }
      var x := Peek();
      if Deadline(queue[x]) > instructionCount { return None; }
      queue := queue - {x};
      memory := Put(memory, faults[x.trigger].address, ToBytes(x.saved));
      return Some(x);
    }

    /** `single_step_hook_cb`. */
    method SingleStep() returns (undone: Option<Item>)
      requires Valid()
      modifies `queue, `memory, `instructionCount
      ensures Valid() && instructionCount == old(instructionCount) + 1
      ensures Step(old(queue), old(instructionCount), undone, queue)
    {
      undone := UndoFaults();
      instructionCount := instructionCount + 1;
    }

    /** Any number of single steps: nothing is undone early, and each step past the deadlines takes one entry. */
    method SingleSteps(n: nat)
      requires Valid()
      modifies `queue, `memory, `instructionCount
      ensures Valid() && instructionCount == old(instructionCount) + n && Stepped(old(queue), old(instructionCount), n, queue)
    {
      hide Valid, Step, Stepped;
      PrioritiesFit(queue);
      NotStepped(queue, instructionCount);
      var i := 0;
      while i < n
        invariant i <= n && Valid() && instructionCount == old(instructionCount) + i
        invariant Stepped(old(queue), old(instructionCount), i, queue)
      {
        ghost var q := queue;
        var undone := SingleStep();
        StepMore(old(queue), old(instructionCount), i, q, undone, queue);
        i := i + 1;
      }
    }

    lemma PrioritiesFit(q: map<Item, nat>)
      requires Valid() && q == queue
      ensures AllFit(q)
    {
    }
  }

  ghost predicate AllFit(q: map<Item, nat>) {
    forall x :: x in q ==> q[x] <= MAX
  }

  /** One single step: an entry that is due goes, if there is one. */
  ghost predicate Step(q: map<Item, nat>, count: nat, undone: Option<Item>, q': map<Item, nat>) {
    && AllFit(q)
    && match undone
       case None => q' == q && forall x :: x in q ==> Deadline(q[x]) > count
       case Some(x) => x in q && q' == q - {x} && Deadline(q[x]) <= count && forall y :: y in q ==> Deadline(q[x]) <= Deadline(q[y])
  }

  /** After n single steps from `count` on: what is left has kept its priority, nothing went
      before its deadline, and of entries that were all due one went at each step. */
  ghost predicate Stepped(q0: map<Item, nat>, count: nat, n: nat, q: map<Item, nat>) {
    && AllFit(q0) && q.Keys <= q0.Keys && (forall x :: x in q ==> q[x] == q0[x])
    && (forall x :: x in q0 && x !in q ==> Deadline(q0[x]) < count + n)
    && ((forall x :: x in q0 ==> Deadline(q0[x]) <= count) ==> |q.Keys| == if |q0.Keys| < n then 0 else |q0.Keys| - n)
  }

  lemma NotStepped(q: map<Item, nat>, count: nat)
    requires AllFit(q)
    ensures Stepped(q, count, 0, q)
  {
  }

  lemma StepMore(q0: map<Item, nat>, count: nat, n: nat, q: map<Item, nat>, undone: Option<Item>, q': map<Item, nat>)
    requires Stepped(q0, count, n, q) && Step(q, count + n, undone, q')
    ensures Stepped(q0, count, n + 1, q')
  {
    if undone.Some? {
      var x := undone.value;
      assert q'.Keys == q.Keys - {x};
    } else if q.Keys != {} {
      var x :| x in q.Keys;
      assert x in q && Deadline(q[x]) > count + n;
    }
  }
}
