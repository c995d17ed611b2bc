/** Memory faults: what the injection models do to a 16-byte window, what is saved, and how
    reversal puts it back with other faults and the program writing in between. */
module MemoryFault {

  const WINDOW: nat := 16

  datatype Model = Set0 | Set1 | Toggle | Overwrite

  /** `numBytes` matters to `Overwrite` only. */
  datatype Fault = Fault(address: nat, model: Model, mask: seq<bv8>, numBytes: nat)

  ghost predicate Fits(f: Fault, size: nat) {
    |f.mask| == WINDOW && f.address + WINDOW <= size
  }

  /** At most 16 bytes can be overwritten. */
  function Width(f: Fault): nat {
    if f.numBytes > WINDOW then WINDOW else f.numBytes
  }

  predicate Within(f: Fault, a: int) {
    f.address <= a < f.address + WINDOW
  }

  function MaskAt(f: Fault, a: int): bv8
    requires |f.mask| == WINDOW
  {
    if Within(f, a) then f.mask[a - f.address] else 0
  }

  function HitByte(model: Model, v: bv8, m: bv8): bv8 {
    match model
    case Set0 => v & !m
    case Set1 => v | m
    case Toggle => v ^ m
    case Overwrite => m
  }

  /** A byte of memory after the injection. */
  function InjectedByte(f: Fault, a: int, v: bv8): bv8
    requires |f.mask| == WINDOW
  {
    if !Within(f, a) || (f.model == Overwrite && a - f.address >= Width(f)) then v
    else HitByte(f.model, v, f.mask[a - f.address])
  }

  function Injected(f: Fault, mem: seq<bv8>): (r: seq<bv8>)
    requires Fits(f, |mem|)
    ensures |r| == |mem| && forall a :: 0 <= a < |mem| ==> r[a] == InjectedByte(f, a, mem[a])
  {
    seq(|mem|, a requires 0 <= a < |mem| => InjectedByte(f, a, mem[a]))
  }

  function SavedByte(f: Fault, i: nat, v: bv8): bv8
    requires |f.mask| == WINDOW && i < WINDOW
  {
    if f.model == Overwrite then (if i < Width(f) then v else 0) else v & f.mask[i]
  }

  /** The restore mask. */
  function Saved(f: Fault, mem: seq<bv8>): (r: seq<bv8>)
    requires Fits(f, |mem|)
    ensures |r| == WINDOW && forall i :: 0 <= i < WINDOW ==> r[i] == SavedByte(f, i, mem[f.address + i])
  {
    seq(WINDOW, i requires 0 <= i < WINDOW => SavedByte(f, i, mem[f.address + i]))
  }

  /** The masked bits from the saved byte, the others as they are. */
  function Restore(v: bv8, m: bv8, saved: bv8): bv8 {
    (v & !m) | saved
  }

  function ReversedByte(f: Fault, saved: seq<bv8>, a: int, v: bv8): bv8
    requires |f.mask| == |saved| == WINDOW
  {
    if Within(f, a) then Restore(v, f.mask[a - f.address], saved[a - f.address]) else v
  }

  function Reversed(f: Fault, saved: seq<bv8>, mem: seq<bv8>): (r: seq<bv8>)
    requires Fits(f, |mem|) && |saved| == WINDOW
    ensures |r| == |mem| && forall a :: 0 <= a < |mem| ==> r[a] == ReversedByte(f, saved, a, mem[a])
  {
    seq(|mem|, a requires 0 <= a < |mem| => ReversedByte(f, saved, a, mem[a]))
  }

  // ---- What the models mean ----

  function And(x: bv8, y: bv8): bv8 { x & y }

  function Or(x: bv8, y: bv8): bv8 { x | y }

  function Not(x: bv8): bv8 { !x }

  /** What becomes of the bits of a byte: masked bits are cleared, set or flipped, the others stay. */
  ghost predicate ByteMeans(model: Model, m: bv8, v: bv8, r: bv8) {
    match model
    case Set0 => And(r, m) == 0 && And(r, Not(m)) == And(v, Not(m))
    case Set1 => And(r, m) == m && And(r, Not(m)) == And(v, Not(m))
    case Toggle => And(r, m) == And(Not(v), m) && And(r, Not(m)) == And(v, Not(m))
    case Overwrite => r == m
  }

  /** Only bytes of the window, for `Overwrite` only its first ones, become what the model says. */
  ghost predicate FaultMeans(f: Fault, before: seq<bv8>, after: seq<bv8>) {
    |f.mask| == WINDOW && |after| == |before|
    && forall a {:trigger after[a]} :: 0 <= a < |before| ==>
         if f.address <= a < f.address + (if f.model == Overwrite && f.numBytes < WINDOW then f.numBytes else WINDOW)
         then ByteMeans(f.model, f.mask[a - f.address], before[a], after[a]) else after[a] == before[a]
  }

  lemma ClearedBits(v: bv8, m: bv8)
    ensures And(HitByte(Set0, v, m), m) == 0
  {
  }

  lemma SetBits(v: bv8, m: bv8)
    ensures And(HitByte(Set1, v, m), m) == m
  {
  }

  lemma FlippedBits(v: bv8, m: bv8)
    ensures And(HitByte(Toggle, v, m), m) == And(Not(v), m)
  {
  }

  lemma OtherBits(model: Model, v: bv8, m: bv8)
    requires model != Overwrite
    ensures And(HitByte(model, v, m), Not(m)) == And(v, Not(m))
  {
  }

  lemma Overwritten(v: bv8, m: bv8)
    ensures HitByte(Overwrite, v, m) == m
  {
  }

  lemma HitMeans(model: Model, v: bv8, m: bv8)
    ensures ByteMeans(model, m, v, HitByte(model, v, m))
  {
    hide And, Not, HitByte;
    if model != Overwrite { OtherBits(model, v, m); }
    ClearedBits(v, m);
    SetBits(v, m);
    FlippedBits(v, m);
    Overwritten(v, m);
  }

  lemma InjectedMeans(f: Fault, mem: seq<bv8>)
    requires Fits(f, |mem|)
    ensures FaultMeans(f, mem, Injected(f, mem))
  {
    hide HitByte, ByteMeans;
    var r := Injected(f, mem);
    forall a | 0 <= a < |mem|
      ensures if f.address <= a < f.address + (if f.model == Overwrite && f.numBytes < WINDOW then f.numBytes else WINDOW)
              then ByteMeans(f.model, f.mask[a - f.address], mem[a], r[a]) else r[a] == mem[a]
    {
      if Within(f, a) { HitMeans(f.model, mem[a], f.mask[a - f.address]); }
    }
  }

  // ---- The code ----

  /** What the bytes of the window become. */
  ghost predicate WindowOf(mem: seq<bv8>, address: nat, n: nat, value: seq<bv8>)
    requires address + n <= |mem|
  {
    |value| == WINDOW && n <= WINDOW && forall i {:trigger value[i]} :: 0 <= i < n ==> value[i] == mem[address + i]
  }

  /** The memory after the first n bytes at the address were replaced. */
  ghost predicate Replaced(mem: seq<bv8>, address: nat, n: nat, value: seq<bv8>, after: seq<bv8>)
    requires address + n <= |mem| && n <= |value|
  {
    |after| == |mem| && forall a {:trigger after[a]} :: 0 <= a < |mem| ==> after[a] == if address <= a < address + n then value[a - address] else mem[a]
  }

  /** `qemu_plugin_rw_memory_cpu` for reading. */
  method ReadMemory(memory: array<bv8>, address: nat, n: nat) returns (value: array<bv8>)
    requires n <= WINDOW && address + n <= memory.Length
    ensures fresh(value) && value.Length == WINDOW && WindowOf(memory[..], address, n, value[..])
  {
    value := new bv8[WINDOW](_ => 0);
    for i := 0 to n
      invariant forall j :: 0 <= j < i ==> value[j] == memory[address + j]
    {
      value[i] := memory[address + i];
    }
  }

  method WriteMemory(memory: array<bv8>, address: nat, value: array<bv8>, n: nat)
    requires n <= WINDOW == value.Length && address + n <= memory.Length && memory != value
    modifies memory
    ensures Replaced(old(memory[..]), address, n, value[..], memory[..])
  {
    for i := 0 to n
      invariant forall a :: 0 <= a < memory.Length ==>
                  memory[a] == if address <= a < address + i then value[a - address] else old(memory[a])
    {
      memory[address + i] := value[i];
    }
  }

  /** The first n bytes are hit. */
  ghost predicate Hit(f: Fault, value: seq<bv8>, n: nat, hit: seq<bv8>) {
    |f.mask| == |value| == |hit| == WINDOW && n <= WINDOW && forall i :: 0 <= i < n ==> hit[i] == HitByte(f.model, value[i], f.mask[i])
  }

  /** The first n bytes are saved, the others are zero. */
  ghost predicate Kept(f: Fault, value: seq<bv8>, n: nat, saved: seq<bv8>) {
    |f.mask| == |value| == |saved| == WINDOW && n <= WINDOW
    && forall i :: 0 <= i < WINDOW ==> saved[i] == if i < n then SavedByte(f, i, value[i]) else 0
  }

  /** The loop of `process_set0_memory`, `process_set1_memory` and `process_toggle_memory`. */
  method HitBits(f: Fault, value: array<bv8>, restoremask: array<bv8>)
    requires |f.mask| == WINDOW == value.Length == restoremask.Length && value != restoremask && f.model != Overwrite
    modifies value, restoremask
    ensures Hit(f, old(value[..]), WINDOW, value[..]) && Kept(f, old(value[..]), WINDOW, restoremask[..])
  {
    hide HitByte, SavedByte;
    for i := 0 to WINDOW
      invariant forall j :: 0 <= j < i ==> restoremask[j] == SavedByte(f, j, old(value[j]))
      invariant forall j :: 0 <= j < WINDOW ==> value[j] == if j < i then HitByte(f.model, old(value[j]), f.mask[j]) else old(value[j])
    {
      restoremask[i] := SavedByte(f, i, value[i]);
      value[i] := HitByte(f.model, value[i], f.mask[i]);
    }
  }

  lemma InjectedWindow(f: Fault, mem: seq<bv8>, value: seq<bv8>, hit: seq<bv8>, n: nat, after: seq<bv8>)
    requires Fits(f, |mem|) && |hit| == WINDOW && n == (if f.model == Overwrite then Width(f) else WINDOW)
    requires WindowOf(mem, f.address, n, value) && Hit(f, value, n, hit) && Replaced(mem, f.address, n, hit, after)
    ensures after == Injected(f, mem)
  {
    hide HitByte;
    forall a | 0 <= a < |mem| ensures after[a] == InjectedByte(f, a, mem[a]) {
      if f.address <= a < f.address + n {
        var i := a - f.address;
        assert value[i] == mem[f.address + i];
      }
    }
  }

  lemma SavedBeyond(f: Fault, i: nat, v: bv8)
    requires |f.mask| == WINDOW && f.model == Overwrite && Width(f) <= i < WINDOW
    ensures SavedByte(f, i, v) == 0
  {
  }

  lemma SavedWindow(f: Fault, mem: seq<bv8>, value: seq<bv8>, n: nat, saved: seq<bv8>)
    requires Fits(f, |mem|) && n == (if f.model == Overwrite then Width(f) else WINDOW)
    requires WindowOf(mem, f.address, n, value) && Kept(f, value, n, saved)
    ensures saved == Saved(f, mem)
  {
    hide SavedByte;
    forall i | 0 <= i < WINDOW ensures saved[i] == SavedByte(f, i, mem[f.address + i]) {
      if i >= n { SavedBeyond(f, i, mem[f.address + i]); } else { assert value[i] == mem[f.address + i]; }
    }
  }

  /** `process_set0_memory`, `process_set1_memory` and `process_toggle_memory`. */
  method ProcessBits(memory: array<bv8>, f: Fault, restoremask: array<bv8>)
    requires Fits(f, memory.Length) && f.model != Overwrite && restoremask.Length == WINDOW && memory != restoremask
    modifies memory, restoremask
    ensures memory[..] == Injected(f, old(memory[..])) && restoremask[..] == Saved(f, old(memory[..]))
    ensures FaultMeans(f, old(memory[..]), memory[..])
  {
    hide Injected, Saved, WindowOf, Replaced, Hit, Kept, FaultMeans;
    ghost var mem := memory[..];
    InjectedMeans(f, mem);
    var value := ReadMemory(memory, f.address, WINDOW);
    ghost var read := value[..];
    HitBits(f, value, restoremask);
    WriteMemory(memory, f.address, value, WINDOW);
    InjectedWindow(f, mem, read, value[..], WINDOW, memory[..]);
    SavedWindow(f, mem, read, WINDOW, restoremask[..]);
  }

  method OverwriteBytes(f: Fault, value: array<bv8>, restoremask: array<bv8>, n: nat)
    requires |f.mask| == WINDOW == value.Length == restoremask.Length && value != restoremask && n <= WINDOW
    requires f.model == Overwrite && n == Width(f) && restoremask[..] == seq(WINDOW, _ => 0)
    modifies value, restoremask
    ensures Hit(f, old(value[..]), n, value[..]) && Kept(f, old(value[..]), n, restoremask[..])
  {
    for i := 0 to n
      invariant forall j :: 0 <= j < WINDOW ==> restoremask[j] == if j < i then old(value[j]) else 0
      invariant forall j :: 0 <= j < WINDOW ==> value[j] == if j < i then f.mask[j] else old(value[j])
    {
      restoremask[i] := value[i];
      value[i] := f.mask[i];
    }
  }

  method Clear(restoremask: array<bv8>)
    requires restoremask.Length == WINDOW
    modifies restoremask
    ensures restoremask[..] == seq(WINDOW, _ => 0)
  {
    for i := 0 to WINDOW
      invariant forall j :: 0 <= j < i ==> restoremask[j] == 0
    {
      restoremask[i] := 0;
    }
  }

  /** `process_overwrite_memory`. */
  method ProcessOverwrite(memory: array<bv8>, f: Fault, restoremask: array<bv8>)
    requires Fits(f, memory.Length) && f.model == Overwrite && restoremask.Length == WINDOW && memory != restoremask
    modifies memory, restoremask
    ensures memory[..] == Injected(f, old(memory[..])) && restoremask[..] == Saved(f, old(memory[..]))
    ensures FaultMeans(f, old(memory[..]), memory[..])
  {
    hide Injected, Saved, WindowOf, Replaced, Hit, Kept, FaultMeans;
    ghost var mem := memory[..];
    InjectedMeans(f, mem);
    var n := f.numBytes;
    if n > WINDOW { n := WINDOW; }
    Clear(restoremask);
    var value := ReadMemory(memory, f.address, n);
    ghost var read := value[..];
    OverwriteBytes(f, value, restoremask, n);
    WriteMemory(memory, f.address, value, n);
    InjectedWindow(f, mem, read, value[..], n, memory[..]);
    SavedWindow(f, mem, read, n, restoremask[..]);
  }

  /** `inject_memory_fault`. */
  method InjectMemoryFault(memory: array<bv8>, f: Fault, restoremask: array<bv8>)
    requires Fits(f, memory.Length) && restoremask.Length == WINDOW && memory != restoremask
    modifies memory, restoremask
    ensures memory[..] == Injected(f, old(memory[..])) && restoremask[..] == Saved(f, old(memory[..]))
    ensures FaultMeans(f, old(memory[..]), memory[..])
  {
    hide Injected, Saved, FaultMeans;
    InjectedMeans(f, memory[..]);
    match f.model
    case Overwrite => ProcessOverwrite(memory, f, restoremask);
    case _ => ProcessBits(memory, f, restoremask);
  }

  ghost predicate PutBack(f: Fault, value: seq<bv8>, saved: seq<bv8>, put: seq<bv8>) {
    |f.mask| == |value| == |saved| == |put| == WINDOW
    && forall i :: 0 <= i < WINDOW ==> put[i] == Restore(value[i], f.mask[i], saved[i])
  }

  method RestoreBits(f: Fault, value: array<bv8>, restoremask: array<bv8>)
    requires |f.mask| == WINDOW == value.Length == restoremask.Length && value != restoremask
    modifies value
    ensures PutBack(f, old(value[..]), restoremask[..], value[..])
  {
    hide Restore;
    for i := 0 to WINDOW
      invariant forall j :: 0 <= j < WINDOW ==>
                  value[j] == if j < i then Restore(old(value[j]), f.mask[j], restoremask[j]) else old(value[j])
    {
      value[i] := Restore(value[i], f.mask[i], restoremask[i]);
    }
  }

  lemma ReversedWindow(f: Fault, saved: seq<bv8>, mem: seq<bv8>, value: seq<bv8>, put: seq<bv8>, after: seq<bv8>)
    requires Fits(f, |mem|) && |put| == |saved| == WINDOW
    requires WindowOf(mem, f.address, WINDOW, value) && PutBack(f, value, saved, put) && Replaced(mem, f.address, WINDOW, put, after)
    ensures after == Reversed(f, saved, mem)
  {
    hide WindowOf, Replaced, PutBack, ReversedByte;
    ReplacedSize(mem, f.address, WINDOW, put, after);
    forall a | 0 <= a < |mem| ensures after[a] == ReversedByte(f, saved, a, mem[a]) {
      ReversedWindowAt(f, saved, mem, value, put, after, a);
    }
  }

  lemma ReplacedSize(mem: seq<bv8>, address: nat, n: nat, value: seq<bv8>, after: seq<bv8>)
    requires address + n <= |mem| && n <= |value| && Replaced(mem, address, n, value, after)
    ensures |after| == |mem|
  {
  }

  lemma ReversedWindowAt(f: Fault, saved: seq<bv8>, mem: seq<bv8>, value: seq<bv8>, put: seq<bv8>, after: seq<bv8>, a: nat)
    requires Fits(f, |mem|) && |put| == |saved| == WINDOW && a < |mem|
    requires WindowOf(mem, f.address, WINDOW, value) && PutBack(f, value, saved, put) && Replaced(mem, f.address, WINDOW, put, after)
    ensures after[a] == ReversedByte(f, saved, a, mem[a])
  {
    hide Restore;
    if Within(f, a) {
      var i := a - f.address;
      assert value[i] == mem[f.address + i] && after[a] == put[i];
    }
  }

  /** `process_reverse_fault`. */
  method ProcessReverseFault(memory: array<bv8>, f: Fault, restoremask: array<bv8>)
    requires Fits(f, memory.Length) && restoremask.Length == WINDOW && memory != restoremask
    modifies memory
    ensures memory[..] == Reversed(f, restoremask[..], old(memory[..]))
  {
    hide Reversed, WindowOf, Replaced, PutBack;
    ghost var mem := memory[..];
    var value := ReadMemory(memory, f.address, WINDOW);
    ghost var read := value[..];
    RestoreBits(f, value, restoremask);
    WriteMemory(memory, f.address, value, WINDOW);
    ReversedWindow(f, restoremask[..], mem, read, value[..], memory[..]);
  }
}
