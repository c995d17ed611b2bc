/** Any number of memory faults come and go while the program writes memory. As long as the
    faults that are in effect at one time mask different bits, every reversal is exact and
    nothing is left of a fault once it is reversed. */
module MemoryRuns {
  import opened MemoryFault

  datatype Event = Inject(i: nat) | Reverse(i: nat) | Write(a: nat, w: bv8)

  /** `live` holds the restore masks of the faults in effect. */
  datatype State = State(mem: seq<bv8>, live: map<nat, seq<bv8>>)

  ghost predicate WellFormed(fs: seq<Fault>, s: State) {
    && (forall i :: 0 <= i < |fs| ==> Fits(fs[i], |s.mem|))
    && (forall i :: i in s.live ==> i < |fs| && |s.live[i]| == WINDOW)
  }

  ghost predicate Enabled(fs: seq<Fault>, s: State, e: Event) {
    match e
    case Inject(i) => i < |fs| && i !in s.live
    case Reverse(i) => i in s.live
    case Write(a, _) => a < |s.mem|
  }

  function Step(fs: seq<Fault>, s: State, e: Event): State
    requires WellFormed(fs, s) && Enabled(fs, s, e)
  {
    match e
    case Inject(i) => State(Injected(fs[i], s.mem), s.live[i := Saved(fs[i], s.mem)])
    case Reverse(i) => State(Reversed(fs[i], s.live[i], s.mem), s.live - {i})
    case Write(a, w) => State(s.mem[a := w], s.live)
  }

  // ---- Masks ----

  ghost predicate Masks(fs: seq<Fault>) {
    forall i :: 0 <= i < |fs| ==> |fs[i].mask| == WINDOW
  }

  /** The bits at an address that the first n faults hold, those in effect only. */
  ghost function Held(fs: seq<Fault>, live: set<nat>, a: int, n: nat): bv8
    requires Masks(fs) && n <= |fs|
  {
    if n == 0 then 0 else Or(Held(fs, live, a, n - 1), if n - 1 in live then MaskAt(fs[n - 1], a) else 0)
  }

  ghost function AllHeld(fs: seq<Fault>, live: set<nat>, a: int): bv8
    requires Masks(fs)
  {
    Held(fs, live, a, |fs|)
  }

  /** Fault i masks no bit that another fault in effect masks. */
  ghost predicate Apart(fs: seq<Fault>, live: set<nat>, i: nat)
    requires Masks(fs) && i < |fs|
  {
    forall j, a :: j in live && j < |fs| && j != i ==> And(MaskAt(fs[i], a), MaskAt(fs[j], a)) == 0
  }

  lemma OrApart(x: bv8, y: bv8, z: bv8)
    requires And(x, y) == 0 && And(x, z) == 0
    ensures And(x, Or(y, z)) == 0
  {
  }

  lemma AndNothing(x: bv8)
    ensures And(x, 0) == 0
  {
  }

  lemma OrNothing(x: bv8)
    ensures Or(x, 0) == x
  {
  }

  lemma OrSwap(x: bv8, y: bv8, z: bv8)
    ensures Or(Or(x, y), z) == Or(Or(x, z), y)
  {
  }

  lemma {:induction false} ApartFromHeld(fs: seq<Fault>, live: set<nat>, i: nat, a: int, n: nat)
    requires Masks(fs) && i < |fs| && n <= |fs| && i !in live && Apart(fs, live, i)
    ensures And(MaskAt(fs[i], a), Held(fs, live, a, n)) == 0
  {
    hide And, Or, MaskAt;
    AndNothing(MaskAt(fs[i], a));
    if n > 0 {
      ApartFromHeld(fs, live, i, a, n - 1);
      if n - 1 in live {
        OrApart(MaskAt(fs[i], a), Held(fs, live, a, n - 1), MaskAt(fs[n - 1], a));
      } else {
        OrNothing(Held(fs, live, a, n - 1));
      }
    }
  }

  /** One fault more in effect. */
  lemma {:induction false} HeldWith(fs: seq<Fault>, live: set<nat>, i: nat, a: int, n: nat)
    requires Masks(fs) && i < |fs| && n <= |fs| && i !in live
    ensures Held(fs, live + {i}, a, n) == if i < n then Or(Held(fs, live, a, n), MaskAt(fs[i], a)) else Held(fs, live, a, n)
  {
    hide MaskAt, Or;
    if n > 0 {
      HeldWith(fs, live, i, a, n - 1);
      var h := Held(fs, live, a, n - 1);
      if i == n - 1 {
        OrNothing(h);
      } else if i < n - 1 {
        OrSwap(h, MaskAt(fs[i], a), if n - 1 in live then MaskAt(fs[n - 1], a) else 0);
      }
    }
  }

  lemma {:induction false} NothingHeld(fs: seq<Fault>, a: int, n: nat)
    requires Masks(fs) && n <= |fs|
    ensures Held(fs, {}, a, n) == 0
  {
    if n > 0 {
      NothingHeld(fs, a, n - 1);
      OrNothing(0);
    }
  }

  // ---- The memory without faults ----

  /** A program write reaches the bits that no fault holds. */
  function Merge(v: bv8, w: bv8, held: bv8): bv8 {
    Or(And(v, held), And(w, Not(held)))
  }

  /** The memory as it would be without faults, except that a write to a bit is lost while a fault holds it. */
  ghost function Ideal(fs: seq<Fault>, s: State, v: seq<bv8>, e: Event): seq<bv8>
    requires Masks(fs) && |v| == |s.mem|
  {
    if e.Write? && e.a < |v| then v[e.a := Merge(v[e.a], e.w, AllHeld(fs, s.live.Keys, e.a))] else v
  }

  /** Memory and ideal memory agree on all bits that no fault holds. */
  ghost predicate Agree(fs: seq<Fault>, s: State, v: seq<bv8>)
    requires Masks(fs) && |v| == |s.mem|
  {
    forall a {:trigger s.mem[a]} {:trigger v[a]} :: 0 <= a < |v| ==> AgreeAt(s.mem[a], v[a], AllHeld(fs, s.live.Keys, a))
  }

  predicate AgreeAt(m: bv8, v: bv8, held: bv8) {
    And(m, Not(held)) == And(v, Not(held))
  }

  /** What a fault in effect saved are the ideal bits. */
  ghost predicate SavedIdeal(fs: seq<Fault>, s: State, v: seq<bv8>, i: nat)
    requires WellFormed(fs, s) && |v| == |s.mem| && i in s.live
  {
    forall k {:trigger s.live[i][k]} :: 0 <= k < WINDOW ==> s.live[i][k] == And(v[fs[i].address + k], fs[i].mask[k])
  }

  ghost predicate Erasable(fs: seq<Fault>, s: State, v: seq<bv8>) {
    && WellFormed(fs, s) && Masks(fs) && |v| == |s.mem| && Agree(fs, s, v)
    && (forall i :: i in s.live ==> fs[i].model != Overwrite && SavedIdeal(fs, s, v, i))
  }

  // ---- One byte at a time ----

  lemma AndAssoc(x: bv8, y: bv8, z: bv8)
    ensures And(x, And(y, z)) == And(And(x, y), z)
  {
  }

  lemma AndSwap(x: bv8, y: bv8, z: bv8)
    ensures And(And(x, y), z) == And(And(x, z), y)
  {
  }

  lemma NotOr(x: bv8, y: bv8)
    ensures Not(Or(x, y)) == And(Not(x), Not(y))
  {
  }

  lemma OutsideOf(x: bv8, y: bv8)
    requires And(x, y) == 0
    ensures And(x, Not(y)) == x
  {
  }

  lemma OrCommutes(x: bv8, y: bv8)
    ensures Or(x, y) == Or(y, x)
  {
  }

  /** Equal inside a part and outside it. */
  lemma EqualByParts(x: bv8, y: bv8, part: bv8)
    requires And(x, part) == And(y, part) && And(x, Not(part)) == And(y, Not(part))
    ensures x == y
  {
  }

  lemma Restricted(x: bv8, y: bv8, part: bv8, more: bv8)
    requires And(x, part) == And(y, part)
    ensures And(And(x, more), part) == And(And(y, more), part)
  {
    hide And;
    AndSwap(x, more, part);
    AndSwap(y, more, part);
  }

  /** Agreement outside the held bits gives agreement on bits apart from them. */
  lemma AgreeApart(m: bv8, v: bv8, held: bv8, mask: bv8)
    requires AgreeAt(m, v, held) && And(mask, held) == 0
    ensures And(m, mask) == And(v, mask)
  {
    hide And, Not;
    OutsideOf(mask, held);
    AndAssoc(m, mask, Not(held));
    AndAssoc(v, mask, Not(held));
    AndSwap(m, mask, Not(held));
    AndSwap(v, mask, Not(held));
  }

  lemma AgreeMore(m: bv8, v: bv8, held: bv8, mask: bv8)
    requires AgreeAt(m, v, held)
    ensures AgreeAt(m, v, Or(held, mask))
  {
    hide And, Or, Not;
    NotOr(held, mask);
    AndAssoc(m, Not(held), Not(mask));
    AndAssoc(v, Not(held), Not(mask));
  }

  lemma HitOutside(model: Model, m: bv8, mask: bv8)
    requires model != Overwrite
    ensures AgreeAt(HitByte(model, m, mask), m, mask)
  {
    hide And, Not, HitByte;
    OtherBits(model, m, mask);
  }

  lemma InjectByte(model: Model, m: bv8, v: bv8, mask: bv8, held: bv8)
    requires AgreeAt(m, v, held) && And(mask, held) == 0 && model != Overwrite
    ensures AgreeAt(HitByte(model, m, mask), v, Or(held, mask)) && And(m, mask) == And(v, mask)
  {
    hide And, Or, Not, HitByte;
    AgreeApart(m, v, held, mask);
    AgreeMore(m, v, held, mask);
    HitOutside(model, m, mask);
    AgreeMore(HitByte(model, m, mask), m, mask, held);
    OrCommutes(held, mask);
  }

  lemma RestoreMasked(m: bv8, v: bv8, mask: bv8)
    ensures And(Restore(m, mask, And(v, mask)), mask) == And(v, mask)
  {
  }

  lemma RestoreUnmasked(m: bv8, v: bv8, mask: bv8)
    ensures And(Restore(m, mask, And(v, mask)), Not(mask)) == And(m, Not(mask))
  {
  }

  lemma ReverseByte(m: bv8, v: bv8, mask: bv8, held: bv8)
    requires AgreeAt(m, v, Or(held, mask))
    ensures AgreeAt(Restore(m, mask, And(v, mask)), v, held)
  {
    hide And, Or, Not, Restore;
    var r, outside := Restore(m, mask, And(v, mask)), Not(held);
    RestoreMasked(m, v, mask);
    Restricted(r, v, mask, outside);
    RestoreUnmasked(m, v, mask);
    Restricted(r, m, Not(mask), outside);
    NotOr(held, mask);
    AndAssoc(m, outside, Not(mask));
    AndAssoc(v, outside, Not(mask));
    EqualByParts(And(r, outside), And(v, outside), mask);
  }

  lemma WriteByte(v: bv8, w: bv8, held: bv8)
    ensures AgreeAt(w, Merge(v, w, held), held)
  {
  }

  lemma MergeHeld(v: bv8, w: bv8, held: bv8)
    ensures And(Merge(v, w, held), held) == And(v, held)
  {
  }

  lemma WithinHeld(mask: bv8, held: bv8)
    requires And(mask, Not(held)) == 0
    ensures And(held, mask) == mask
  {
  }

  lemma MergeKeepsMasked(v: bv8, w: bv8, held: bv8, mask: bv8)
    requires And(mask, Not(held)) == 0
    ensures And(Merge(v, w, held), mask) == And(v, mask)
  {
    hide And, Not, Merge;
    MergeHeld(v, w, held);
    WithinHeld(mask, held);
    AndAssoc(v, held, mask);
    AndAssoc(Merge(v, w, held), held, mask);
  }

  // ---- One event at a time ----

  lemma SavedAsAnd(f: Fault, k: nat, m: bv8)
    requires |f.mask| == WINDOW && k < WINDOW && f.model != Overwrite
    ensures SavedByte(f, k, m) == And(m, f.mask[k])
  {
  }

  lemma InjectAt(f: Fault, a: int, m: bv8, v: bv8, held: bv8)
    requires |f.mask| == WINDOW && f.model != Overwrite && AgreeAt(m, v, held) && And(MaskAt(f, a), held) == 0
    ensures AgreeAt(InjectedByte(f, a, m), v, Or(held, MaskAt(f, a)))
    ensures Within(f, a) ==> SavedByte(f, a - f.address, m) == And(v, f.mask[a - f.address])
  {
    hide And, Or, HitByte, AgreeAt, SavedByte;
    if Within(f, a) {
      InjectByte(f.model, m, v, MaskAt(f, a), held);
      SavedAsAnd(f, a - f.address, m);
    } else {
      AgreeMore(m, v, held, MaskAt(f, a));
    }
  }

  lemma InjectKeepsAgreement(fs: seq<Fault>, s: State, v: seq<bv8>, i: nat, r: State)
    requires Erasable(fs, s, v) && i < |fs| && i !in s.live && fs[i].model != Overwrite && Apart(fs, s.live.Keys, i)
    requires r == Step(fs, s, Inject(i))
    ensures Agree(fs, r, v) && SavedIdeal(fs, r, v, i)
  {
    hide And, Or, AgreeAt, HitByte, SavedByte, InjectedByte, MaskAt, SavedIdeal;
    assert r.live.Keys == s.live.Keys + {i};
    forall a | 0 <= a < |v|
      ensures AgreeAt(r.mem[a], v[a], AllHeld(fs, r.live.Keys, a))
      ensures Within(fs[i], a) ==> SavedByte(fs[i], a - fs[i].address, s.mem[a]) == And(v[a], fs[i].mask[a - fs[i].address])
    {
      assert AgreeAt(s.mem[a], v[a], AllHeld(fs, s.live.Keys, a));
      ApartFromHeld(fs, s.live.Keys, i, a, |fs|);
      HeldWith(fs, s.live.Keys, i, a, |fs|);
      InjectAt(fs[i], a, s.mem[a], v[a], AllHeld(fs, s.live.Keys, a));
    }
    SavedNow(fs, s, v, i, r);
  }

  lemma SavedNow(fs: seq<Fault>, s: State, v: seq<bv8>, i: nat, r: State)
    requires WellFormed(fs, s) && i < |fs| && i !in s.live && r == Step(fs, s, Inject(i)) && |v| == |s.mem|
    requires forall a :: 0 <= a < |v| && Within(fs[i], a) ==>
               SavedByte(fs[i], a - fs[i].address, s.mem[a]) == And(v[a], fs[i].mask[a - fs[i].address])
    ensures WellFormed(fs, r) && SavedIdeal(fs, r, v, i)
  {
    hide And, SavedByte, HitByte;
    forall k | 0 <= k < WINDOW ensures r.live[i][k] == And(v[fs[i].address + k], fs[i].mask[k]) {
      var a := fs[i].address + k;
      assert Within(fs[i], a) && a - fs[i].address == k;
    }
  }

  lemma InjectKeeps(fs: seq<Fault>, s: State, v: seq<bv8>, i: nat, r: State)
    requires Erasable(fs, s, v) && i < |fs| && i !in s.live && fs[i].model != Overwrite && Apart(fs, s.live.Keys, i)
    requires r == Step(fs, s, Inject(i))
    ensures Erasable(fs, r, v)
  {
    hide Agree, Injected, Saved, Apart, And;
    InjectKeepsAgreement(fs, s, v, i, r);
    forall j | j in r.live ensures SavedIdeal(fs, r, v, j) {
      if j != i { assert SavedIdeal(fs, s, v, j); }
    }
  }

  lemma ReverseAt(f: Fault, saved: seq<bv8>, a: int, m: bv8, v: bv8, held: bv8)
    requires |f.mask| == |saved| == WINDOW && AgreeAt(m, v, Or(held, MaskAt(f, a)))
    requires Within(f, a) ==> saved[a - f.address] == And(v, f.mask[a - f.address])
    ensures AgreeAt(ReversedByte(f, saved, a, m), v, held)
  {
    hide And, Or, AgreeAt, Restore;
    if Within(f, a) {
      ReverseByte(m, v, MaskAt(f, a), held);
    } else {
      OrNothing(held);
    }
  }

  lemma AgreeHere(fs: seq<Fault>, s: State, v: seq<bv8>, a: nat)
    requires Masks(fs) && |v| == |s.mem| && Agree(fs, s, v) && a < |v|
    ensures AgreeAt(s.mem[a], v[a], AllHeld(fs, s.live.Keys, a))
  {
  }

  lemma SavedHere(fs: seq<Fault>, s: State, v: seq<bv8>, i: nat, a: nat)
    requires WellFormed(fs, s) && |v| == |s.mem| && i in s.live && SavedIdeal(fs, s, v, i) && Within(fs[i], a)
    ensures s.live[i][a - fs[i].address] == And(v[a], fs[i].mask[a - fs[i].address])
  {
    hide And;
    var k := a - fs[i].address;
    assert s.live[i][k] == And(v[fs[i].address + k], fs[i].mask[k]);
  }

  lemma ReverseAgrees(fs: seq<Fault>, s: State, v: seq<bv8>, i: nat, r: State, a: nat)
    requires Erasable(fs, s, v) && i in s.live && r == Step(fs, s, Reverse(i)) && a < |v|
    ensures AgreeAt(r.mem[a], v[a], AllHeld(fs, r.live.Keys, a))
  {
    hide And, Or, AgreeAt, Restore, ReversedByte, MaskAt, Held, SavedIdeal, Agree;
    assert r.live.Keys == s.live.Keys - {i} && s.live.Keys == r.live.Keys + {i};
    AgreeHere(fs, s, v, a);
    HeldWith(fs, r.live.Keys, i, a, |fs|);
    if Within(fs[i], a) { SavedHere(fs, s, v, i, a); }
    ReverseAt(fs[i], s.live[i], a, s.mem[a], v[a], AllHeld(fs, r.live.Keys, a));
  }

  lemma ReverseKeeps(fs: seq<Fault>, s: State, v: seq<bv8>, i: nat, r: State)
    requires Erasable(fs, s, v) && i in s.live && r == Step(fs, s, Reverse(i))
    ensures Erasable(fs, r, v)
  {
    hide And, Or, AgreeAt, Restore, ReversedByte, MaskAt, Held, AllHeld;
    forall a | 0 <= a < |v| ensures AgreeAt(r.mem[a], v[a], AllHeld(fs, r.live.Keys, a)) {
      ReverseAgrees(fs, s, v, i, r, a);
    }
    forall j | j in r.live ensures SavedIdeal(fs, r, v, j) {
      assert SavedIdeal(fs, s, v, j);
    }
  }

  /** A fault in effect holds its masked bits. */
  lemma {:induction false} HoldsItsBits(fs: seq<Fault>, live: set<nat>, i: nat, a: int, n: nat)
    requires Masks(fs) && i in live && i < n <= |fs|
    ensures And(MaskAt(fs[i], a), Not(Held(fs, live, a, n))) == 0
  {
    hide MaskAt, And, Or, Not;
    var h := Held(fs, live, a, n - 1);
    if i < n - 1 {
      HoldsItsBits(fs, live, i, a, n - 1);
      HeldByOr(MaskAt(fs[i], a), h, if n - 1 in live then MaskAt(fs[n - 1], a) else 0);
    } else {
      HeldByLast(MaskAt(fs[i], a), h);
    }
  }

  lemma HeldByOr(x: bv8, h: bv8, y: bv8)
    requires And(x, Not(h)) == 0
    ensures And(x, Not(Or(h, y))) == 0
  {
    assert And(x, And(Not(h), Not(y))) == And(And(x, Not(h)), Not(y));
    NotOr(h, y);
  }

  lemma HeldByLast(x: bv8, h: bv8)
    ensures And(x, Not(Or(h, x))) == 0
  {
  }

  lemma WriteKeeps(fs: seq<Fault>, s: State, v: seq<bv8>, a: nat, w: bv8, r: State)
    requires Erasable(fs, s, v) && a < |s.mem| && r == Step(fs, s, Write(a, w))
    ensures Erasable(fs, r, Ideal(fs, s, v, Write(a, w)))
  {
    hide And, Or, Not, AgreeAt, MaskAt, Merge;
    var held := AllHeld(fs, s.live.Keys, a);
    var u := Ideal(fs, s, v, Write(a, w));
    WriteByte(v[a], w, held);
    forall b | 0 <= b < |v| ensures AgreeAt(r.mem[b], u[b], AllHeld(fs, r.live.Keys, b)) {
      assert AgreeAt(s.mem[b], v[b], AllHeld(fs, s.live.Keys, b));
    }
    forall i | i in r.live ensures SavedIdeal(fs, r, u, i) {
      assert SavedIdeal(fs, s, v, i);
      forall k | 0 <= k < WINDOW ensures r.live[i][k] == And(u[fs[i].address + k], fs[i].mask[k]) {
        assert s.live[i][k] == And(v[fs[i].address + k], fs[i].mask[k]);
        if fs[i].address + k == a {
          HoldsItsBits(fs, s.live.Keys, i, a, |fs|);
          MaskInside(fs[i], k, a);
          MergeKeepsMasked(v[a], w, held, fs[i].mask[k]);
        }
      }
    }
  }

  lemma MaskInside(f: Fault, k: nat, a: int)
    requires |f.mask| == WINDOW && k < WINDOW && a == f.address + k
    ensures MaskAt(f, a) == f.mask[k]
  {
  }

  // ---- Whole runs ----

  /** An injected fault masks no bit that is held already, and it does not overwrite. */
  ghost predicate Fair(fs: seq<Fault>, s: State, e: Event) {
    Masks(fs) && (e.Inject? && e.i < |fs| ==> fs[e.i].model != Overwrite && Apart(fs, s.live.Keys, e.i))
  }

  ghost predicate IsStep(fs: seq<Fault>, s: State, v: seq<bv8>, e: Event, s': State, v': seq<bv8>) {
    && WellFormed(fs, s) && Enabled(fs, s, e) && Masks(fs) && |v| == |s.mem|
    && s' == Step(fs, s, e) && v' == Ideal(fs, s, v, e)
  }

  /** A run with the ideal memory beside it. */
  ghost predicate IsRun(fs: seq<Fault>, mem: seq<bv8>, es: seq<Event>, ss: seq<State>, vs: seq<seq<bv8>>) {
    && |ss| == |vs| == |es| + 1 && ss[0] == State(mem, map[]) && vs[0] == mem
    && (forall i :: 0 <= i < |fs| ==> Fits(fs[i], |mem|))
    && forall k {:trigger es[k]} :: 0 <= k < |es| ==> IsStep(fs, ss[k], vs[k], es[k], ss[k + 1], vs[k + 1])
  }

  ghost predicate FairRun(fs: seq<Fault>, es: seq<Event>, ss: seq<State>) {
    |ss| == |es| + 1 && forall k {:trigger es[k]} :: 0 <= k < |es| ==> Fair(fs, ss[k], es[k])
  }

  lemma StartErasable(fs: seq<Fault>, mem: seq<bv8>)
    requires forall i :: 0 <= i < |fs| ==> Fits(fs[i], |mem|)
    ensures Erasable(fs, State(mem, map[]), mem)
  {
  }

  lemma {:induction false} RunErasable(fs: seq<Fault>, mem: seq<bv8>, es: seq<Event>, ss: seq<State>, vs: seq<seq<bv8>>, k: nat)
    requires IsRun(fs, mem, es, ss, vs) && FairRun(fs, es, ss) && k <= |es|
    ensures Erasable(fs, ss[k], vs[k])
  {
    hide Agree, SavedIdeal, Step, Ideal;
    if k == 0 {
      StartErasable(fs, mem);
    } else {
      RunErasable(fs, mem, es, ss, vs, k - 1);
      var j := k - 1;
      assert IsStep(fs, ss[j], vs[j], es[j], ss[j + 1], vs[j + 1]) && Fair(fs, ss[j], es[j]);
      OneStep(fs, ss[j], vs[j], es[j], ss[k], vs[k]);
    }
  }

  lemma OneStep(fs: seq<Fault>, s: State, v: seq<bv8>, e: Event, s': State, v': seq<bv8>)
    requires Erasable(fs, s, v) && IsStep(fs, s, v, e, s', v') && Fair(fs, s, e)
    ensures Erasable(fs, s', v')
  {
    hide Agree, SavedIdeal, Step, Erasable;
    match e
    case Inject(i) => InjectKeeps(fs, s, v, i, s');
    case Reverse(i) => ReverseKeeps(fs, s, v, i, s');
    case Write(a, w) => WriteKeeps(fs, s, v, a, w, s');
  }

  lemma AgreeNothingHeld(m: bv8, v: bv8)
    requires AgreeAt(m, v, 0)
    ensures m == v
  {
  }

  /** Whenever no fault is in effect the memory is the ideal memory: nothing is left of any of them. */
  lemma NothingRemains(fs: seq<Fault>, mem: seq<bv8>, es: seq<Event>, ss: seq<State>, vs: seq<seq<bv8>>, k: nat)
    requires IsRun(fs, mem, es, ss, vs) && FairRun(fs, es, ss) && k <= |es| && ss[k].live == map[]
    ensures ss[k].mem == vs[k]
  {
    RunErasable(fs, mem, es, ss, vs, k);
    var s, v := ss[k], vs[k];
    forall a | 0 <= a < |v| ensures s.mem[a] == v[a] {
      NothingHeld(fs, a, |fs|);
      assert s.live.Keys == {};
      assert AgreeAt(s.mem[a], v[a], AllHeld(fs, s.live.Keys, a));
      AgreeNothingHeld(s.mem[a], v[a]);
    }
  }

  /** In effect from its injection at p until q. */
  ghost predicate InEffect(es: seq<Event>, i: nat, p: nat, q: nat) {
    p < q <= |es| && es[p] == Inject(i) && forall k :: p < k < q ==> es[k] != Reverse(i) && es[k] != Inject(i)
  }

  lemma {:induction false} SavedStays(fs: seq<Fault>, mem: seq<bv8>, es: seq<Event>, ss: seq<State>, vs: seq<seq<bv8>>, i: nat, p: nat, q: nat)
    requires IsRun(fs, mem, es, ss, vs) && InEffect(es, i, p, q)
    ensures i < |fs| && Fits(fs[i], |ss[p].mem|) && i in ss[q].live && ss[q].live[i] == Saved(fs[i], ss[p].mem)
  {
    hide Saved, Injected, Reversed, Ideal;
    var j := q - 1;
    assert IsStep(fs, ss[j], vs[j], es[j], ss[j + 1], vs[j + 1]);
    if p < j { SavedStays(fs, mem, es, ss, vs, i, p, j); }
  }

  /** Whatever happened in between, with faults overlapping or not, reversal gives the masked bits
      the values they had when the fault was injected, and leaves every other bit alone. */
  lemma ReversalIsExact(fs: seq<Fault>, mem: seq<bv8>, es: seq<Event>, ss: seq<State>, vs: seq<seq<bv8>>, i: nat, p: nat, q: nat, a: nat)
    requires IsRun(fs, mem, es, ss, vs) && InEffect(es, i, p, q) && q < |es| && es[q] == Reverse(i) && a < |mem|
    requires i < |fs| ==> fs[i].model != Overwrite
    ensures Masks(fs) && i < |fs| && |ss[p].mem| == |ss[q].mem| == |ss[q + 1].mem| == |mem|
    ensures And(ss[q + 1].mem[a], MaskAt(fs[i], a)) == And(ss[p].mem[a], MaskAt(fs[i], a))
    ensures And(ss[q + 1].mem[a], Not(MaskAt(fs[i], a))) == And(ss[q].mem[a], Not(MaskAt(fs[i], a)))
  {
    hide Ideal, Restore, And, Not;
    SavedStays(fs, mem, es, ss, vs, i, p, q);
    MemorySize(fs, mem, es, ss, vs, p);
    MemorySize(fs, mem, es, ss, vs, q);
    MemorySize(fs, mem, es, ss, vs, q + 1);
    assert IsStep(fs, ss[p], vs[p], es[p], ss[p + 1], vs[p + 1]);
    assert IsStep(fs, ss[q], vs[q], es[q], ss[q + 1], vs[q + 1]);
    if Within(fs[i], a) {
      var k := a - fs[i].address;
      assert ss[q].live[i][k] == SavedByte(fs[i], k, ss[p].mem[fs[i].address + k]);
      RestoreMasked(ss[q].mem[a], ss[p].mem[a], fs[i].mask[k]);
      RestoreUnmasked(ss[q].mem[a], ss[p].mem[a], fs[i].mask[k]);
      SavedAsAnd(fs[i], k, ss[p].mem[a]);
    } else {
      AndNothing(ss[q + 1].mem[a]);
      AndNothing(ss[p].mem[a]);
    }
  }

  lemma {:induction false} MemorySize(fs: seq<Fault>, mem: seq<bv8>, es: seq<Event>, ss: seq<State>, vs: seq<seq<bv8>>, k: nat)
    requires IsRun(fs, mem, es, ss, vs) && k <= |es|
    ensures |ss[k].mem| == |mem|
  {
    hide Ideal, Injected, Reversed, Saved;
    if k > 0 {
      MemorySize(fs, mem, es, ss, vs, k - 1);
      var j := k - 1;
      assert IsStep(fs, ss[j], vs[j], es[j], ss[j + 1], vs[j + 1]);
    }
  }

  /** What the program alone would have made of the memory. */
  ghost function Program(mem: seq<bv8>, es: seq<Event>, k: nat): (r: seq<bv8>)
    requires k <= |es|
    ensures |r| == |mem|
  {
    if k == 0 then mem
    else
      var r := Program(mem, es, k - 1);
      if es[k - 1].Write? && es[k - 1].a < |r| then r[es[k - 1].a := es[k - 1].w] else r
  }

  /** No write meets a byte in which a fault holds bits. */
  ghost predicate WritesFree(fs: seq<Fault>, es: seq<Event>, ss: seq<State>)
    requires |ss| == |es| + 1 && Masks(fs)
  {
    forall k {:trigger es[k]} :: 0 <= k < |es| && es[k].Write? ==> AllHeld(fs, ss[k].live.Keys, es[k].a) == 0
  }

  lemma MergeNothing(v: bv8, w: bv8)
    ensures Merge(v, w, 0) == w
  {
  }

  lemma {:induction false} IdealIsProgram(fs: seq<Fault>, mem: seq<bv8>, es: seq<Event>, ss: seq<State>, vs: seq<seq<bv8>>, k: nat)
    requires IsRun(fs, mem, es, ss, vs) && Masks(fs) && WritesFree(fs, es, ss) && k <= |es|
    ensures vs[k] == Program(mem, es, k)
  {
    hide Injected, Reversed, Saved, Merge, AllHeld;
    if k > 0 {
      var j := k - 1;
      IdealIsProgram(fs, mem, es, ss, vs, j);
      assert IsStep(fs, ss[j], vs[j], es[j], ss[j + 1], vs[j + 1]);
      if es[j].Write? { MergeNothing(vs[j][es[j].a], es[j].w); }
    }
  }

  /** The program then ends with the memory it would have had without faults. */
  lemma FaultsLeaveNoTrace(fs: seq<Fault>, mem: seq<bv8>, es: seq<Event>, ss: seq<State>, vs: seq<seq<bv8>>)
    requires IsRun(fs, mem, es, ss, vs) && FairRun(fs, es, ss) && Masks(fs) && WritesFree(fs, es, ss) && ss[|es|].live == map[]
    ensures ss[|es|].mem == Program(mem, es, |es|)
  {
    NothingRemains(fs, mem, es, ss, vs, |es|);
    IdealIsProgram(fs, mem, es, ss, vs, |es|);
  }

  // ---- Overlapping masks ----

  /** No two faults mask a common bit. */
  ghost predicate Disjoint(fs: seq<Fault>)
    requires Masks(fs)
  {
    forall i, j, a :: 0 <= i < |fs| && 0 <= j < |fs| && i != j ==> And(MaskAt(fs[i], a), MaskAt(fs[j], a)) == 0
  }

  ghost predicate AllFit(fs: seq<Fault>, size: nat) {
    forall i :: 0 <= i < |fs| ==> Fits(fs[i], size) && fs[i].model != Overwrite
  }

  /** Whenever no fault is in effect, nothing is left of any of them. */
  ghost predicate NoTrace(es: seq<Event>, ss: seq<State>, vs: seq<seq<bv8>>) {
    |ss| == |vs| == |es| + 1 && forall k :: 0 <= k < |ss| && ss[k].live == map[] ==> ss[k].mem == vs[k]
  }

  lemma DisjointIsFair(fs: seq<Fault>, mem: seq<bv8>, es: seq<Event>, ss: seq<State>, vs: seq<seq<bv8>>)
    requires IsRun(fs, mem, es, ss, vs) && AllFit(fs, |mem|) && Masks(fs) && Disjoint(fs)
    ensures FairRun(fs, es, ss)
  {
    hide MaskAt, And;
    forall k | 0 <= k < |es| ensures Fair(fs, ss[k], es[k]) {
      assert IsStep(fs, ss[k], vs[k], es[k], ss[k + 1], vs[k + 1]);
    }
  }

  /** The start value of a byte that shows the overlap. */
  function Telling(model: Model): bv8 {
    if model == Set0 then 0xff else 0
  }

  /** The byte after both faults were injected and reversed, the first one first. */
  function BothReversed(f: Model, g: Model, v: bv8, m: bv8, n: bv8): bv8
    requires f != Overwrite && g != Overwrite
  {
    var once := HitByte(f, v, m);
    Restore(Restore(HitByte(g, once, n), m, And(v, m)), n, And(once, n))
  }

  /** On a shared bit the second fault saved what the first one had made of it. */
  lemma SharedBitStays(f: Model, g: Model, m: bv8, n: bv8)
    requires f != Overwrite && g != Overwrite && And(m, n) != 0
    ensures BothReversed(f, g, Telling(f), m, n) != Telling(f)
  {
    var once := HitByte(f, Telling(f), m);
    SharedBit(Restore(HitByte(g, once, n), m, And(Telling(f), m)), n, once);
    HitTelling(f, m, n);
  }

  lemma SharedBit(v: bv8, n: bv8, saved: bv8)
    ensures And(Restore(v, n, And(saved, n)), n) == And(saved, n)
  {
    RestoreMasked(v, saved, n);
  }

  lemma HitTelling(f: Model, m: bv8, n: bv8)
    requires f != Overwrite && And(m, n) != 0
    ensures And(HitByte(f, Telling(f), m), n) != And(Telling(f), n)
  {
  }

  function Overlapping(i: nat, j: nat): (es: seq<Event>) {
    [Inject(i), Inject(j), Reverse(i), Reverse(j)]
  }

  lemma InjectStep(fs: seq<Fault>, s: State, i: nat, a: nat, r: State)
    requires WellFormed(fs, s) && i < |fs| && i !in s.live && r == Step(fs, s, Inject(i)) && Masks(fs) && fs[i].model != Overwrite && Within(fs[i], a)
    ensures WellFormed(fs, r) && |r.mem| == |s.mem| && r.live.Keys == s.live.Keys + {i} && (forall k :: k in s.live ==> r.live[k] == s.live[k])
    ensures r.mem[a] == HitByte(fs[i].model, s.mem[a], MaskAt(fs[i], a)) && r.live[i][a - fs[i].address] == And(s.mem[a], MaskAt(fs[i], a))
  {
    hide HitByte, And, SavedByte;
    assert Saved(fs[i], s.mem)[a - fs[i].address] == SavedByte(fs[i], a - fs[i].address, s.mem[fs[i].address + (a - fs[i].address)]);
    SavedAsAnd(fs[i], a - fs[i].address, s.mem[a]);
  }

  lemma ReverseStep(fs: seq<Fault>, s: State, i: nat, a: nat, r: State)
    requires WellFormed(fs, s) && i in s.live && r == Step(fs, s, Reverse(i)) && Masks(fs) && Within(fs[i], a)
    ensures WellFormed(fs, r) && |r.mem| == |s.mem| && r.live == s.live - {i}
    ensures r.mem[a] == Restore(s.mem[a], MaskAt(fs[i], a), s.live[i][a - fs[i].address])
  {
    hide Restore;
  }

  /** Whatever the models and masks of two faults that share a masked bit, some memory is not what
      it was after both have come and gone. */
  lemma OverlapStays(fs: seq<Fault>, size: nat, i: nat, j: nat, a: nat) returns (mem: seq<bv8>, ss: seq<State>, vs: seq<seq<bv8>>)
    requires AllFit(fs, size) && Masks(fs) && i < |fs| && j < |fs| && i != j && And(MaskAt(fs[i], a), MaskAt(fs[j], a)) != 0
    ensures |mem| == size && a < size && IsRun(fs, mem, Overlapping(i, j), ss, vs)
    ensures ss[4].live == map[] && |ss[4].mem| == size && ss[4].mem[a] != mem[a] && vs[4] == mem
  {
    hide And, Restore, HitByte, Injected, Saved, Reversed;
    SharedIsWithin(fs[i], fs[j], a);
    mem := seq(size, _ => Telling(fs[i].model));
    var s0 := State(mem, map[]);
    var s1 := Step(fs, s0, Inject(i));
    InjectStep(fs, s0, i, a, s1);
    var s2 := Step(fs, s1, Inject(j));
    InjectStep(fs, s1, j, a, s2);
    var s3 := Step(fs, s2, Reverse(i));
    ReverseStep(fs, s2, i, a, s3);
    var s4 := Step(fs, s3, Reverse(j));
    ReverseStep(fs, s3, j, a, s4);
    SharedBitStays(fs[i].model, fs[j].model, MaskAt(fs[i], a), MaskAt(fs[j], a));
    ss, vs := [s0, s1, s2, s3, s4], [mem, mem, mem, mem, mem];
    assert s4.live == map[];
    forall k | 0 <= k < 4 ensures IsStep(fs, ss[k], vs[k], Overlapping(i, j)[k], ss[k + 1], vs[k + 1]) {}
  }

  lemma SharedIsWithin(f: Fault, g: Fault, a: int)
    requires |f.mask| == |g.mask| == WINDOW && And(MaskAt(f, a), MaskAt(g, a)) != 0
    ensures Within(f, a) && Within(g, a)
  {
  }

  /** Set0, Set1 and Toggle faults leave nothing behind, in any run over any memory of that size
      with any program writes, if and only if no two of them mask a common bit. */
  lemma NoTraceExactlyIfDisjoint(fs: seq<Fault>, size: nat)
    requires AllFit(fs, size) && Masks(fs)
    ensures (forall mem, es, ss, vs :: |mem| == size && IsRun(fs, mem, es, ss, vs) ==> NoTrace(es, ss, vs)) <==> Disjoint(fs)
  {
    hide IsRun, And, MaskAt;
    if Disjoint(fs) {
      forall mem, es, ss: seq<State>, vs | |mem| == size && IsRun(fs, mem, es, ss, vs) ensures NoTrace(es, ss, vs) {
        DisjointIsFair(fs, mem, es, ss, vs);
        RunSizes(fs, mem, es, ss, vs);
        forall k | 0 <= k < |ss| && ss[k].live == map[] ensures ss[k].mem == vs[k] { NothingRemains(fs, mem, es, ss, vs, k); }
      }
    } else {
      var i, j, a: int :| 0 <= i < |fs| && 0 <= j < |fs| && i != j && And(MaskAt(fs[i], a), MaskAt(fs[j], a)) != 0;
      SharedIsWithin(fs[i], fs[j], a);
      var mem, ss, vs := OverlapStays(fs, size, i, j, a);
      RunSizes(fs, mem, Overlapping(i, j), ss, vs);
      assert !NoTrace(Overlapping(i, j), ss, vs);
    }
  }

  lemma RunSizes(fs: seq<Fault>, mem: seq<bv8>, es: seq<Event>, ss: seq<State>, vs: seq<seq<bv8>>)
    requires IsRun(fs, mem, es, ss, vs)
    ensures |ss| == |vs| == |es| + 1
  {
  }

  // ---- Overwriting ----

  /** Reversal gives the overwritten bytes back and leaves the others alone. */
  ghost predicate Exact(f: Fault, mem: seq<bv8>, later: seq<bv8>)
    requires Fits(f, |mem|) && |later| == |mem|
  {
    forall a :: 0 <= a < |mem| ==>
      Reversed(f, Saved(f, mem), later)[a] == if f.address <= a < f.address + Width(f) then mem[a] else later[a]
  }

  /** No overwritten byte was changed since. */
  ghost predicate Untouched(f: Fault, mem: seq<bv8>, later: seq<bv8>)
    requires Fits(f, |mem|) && |later| == |mem|
  {
    forall a :: 0 <= a < |mem| && f.address <= a < f.address + Width(f) ==> later[a] == Injected(f, mem)[a]
  }

  lemma RestoreOverwritten(m: bv8, saved: bv8)
    ensures Restore(m, m, saved) == saved
  {
  }

  lemma RestoreBeyond(m: bv8, mask: bv8)
    ensures Restore(m, mask, 0) == And(m, Not(mask))
  {
  }

  lemma UnmaskedByte(m: bv8)
    ensures And(m, Not(0)) == m
  {
  }

  lemma FullByte(mask: bv8)
    requires And(0xff, Not(mask)) == 0xff
    ensures mask == 0
  {
  }

  lemma ExactWhenZeroBeyond(f: Fault, mem: seq<bv8>, later: seq<bv8>)
    requires Fits(f, |mem|) && |later| == |mem| && f.model == Overwrite && Untouched(f, mem, later)
    requires forall i :: Width(f) <= i < WINDOW ==> f.mask[i] == 0
    ensures Exact(f, mem, later)
  {
    hide Restore, And, Not;
    forall a | 0 <= a < |mem|
      ensures Reversed(f, Saved(f, mem), later)[a] == if f.address <= a < f.address + Width(f) then mem[a] else later[a]
    {
      if Within(f, a) {
        var k := a - f.address;
        assert Saved(f, mem)[k] == SavedByte(f, k, mem[f.address + k]);
        if k < Width(f) {
          RestoreOverwritten(later[a], mem[a]);
        } else {
          RestoreBeyond(later[a], f.mask[k]);
          UnmaskedByte(later[a]);
        }
      }
    }
  }

  lemma ZeroBeyondWhenExact(f: Fault, mem: seq<bv8>, i: nat)
    requires Fits(f, |mem|) && f.model == Overwrite && Width(f) <= i < WINDOW && mem[f.address + i] == 0xff
    requires Exact(f, mem, Injected(f, mem))
    ensures f.mask[i] == 0
  {
    hide Restore, And, Not;
    var a := f.address + i;
    assert Saved(f, mem)[i] == 0;
    assert Reversed(f, Saved(f, mem), Injected(f, mem))[a] == Injected(f, mem)[a] == 0xff;
    RestoreBeyond(0xff, f.mask[i]);
    FullByte(f.mask[i]);
  }

  /** An overwrite fault whose bytes are not touched is always reversed exactly if and only if
      its mask is zero beyond the overwritten bytes. */
  lemma OverwriteReversible(f: Fault, size: nat)
    requires Fits(f, size) && f.model == Overwrite
    ensures (forall mem: seq<bv8>, later: seq<bv8> :: |mem| == size && |later| == size && Untouched(f, mem, later) ==> Exact(f, mem, later))
            <==> (forall i :: Width(f) <= i < WINDOW ==> f.mask[i] == 0)
  {
    hide Exact, Untouched;
    if forall i :: Width(f) <= i < WINDOW ==> f.mask[i] == 0 {
      forall mem: seq<bv8>, later: seq<bv8> | |mem| == size && |later| == size && Untouched(f, mem, later) ensures Exact(f, mem, later) {
        ExactWhenZeroBeyond(f, mem, later);
      }
    } else {
      var i :| Width(f) <= i < WINDOW && f.mask[i] != 0;
      var mem: seq<bv8> := seq(size, _ => 0xff);
      JustInjected(f, mem);
      if Exact(f, mem, Injected(f, mem)) { ZeroBeyondWhenExact(f, mem, i); }
    }
  }

  lemma JustInjected(f: Fault, mem: seq<bv8>)
    requires Fits(f, |mem|)
    ensures Untouched(f, mem, Injected(f, mem))
  {
  }

  /** A changed byte is restored exactly if it has no bit outside both the mask and the old value. */
  lemma TouchedByte(later: bv8, mask: bv8, before: bv8)
    ensures Restore(later, mask, before) == before <==> And(And(later, Not(mask)), Not(before)) == 0
  {
  }
}
