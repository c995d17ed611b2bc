/** The golden trace: a table of translation blocks (TBs), the sequence of TB ids
    that were executed, and the flat instruction trace which both stand for. */
module Trace {

  /** One row of the TB table. `insns` holds the decoded instruction addresses. */
  datatype Tb = Tb(id: int, size: int, insns: seq<int>, insCount: int)

  predicate Covers(tb: Tb, a: int) {
    tb.id <= a < tb.id + tb.size
  }

  /** Every address is at least 2 bytes above the one before. */
  ghost predicate Ascending(insns: seq<int>) {
    |insns| >= 2 ==>
      Ascending(insns[..|insns| - 1]) && insns[|insns| - 2] + 2 <= insns[|insns| - 1]
  }

  ghost predicate WellFormedTb(tb: Tb) {
    && |tb.insns| > 0
    && tb.insns[0] == tb.id
    && tb.insCount == |tb.insns|
    && Ascending(tb.insns)
    && tb.insns[|tb.insns| - 1] + 2 <= tb.id + tb.size
  }

  ghost predicate IsSuffix<T>(s: seq<T>, t: seq<T>) {
    |s| <= |t| && t[|t| - |s|..] == s
  }

  /** A TB that starts inside another one is its tail: same end, same instructions. */
  ghost predicate Nested(outer: Tb, inner: Tb) {
    Covers(outer, inner.id) ==>
      inner.id + inner.size == outer.id + outer.size && IsSuffix(inner.insns, outer.insns)
  }

  ghost predicate HasId(info: seq<Tb>, i: int, id: int) {
    0 <= i < |info| && info[i].id == id
  }

  ghost predicate UniqueIds(info: seq<Tb>) {
    forall i, j, id {:trigger HasId(info, i, id), HasId(info, j, id)} ::
      HasId(info, i, id) && HasId(info, j, id) ==> i == j
  }

  ghost predicate WellFormedInfo(info: seq<Tb>) {
    && (forall tb {:trigger WellFormedTb(tb)} :: tb in info ==> WellFormedTb(tb))
    && UniqueIds(info)
    && (forall s, t {:trigger Nested(s, t)} :: s in info && t in info ==> Nested(s, t))
  }

  ghost predicate Known(info: seq<Tb>, id: int) {
    exists i :: HasId(info, i, id)
  }

  ghost predicate WellFormed(info: seq<Tb>, exec: seq<int>) {
    && WellFormedInfo(info)
    && (forall k {:trigger Known(info, exec[k])} :: 0 <= k < |exec| ==> Known(info, exec[k]))
  }

  /** The row of a TB id; an unknown id has none and yields an empty one. */
  ghost function Row(info: seq<Tb>, id: int): (tb: Tb)
    ensures Known(info, id) ==> tb in info && tb.id == id
  {
    if Known(info, id) then var i :| HasId(info, i, id); info[i] else Tb(id, 0, [], 0)
  }

  /** The flat instruction trace of a TB sequence. */
  ghost function Flat(info: seq<Tb>, exec: seq<int>): seq<int> {
    if exec == [] then []
    else Flat(info, exec[..|exec| - 1]) + Row(info, exec[|exec| - 1]).insns
  }

  /** Flat position of the first instruction of the k-th executed TB. */
  ghost function Start(info: seq<Tb>, exec: seq<int>, k: nat): nat
    requires k <= |exec|
  {
    |Flat(info, exec[..k])|
  }

  /** How often address a was executed among the first p instructions. */
  ghost function Count(f: seq<int>, a: int, p: nat): nat
    requires p <= |f|
  {
    if p == 0 then 0 else Count(f, a, p - 1) + if f[p - 1] == a then 1 else 0
  }

  /** Position p of `flat` is the k-th execution of address a. */
  ghost predicate IsOccurrence(flat: seq<int>, a: int, k: int, p: int) {
    0 <= p < |flat| && flat[p] == a && Count(flat, a, p + 1) == k
  }

  /** How many of the executed TBs cover address a. */
  ghost function Hits(info: seq<Tb>, exec: seq<int>, a: int): nat {
    if exec == [] then 0
    else Hits(info, exec[..|exec| - 1], a) + if Covers(Row(info, exec[|exec| - 1]), a) then 1 else 0
  }

  // ---- Facts about the flat trace ----

  lemma RowIsUnique(info: seq<Tb>, tb: Tb)
    requires UniqueIds(info) && tb in info
    ensures Row(info, tb.id) == tb && Known(info, tb.id)
  {
    var i :| 0 <= i < |info| && info[i] == tb;
    assert HasId(info, i, tb.id);
  }

  /** `find_tb_info_row`: the first row with the given id. */
  method FindRow(info: seq<Tb>, id: int) returns (tb: Tb)
    requires WellFormedInfo(info) && Known(info, id)
    ensures tb == Row(info, id) && tb in info && tb.id == id && WellFormedTb(tb)
  {
    ghost var row :| HasId(info, row, id);
    var i := 0;
    while info[i].id != id
      invariant 0 <= i <= row
      decreases row - i
    {
      i := i + 1;
    }
    RowIsUnique(info, info[i]);
    tb := info[i];
    assert WellFormedTb(tb);
  }

  lemma {:induction false} FlatPrefix(info: seq<Tb>, exec: seq<int>, k: nat)
    requires k <= |exec|
    ensures Flat(info, exec[..k]) <= Flat(info, exec)
    decreases |exec|
  {
    if k == |exec| {
      assert exec[..k] == exec;
    } else {
      FlatPrefix(info, exec[..|exec| - 1], k);
      assert exec[..|exec| - 1][..k] == exec[..k];
    }
  }

  lemma SliceOfPrefix<T>(pre: seq<T>, mid: seq<T>, s: seq<T>)
    requires pre <= s && pre + mid <= s
    ensures s[..|pre|] == pre && s[|pre|..|pre| + |mid|] == mid
  {
    assert (pre + mid)[|pre|..] == mid;
    assert s[..|pre| + |mid|] == pre + mid;
    assert s[|pre|..|pre| + |mid|] == s[..|pre| + |mid|][|pre|..];
  }

  lemma FlatStep(info: seq<Tb>, exec: seq<int>, k: nat)
    requires k < |exec|
    ensures Flat(info, exec[..k + 1]) == Flat(info, exec[..k]) + Row(info, exec[k]).insns
  {
    assert exec[..k + 1][..k] == exec[..k];
  }

  /** Offset `off` in the k-th executed TB is flat position Start(k) + off. */
  lemma FlatAt(info: seq<Tb>, exec: seq<int>, k: nat)
    requires k < |exec|
    ensures Start(info, exec, k + 1) == Start(info, exec, k) + |Row(info, exec[k]).insns| <= |Flat(info, exec)|
    ensures Flat(info, exec)[..Start(info, exec, k)] == Flat(info, exec[..k])
    ensures Flat(info, exec)[Start(info, exec, k)..Start(info, exec, k) + |Row(info, exec[k]).insns|] == Row(info, exec[k]).insns
  {
    FlatPrefix(info, exec, k);
    FlatPrefix(info, exec, k + 1);
    FlatStep(info, exec, k);
    SliceOfPrefix(Flat(info, exec[..k]), Row(info, exec[k]).insns, Flat(info, exec));
  }

  lemma {:induction false} CountMonotone(f: seq<int>, a: int, p: nat, q: nat)
    requires p <= q <= |f|
    ensures Count(f, a, p) <= Count(f, a, q)
  {
    if p < q { CountMonotone(f, a, p, q - 1); }
  }

  lemma {:induction false} CountOfPrefix(pre: seq<int>, f: seq<int>, a: int, p: nat)
    requires pre <= f && p <= |pre|
    ensures Count(f, a, p) == Count(pre, a, p)
  {
    if p > 0 { CountOfPrefix(pre, f, a, p - 1); }
  }

  lemma {:induction false} CountAppend(pre: seq<int>, s: seq<int>, a: int, p: nat)
    requires p <= |s|
    ensures Count(pre + s, a, |pre| + p) == Count(pre, a, |pre|) + Count(s, a, p)
  {
    if p == 0 { CountOfPrefix(pre, pre + s, a, |pre|); } else { CountAppend(pre, s, a, p - 1); }
  }

  lemma {:induction false} CountAbsent(s: seq<int>, a: int, p: nat)
    requires p <= |s| && forall i :: 0 <= i < p ==> s[i] != a
    ensures Count(s, a, p) == 0
  {
    if p > 0 { CountAbsent(s, a, p - 1); }
  }

  /** Select is a function: an execution of an address has one position only. */
  lemma OccurrenceIsUnique(flat: seq<int>, a: int, k: int, p: int, q: int)
    requires IsOccurrence(flat, a, k, p) && IsOccurrence(flat, a, k, q)
    ensures p == q
  {
    if p < q {
      CountMonotone(flat, a, p + 1, q);
    } else if q < p {
      CountMonotone(flat, a, q + 1, p);
    }
  }

  // ---- TBs and the instructions they cover ----

  /** `ins` is the instruction of some TB that holds byte address a. */
  ghost predicate Holds(tb: Tb, ins: int, a: int) {
    exists i :: 0 <= i < |tb.insns| && HoldsAt(tb, i, ins, a)
  }

  ghost predicate HoldsAt(tb: Tb, i: int, ins: int, a: int)
    requires 0 <= i < |tb.insns|
  {
    tb.insns[i] == ins <= a < if i + 1 < |tb.insns| then tb.insns[i + 1] else tb.id + tb.size
  }

  lemma {:induction false} Ascends(s: seq<int>, j: nat)
    requires Ascending(s) && j < |s|
    ensures forall i :: 0 <= i < j ==> s[i] + 2 <= s[j]
  {
    if j == |s| - 1 {
      if j > 0 {
        Ascends(s[..j], j - 1);
        assert forall i :: 0 <= i < j ==> s[..j][i] == s[i];
      }
    } else {
      Ascends(s[..|s| - 1], j);
      assert forall i :: 0 <= i <= j ==> s[..|s| - 1][i] == s[i];
    }
  }

  lemma InsnsAscend(tb: Tb, i: nat, j: nat)
    requires WellFormedTb(tb) && i <= j < |tb.insns|
    ensures tb.id <= tb.insns[i] <= tb.insns[j] <= tb.insns[|tb.insns| - 1] < tb.id + tb.size
    ensures i < j ==> tb.insns[i] + 2 <= tb.insns[j]
    ensures tb.insns[j] !in tb.insns[..j]
  {
    Ascends(tb.insns, i);
    Ascends(tb.insns, j);
    Ascends(tb.insns, |tb.insns| - 1);
  }

  /** Seen from the outer TB: what it decodes at a byte, its tail decodes there too. */
  lemma TailDecodesSame(outer: Tb, inner: Tb, i: nat, ins: int, a: int)
    requires WellFormedTb(outer) && WellFormedTb(inner) && Covers(outer, inner.id) && Nested(outer, inner)
    requires i < |outer.insns| && HoldsAt(outer, i, ins, a)
    requires Covers(inner, a) || Covers(inner, ins)
    ensures var d := |outer.insns| - |inner.insns|;
            i >= d && HoldsAt(inner, i - d, ins, a) && Covers(inner, a) && Covers(inner, ins)
  {
    hide Ascending;
    var d := |outer.insns| - |inner.insns|;
    assert forall j :: 0 <= j < |inner.insns| ==> outer.insns[d + j] == inner.insns[j] by {
      assert forall j :: 0 <= j < |inner.insns| ==> outer.insns[d..][j] == outer.insns[d + j];
    }
    assert outer.insns[d] == inner.id;
    InsnsAscend(outer, if i < d then i + 1 else d, d);
    InsnsAscend(inner, i - d, i - d);
    if i + 1 < |outer.insns| { InsnsAscend(inner, i + 1 - d, i + 1 - d); }
  }

  /** Seen from the tail: the outer TB decodes the same instruction. */
  lemma OuterDecodesSame(outer: Tb, inner: Tb, i: nat, ins: int, a: int)
    requires WellFormedTb(outer) && WellFormedTb(inner) && Covers(outer, inner.id) && Nested(outer, inner)
    requires i < |inner.insns| && HoldsAt(inner, i, ins, a)
    ensures HoldsAt(outer, |outer.insns| - |inner.insns| + i, ins, a) && Covers(outer, a) && Covers(outer, ins)
  {
    hide Ascending;
    var d := |outer.insns| - |inner.insns|;
    assert outer.insns[d..][i] == inner.insns[i];
    assert i + 1 < |inner.insns| ==> outer.insns[d..][i + 1] == inner.insns[i + 1];
    InsnsAscend(outer, d + i, d + i);
    if d + i + 1 < |outer.insns| { InsnsAscend(outer, d + i + 1, d + i + 1); }
  }

  /** Two TBs that cover one byte decode the same instruction there. */
  lemma CoversSameInstruction(info: seq<Tb>, t: Tb, b: Tb, ins: int, a: int)
    requires WellFormedInfo(info) && t in info && b in info
    requires Holds(t, ins, a)
    ensures Covers(b, a) <==> Covers(b, ins)
    ensures Covers(b, a) ==> Holds(b, ins, a)
  {
    var i: nat :| i < |t.insns| && HoldsAt(t, i, ins, a);
    assert WellFormedTb(t) && WellFormedTb(b) && Nested(t, b) && Nested(b, t);
    InsnsAscend(t, i, i);
    if i + 1 < |t.insns| { InsnsAscend(t, i + 1, i + 1); }
    if Covers(b, a) || Covers(b, ins) {
      if t.id <= b.id {
        TailDecodesSame(t, b, i, ins, a);
      } else {
        OuterDecodesSame(b, t, i, ins, a);
      }
    }
  }

  lemma InsnHoldsItself(tb: Tb, i: nat)
    requires WellFormedTb(tb) && i < |tb.insns|
    ensures HoldsAt(tb, i, tb.insns[i], tb.insns[i]) && Covers(tb, tb.insns[i])
  {
    InsnsAscend(tb, i, i);
    if i + 1 < |tb.insns| { InsnsAscend(tb, i, i + 1); }
  }

  /** Addresses ascend, so each instruction of a TB occurs in it once. */
  lemma {:induction false} CountInTb(tb: Tb, i: nat, p: nat)
    requires WellFormedTb(tb) && i < |tb.insns| && p <= |tb.insns|
    ensures Count(tb.insns, tb.insns[i], p) == if i < p then 1 else 0
  {
    if p > 0 {
      CountInTb(tb, i, p - 1);
      InsnsAscend(tb, if i < p - 1 then i else p - 1, if i < p - 1 then p - 1 else i);
    }
  }

  /** An address that is an instruction somewhere occurs once in each TB that covers it. */
  lemma OnceInTb(info: seq<Tb>, t: Tb, b: Tb, ins: int)
    requires WellFormedInfo(info) && t in info && b in info && ins in t.insns
    ensures Count(b.insns, ins, |b.insns|) == if Covers(b, ins) then 1 else 0
  {
    assert WellFormedTb(t) && WellFormedTb(b);
    var i :| 0 <= i < |t.insns| && t.insns[i] == ins;
    InsnHoldsItself(t, i);
    CoversSameInstruction(info, t, b, ins, ins);
    if ins in b.insns || Covers(b, ins) {
      var j :| 0 <= j < |b.insns| && b.insns[j] == ins;
      InsnHoldsItself(b, j);
      CountInTb(b, j, |b.insns|);
    } else {
      CountAbsent(b.insns, ins, |b.insns|);
    }
  }

  /** Counting covering TBs is counting executions on the flat trace. */
  lemma {:induction false} HitsAreOccurrences(info: seq<Tb>, exec: seq<int>, t: Tb, ins: int)
    requires WellFormed(info, exec) && t in info && ins in t.insns
    ensures Count(Flat(info, exec), ins, |Flat(info, exec)|) == Hits(info, exec, ins)
  {
    if exec != [] {
      var n := |exec| - 1;
      assert Known(info, exec[n]) && forall k :: 0 <= k < n ==> exec[..n][k] == exec[k];
      HitsAreOccurrences(info, exec[..n], t, ins);
      OnceInTb(info, t, Row(info, exec[n]), ins);
      CountAppend(Flat(info, exec[..n]), Row(info, exec[n]).insns, ins, |Row(info, exec[n]).insns|);
    }
  }

  lemma {:induction false} HitsOfSameInstruction(info: seq<Tb>, exec: seq<int>, t: Tb, ins: int, a: int)
    requires WellFormed(info, exec) && t in info && Holds(t, ins, a)
    ensures Hits(info, exec, a) == Hits(info, exec, ins)
  {
    if exec != [] {
      var n := |exec| - 1;
      HitsOfSameInstruction(info, exec[..n], t, ins, a);
      CoversSameInstruction(info, t, Row(info, exec[n]), ins, a);
    }
  }

  /** p is the flat position of instruction `ins` of the k-th executed TB. */
  ghost predicate AtOffset(info: seq<Tb>, exec: seq<int>, k: int, ins: int, p: int) {
    0 <= k < |exec| &&
    var off := p - Start(info, exec, k);
    0 <= off < |Row(info, exec[k]).insns| && Row(info, exec[k]).insns[off] == ins
  }

  /** The rank of an instruction inside the k-th executed TB, on the flat trace. */
  lemma RankInTb(info: seq<Tb>, exec: seq<int>, k: nat, ins: int, p: int)
    requires WellFormed(info, exec) && AtOffset(info, exec, k, ins, p)
    ensures Hits(info, exec[..k + 1], ins) == Hits(info, exec[..k], ins) + 1
    ensures IsOccurrence(Flat(info, exec), ins, Hits(info, exec[..k + 1], ins), p)
  {
    var off, tb := p - Start(info, exec, k), Row(info, exec[k]);
    assert Known(info, exec[k]) && WellFormedTb(tb);
    PrefixWellFormed(info, exec, k);
    HitsStep(info, exec, k, off);
    HitsAreOccurrences(info, exec[..k], tb, ins);
    FlatPrefix(info, exec, k + 1);
    FlatStep(info, exec, k);
    CountOfPrefix(Flat(info, exec[..k + 1]), Flat(info, exec), ins, p + 1);
    CountAppend(Flat(info, exec[..k]), tb.insns, ins, off + 1);
    CountInTb(tb, off, off + 1);
  }

  lemma PrefixWellFormed(info: seq<Tb>, exec: seq<int>, k: nat)
    requires WellFormed(info, exec) && k <= |exec|
    ensures WellFormed(info, exec[..k])
  {
    forall j | 0 <= j < k ensures Known(info, exec[..k][j]) {
      assert Known(info, exec[j]);
    }
  }

  lemma HitsStep(info: seq<Tb>, exec: seq<int>, k: nat, off: nat)
    requires WellFormed(info, exec) && k < |exec| && off < |Row(info, exec[k]).insns|
    ensures var ins := Row(info, exec[k]).insns[off];
            Hits(info, exec[..k + 1], ins) == 1 + Hits(info, exec[..k], ins)
  {
    InsnsAscend(Row(info, exec[k]), off, off);
    assert exec[..k + 1][..k] == exec[..k];
  }
}
