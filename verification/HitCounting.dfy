/** How both offline tools turn per-TB execution counts into the number of times one
    instruction ran: a TB's own count, plus that of every TB it is the tail of, plus
    that of every TB that is a tail of it and reaches down to the instruction. */
module HitCounting {
  import opened Trace

  /** Sum of the execution counts of the rows that satisfy p. */
  ghost function SumIf(rows: seq<Tb>, counts: multiset<int>, p: Tb -> bool): nat {
    if rows == [] then 0
    else SumIf(rows[..|rows| - 1], counts, p)
         + if p(rows[|rows| - 1]) then counts[rows[|rows| - 1].id] else 0
  }

  /** `tb` starts strictly inside `row`. */
  predicate StartsInside(tb: Tb, row: Tb) {
    tb.id > row.id && tb.id <= row.id + row.size - 1
  }

  /** `row` starts strictly inside `tb` and holds its last byte. */
  predicate IsTailOf(row: Tb, tb: Tb) {
    var last := tb.id + tb.size - 1;
    tb.id < row.id && last > row.id && last <= row.id + row.size - 1
  }

  function Supers(t: Tb): Tb -> bool {
    (r: Tb) => StartsInside(t, r)
  }

  function TailsReaching(t: Tb, ins: int): Tb -> bool {
    (r: Tb) => IsTailOf(r, t) && ins >= r.id
  }

  lemma {:induction false} SumIfPrefix(rows: seq<Tb>, counts: multiset<int>, p: Tb -> bool, i: nat)
    requires i < |rows|
    ensures SumIf(rows[..i + 1], counts, p)
         == SumIf(rows[..i], counts, p) + if p(rows[i]) then counts[rows[i].id] else 0
  {
    assert rows[..i + 1][..i] == rows[..i];
  }

  lemma {:induction false} SumIfPartition(rows: seq<Tb>, counts: multiset<int>, p: Tb -> bool, q: Tb -> bool, r: Tb -> bool)
    requires forall tb :: tb in rows ==> (p(tb) <==> q(tb) || r(tb)) && !(q(tb) && r(tb))
    ensures SumIf(rows, counts, p) == SumIf(rows, counts, q) + SumIf(rows, counts, r)
  {
    if rows != [] {
      SumIfPartition(rows[..|rows| - 1], counts, p, q, r);
    }
  }

  lemma UniquePrefix(rows: seq<Tb>, n: nat)
    requires UniqueIds(rows) && n < |rows|
    ensures UniqueIds(rows[..n])
    ensures forall tb :: tb in rows[..n] ==> tb.id != rows[n].id
  {
    forall i, id | HasId(rows[..n], i, id) ensures HasId(rows, i, id) {}
    forall tb | tb in rows[..n] ensures tb.id != rows[n].id {
      var i :| 0 <= i < n && rows[i] == tb;
      assert HasId(rows, i, tb.id);
      assert tb.id == rows[n].id ==> HasId(rows, n, tb.id);
    }
  }

  lemma {:induction false} SumIfNone(rows: seq<Tb>, counts: multiset<int>, id: int)
    requires forall tb :: tb in rows ==> tb.id != id
    ensures SumIf(rows, counts, (tb: Tb) => tb.id == id) == 0
  {
    if rows != [] { SumIfNone(rows[..|rows| - 1], counts, id); }
  }

  lemma {:induction false} SumIfOwn(rows: seq<Tb>, counts: multiset<int>, t: Tb)
    requires t in rows && UniqueIds(rows)
    ensures SumIf(rows, counts, (tb: Tb) => tb.id == t.id) == counts[t.id]
  {
    var n := |rows| - 1;
    UniquePrefix(rows, n);
    assert rows == rows[..n] + [rows[n]];
    if rows[n].id == t.id {
      SumIfNone(rows[..n], counts, t.id);
    } else {
      SumIfOwn(rows[..n], counts, t);
    }
  }

  /** One more execution of a TB raises the sum by one exactly when its row is summed. */
  lemma {:induction false} SumIfStep(rows: seq<Tb>, counts: multiset<int>, p: Tb -> bool, id: int)
    requires UniqueIds(rows)
    ensures SumIf(rows, counts + multiset{id}, p)
         == SumIf(rows, counts, p) + if exists tb :: tb in rows && tb.id == id && p(tb) then 1 else 0
  {
    if rows != [] {
      var n := |rows| - 1;
      UniquePrefix(rows, n);
      SumIfStep(rows[..n], counts, p, id);
      assert rows == rows[..n] + [rows[n]];
    }
  }

  lemma {:induction false} SumIsHits(info: seq<Tb>, exec: seq<int>, a: int)
    requires WellFormed(info, exec)
    ensures SumIf(info, multiset(exec), (tb: Tb) => Covers(tb, a)) == Hits(info, exec, a)
  {
    var p := (tb: Tb) => Covers(tb, a);
    if exec == [] {
      SumOfNothing(info, p);
    } else {
      var n := |exec| - 1;
      SumIsHits(info, exec[..n], a);
      assert exec == exec[..n] + [exec[n]];
      SumIfStep(info, multiset(exec[..n]), p, exec[n]);
      forall tb | tb in info && tb.id == exec[n] ensures tb == Row(info, exec[n]) {
        RowIsUnique(info, tb);
      }
    }
  }

  lemma {:induction false} SumOfNothing(rows: seq<Tb>, p: Tb -> bool)
    ensures SumIf(rows, multiset{}, p) == 0
  {
    if rows != [] { SumOfNothing(rows[..|rows| - 1], p); }
  }

  /** The three kinds of row are exactly the rows that hold the instruction. */
  lemma RowKinds(info: seq<Tb>, t: Tb, r: Tb, ins: int)
    requires WellFormedInfo(info) && t in info && r in info && ins in t.insns
    ensures Covers(r, ins) <==> r.id == t.id || StartsInside(t, r) || (IsTailOf(r, t) && ins >= r.id)
  {
    hide Ascending, IsSuffix, Nested, UniqueIds, Row;
    assert WellFormedTb(t) && WellFormedTb(r) && Nested(t, r) && Nested(r, t);
    var i: nat :| i < |t.insns| && t.insns[i] == ins;
    InsnsAscend(t, i, i);
    InsnsAscend(r, 0, 0);
    if r.id == t.id {
      RowIsUnique(info, t);
      RowIsUnique(info, r);
    }
    if Covers(t, r.id) { SameEnd(t, r); }
    if Covers(r, t.id) { SameEnd(r, t); }
  }

  lemma SameEnd(outer: Tb, inner: Tb)
    requires Nested(outer, inner) && Covers(outer, inner.id)
    ensures inner.id + inner.size == outer.id + outer.size
  {
  }

  /** The corrected count is the number of executed TBs that hold the instruction. */
  lemma CorrectedCount(info: seq<Tb>, exec: seq<int>, t: Tb, ins: int)
    requires WellFormed(info, exec) && t in info && ins in t.insns
    ensures multiset(exec)[t.id] + SumIf(info, multiset(exec), Supers(t))
            + SumIf(info, multiset(exec), TailsReaching(t, ins))
         == Hits(info, exec, ins)
  {
    var own, sup, sub := (r: Tb) => r.id == t.id, Supers(t), TailsReaching(t, ins);
    var either := (r: Tb) => own(r) || sup(r);
    var all := (r: Tb) => Covers(r, ins);
    forall r | r in info ensures all(r) <==> either(r) || sub(r) {
      RowKinds(info, t, r, ins);
    }
    SumIfPartition(info, multiset(exec), all, either, sub);
    SumIfPartition(info, multiset(exec), either, own, sup);
    SumIfOwn(info, multiset(exec), t);
    SumIsHits(info, exec, ins);
  }
}
