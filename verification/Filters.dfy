/** `build_filters` of `faultclass.py`: for every TB its instruction addresses from the
    last to the first, the longest TB first. */
module Filters {
  import opened Trace

  function Reversed<T>(s: seq<T>): (r: seq<T>)
    ensures |r| == |s| && forall i :: 0 <= i < |s| ==> r[i] == s[|s| - 1 - i]
  {
    if s == [] then [] else Reversed(s[1..]) + [s[0]]
  }

  lemma ReversedTwice<T>(s: seq<T>)
    ensures Reversed(Reversed(s)) == s
  {
  }

  lemma {:induction false} ReversedMultiset<T>(s: seq<T>)
    ensures multiset(Reversed(s)) == multiset(s)
  {
    if s != [] {
      ReversedMultiset(s[1..]);
      assert s == [s[0]] + s[1..];
    }
  }

  /** Insert before the first longer list; equally long lists stay in front. */
  function InsertByLength(l: seq<int>, s: seq<seq<int>>): seq<seq<int>> {
    if s != [] && |s[|s| - 1]| > |l| then InsertByLength(l, s[..|s| - 1]) + [s[|s| - 1]] else s + [l]
  }

  /** Python's stable `sort(key=len)`. */
  function SortByLength(s: seq<seq<int>>): seq<seq<int>> {
    if s == [] then [] else InsertByLength(s[|s| - 1], SortByLength(s[..|s| - 1]))
  }

  ghost predicate LengthsRise(s: seq<seq<int>>) {
    forall i, j :: 0 <= i < j < |s| ==> |s[i]| <= |s[j]|
  }

  lemma {:induction false} InsertMultiset(l: seq<int>, s: seq<seq<int>>)
    ensures multiset(InsertByLength(l, s)) == multiset(s) + multiset{l}
  {
    if s != [] {
      assert s == s[..|s| - 1] + [s[|s| - 1]];
      InsertMultiset(l, s[..|s| - 1]);
    }
  }

  lemma AppendLongest(s: seq<seq<int>>, l: seq<int>)
    requires LengthsRise(s) && forall x :: x in s ==> |x| <= |l|
    ensures LengthsRise(s + [l])
  {
  }

  lemma {:induction false} InsertSorted(l: seq<int>, s: seq<seq<int>>)
    requires LengthsRise(s)
    ensures LengthsRise(InsertByLength(l, s))
  {
    if s != [] && |s[|s| - 1]| > |l| {
      var rest, last := s[..|s| - 1], s[|s| - 1];
      InsertSorted(l, rest);
      InsertMultiset(l, rest);
      forall x | x in InsertByLength(l, rest) ensures |x| <= |last| {
        assert x in multiset(InsertByLength(l, rest));
      }
      AppendLongest(InsertByLength(l, rest), last);
    } else {
      AppendLongest(s, l);
    }
  }

  lemma {:induction false} SortByLengthSorts(s: seq<seq<int>>)
    ensures LengthsRise(SortByLength(s)) && multiset(SortByLength(s)) == multiset(s)
  {
    if s != [] {
      var n := |s| - 1;
      SortByLengthSorts(s[..n]);
      InsertSorted(s[n], SortByLength(s[..n]));
      InsertMultiset(s[n], SortByLength(s[..n]));
      assert s == s[..n] + [s[n]];
    }
  }

  /** The lists of one length, in their order. */
  ghost function OfLength(s: seq<seq<int>>, n: nat): seq<seq<int>> {
    if s == [] then [] else OfLength(s[..|s| - 1], n) + if |s[|s| - 1]| == n then [s[|s| - 1]] else []
  }

  lemma OfLengthAppend(s: seq<seq<int>>, l: seq<int>, n: nat)
    ensures OfLength(s + [l], n) == OfLength(s, n) + if |l| == n then [l] else []
  {
    assert (s + [l])[..|s|] == s;
  }

  lemma {:induction false} InsertStable(l: seq<int>, s: seq<seq<int>>, n: nat)
    ensures OfLength(InsertByLength(l, s), n) == OfLength(s, n) + if |l| == n then [l] else []
  {
    if s != [] && |s[|s| - 1]| > |l| {
      var rest, last := s[..|s| - 1], s[|s| - 1];
      InsertStable(l, rest, n);
      OfLengthAppend(InsertByLength(l, rest), last, n);
    } else {
      OfLengthAppend(s, l, n);
    }
  }

  /** Lists of the same length keep their order. */
  lemma {:induction false} SortByLengthIsStable(s: seq<seq<int>>, n: nat)
    ensures OfLength(SortByLength(s), n) == OfLength(s, n)
  {
    if s != [] {
      SortByLengthIsStable(s[..|s| - 1], n);
      InsertStable(s[|s| - 1], SortByLength(s[..|s| - 1]), n);
    }
  }

  lemma {:induction false} OfLengthReversed(s: seq<seq<int>>, n: nat)
    ensures OfLength(Reversed(s), n) == Reversed(OfLength(s, n))
  {
    if s != [] {
      OfLengthReversed(s[1..], n);
      OfLengthAppend(Reversed(s[1..]), s[0], n);
      OfLengthPrepend(s[0], s[1..], n);
      assert s == [s[0]] + s[1..];
    }
  }

  lemma {:induction false} OfLengthPrepend(l: seq<int>, s: seq<seq<int>>, n: nat)
    ensures OfLength([l] + s, n) == (if |l| == n then [l] else []) + OfLength(s, n)
  {
    if s == [] {
      assert [l] + s == [l] && [l][..0] == [];
    } else {
      OfLengthPrepend(l, s[..|s| - 1], n);
      assert ([l] + s)[..|s|] == [l] + s[..|s| - 1];
    }
  }

  ghost function DescendingLists(info: seq<Tb>): seq<seq<int>> {
    seq(|info|, i requires 0 <= i < |info| => Reversed(info[i].insns))
  }

  ghost predicate LongestFirst(s: seq<seq<int>>) {
    forall i, j :: 0 <= i < j < |s| ==> |s[i]| >= |s[j]|
  }

  ghost function GoldenFilters(info: seq<Tb>): seq<seq<int>> {
    Reversed(SortByLength(DescendingLists(info)))
  }

  method BuildFilters(info: seq<Tb>) returns (filters: seq<seq<int>>)
    ensures filters == GoldenFilters(info)
  {
    filters := [];
    for i := 0 to |info|
      invariant filters == DescendingLists(info)[..i]
    {
      filters := filters + [Reversed(info[i].insns)];
    }
    assert DescendingLists(info)[..|info|] == DescendingLists(info);
    filters := Reversed(SortByLength(filters));
  }

  lemma SameMembers<T>(s: seq<T>, t: seq<T>)
    requires multiset(s) == multiset(t)
    ensures forall x :: x in s <==> x in t
  {
    forall x ensures x in s <==> x in t {
      assert x in s <==> x in multiset(s);
      assert x in t <==> x in multiset(t);
    }
  }

  lemma ReversedIsLongestFirst(s: seq<seq<int>>)
    requires LengthsRise(s)
    ensures LongestFirst(Reversed(s))
  {
  }

  lemma ListMembers(info: seq<Tb>)
    ensures forall f :: f in DescendingLists(info) <==> exists i :: 0 <= i < |info| && f == Reversed(info[i].insns)
  {
    var lists := DescendingLists(info);
    forall i | 0 <= i < |info| ensures Reversed(info[i].insns) in lists {
      assert lists[i] == Reversed(info[i].insns);
    }
  }

  /** The filters are the TBs' lists, one for each TB, the longest first; of equally long ones
      that of the later TB. */
  lemma FiltersAreTbs(info: seq<Tb>, filters: seq<seq<int>>)
    requires filters == GoldenFilters(info)
    ensures multiset(filters) == multiset(DescendingLists(info)) && LongestFirst(filters)
    ensures forall f :: f in filters <==> exists i :: 0 <= i < |info| && f == Reversed(info[i].insns)
    ensures forall n: nat {:trigger OfLength(filters, n)} :: OfLength(filters, n) == Reversed(OfLength(DescendingLists(info), n))
  {
    forall n: nat ensures OfLength(filters, n) == Reversed(OfLength(DescendingLists(info), n)) {
      OfLengthReversed(SortByLength(DescendingLists(info)), n);
      SortByLengthIsStable(DescendingLists(info), n);
    }
    var sorted := SortByLength(DescendingLists(info));
    assert LongestFirst(filters) && multiset(filters) == multiset(DescendingLists(info)) by {
      SortByLengthSorts(DescendingLists(info));
      ReversedIsLongestFirst(sorted);
      ReversedMultiset(sorted);
    }
    SameMembers(filters, DescendingLists(info));
    ListMembers(info);
  }
}
