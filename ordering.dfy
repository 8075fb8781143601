/**
 * Sibling order: `osFileInfoSlice` sorts file information by name alone,
 * with byte-wise (here: code-point-wise) lexicographic comparison and no
 * grouping of directories before files.
 */
module Ordering {
  import opened FileSystem

  /**
   * `sort.StringsAreSorted([]string{a, b})`: `a` does not come after `b`
   * in lexicographic order.
   */
  predicate NameLeq(a: string, b: string)
    decreases |a|
  {
    if a == [] then true
    else if b == [] then false
    else if a[0] != b[0] then a[0] < b[0]
    else NameLeq(a[1..], b[1..])
  }

  /** The textbook definition of lexicographic order, independent of `NameLeq`. */
  ghost predicate LexicographicallyBefore(a: string, b: string) {
    || (|a| <= |b| && a == b[..|a|])
    || exists k | 0 <= k < |a| && k < |b| :: a[..k] == b[..k] && a[k] < b[k]
  }

  lemma {:induction false} NameLeqIsLexicographic(a: string, b: string)
    ensures NameLeq(a, b) <==> LexicographicallyBefore(a, b)
    decreases |a|
  {
    if a == [] {
      assert a == b[..0];
    } else if b != [] {
      forall k | 0 < k <= |a| && k <= |b| && a[..k] == b[..k]
        ensures a[0] == b[0]
      {
        assert a[0] == a[..k][0];
      }
      assert a[..0] == b[..0];
      if a[0] == b[0] {
        NameLeqIsLexicographic(a[1..], b[1..]);
        if LexicographicallyBefore(a[1..], b[1..]) {
          if |a[1..]| <= |b[1..]| && a[1..] == b[1..][..|a[1..]|] {
            assert a == b[..|a|];
          } else {
            var k :| 0 <= k < |a[1..]| && k < |b[1..]| && a[1..][..k] == b[1..][..k] && a[1..][k] < b[1..][k];
            assert a[..k + 1] == [a[0]] + a[1..][..k];
            assert b[..k + 1] == [b[0]] + b[1..][..k];
          }
        }
        if LexicographicallyBefore(a, b) {
          if |a| <= |b| && a == b[..|a|] {
            assert a[1..] == b[1..][..|a[1..]|];
          } else {
            var k :| 0 <= k < |a| && k < |b| && a[..k] == b[..k] && a[k] < b[k];
            assert a[1..][..k - 1] == a[..k][1..];
            assert b[1..][..k - 1] == b[..k][1..];
          }
        }
      }
    }
  }

  lemma {:induction false} NameLeqReflexive(a: string)
    ensures NameLeq(a, a)
    decreases |a|
  {
    if a != [] {
      NameLeqReflexive(a[1..]);
    }
  }

  lemma {:induction false} NameLeqTotal(a: string, b: string)
    ensures NameLeq(a, b) || NameLeq(b, a)
    decreases |a|
  {
    if a != [] && b != [] && a[0] == b[0] {
      NameLeqTotal(a[1..], b[1..]);
    }
  }

  lemma {:induction false} NameLeqAntisymmetric(a: string, b: string)
    requires NameLeq(a, b) && NameLeq(b, a)
    ensures a == b
    decreases |a|
  {
    if a != [] {
      NameLeqAntisymmetric(a[1..], b[1..]);
      assert a == [a[0]] + a[1..];
      assert b == [b[0]] + b[1..];
    }
  }

  lemma {:induction false} NameLeqTransitive(a: string, b: string, c: string)
    requires NameLeq(a, b) && NameLeq(b, c)
    ensures NameLeq(a, c)
    decreases |a|
  {
    if a != [] && b != [] && c != [] && a[0] == b[0] == c[0] {
      NameLeqTransitive(a[1..], b[1..], c[1..]);
    }
  }

  /** `osFileInfoSlice.Less`: compares names only; `IsDir()` plays no part. */
  predicate Less(first: Entry, second: Entry) {
    NameLeq(first.info.name, second.info.name)
  }

  /** A slice in the order `sort.Sort` leaves it: every element is `Less` than each later one. */
  predicate Ordered(s: seq<Entry>) {
    forall p, q | 0 <= p < q < |s| :: Less(s[p], s[q])
  }

  /** Within `s`, an entry is determined by its name (true of any directory listing). */
  predicate NamesDetermineEntries(s: seq<Entry>) {
    forall x, y | x in s && y in s && x.info.name == y.info.name :: x == y
  }

  lemma UniqueNamesDetermineEntries(s: seq<Entry>)
    requires UniqueNames(s)
    ensures NamesDetermineEntries(s)
  {
    forall x, y | x in s && y in s && x.info.name == y.info.name
      ensures x == y
    {
      var p :| 0 <= p < |s| && s[p] == x;
      var q :| 0 <= q < |s| && s[q] == y;
      assert !(p < q) && !(q < p);
    }
  }

  lemma TailFacts(s: seq<Entry>)
    requires s != []
    ensures multiset(s[1..]) == multiset(s) - multiset{s[0]}
    ensures Ordered(s) ==> Ordered(s[1..])
    ensures NamesDetermineEntries(s) ==> NamesDetermineEntries(s[1..])
  {
    assert s == [s[0]] + s[1..];
    if Ordered(s) {
      forall p, q | 0 <= p < q < |s[1..]| ensures Less(s[1..][p], s[1..][q]) {
        assert Less(s[p + 1], s[q + 1]);
      }
    }
  }

  /** The first element of an ordered sequence is `Less` than each element. */
  lemma FirstIsLeast(s: seq<Entry>, y: Entry)
    requires Ordered(s) && y in s
    ensures Less(s[0], y)
  {
    var q :| 0 <= q < |s| && s[q] == y;
    if q == 0 {
      NameLeqReflexive(y.info.name);
    }
  }

  /**
   * Two ordered arrangements of the same entries are the same sequence when
   * names determine entries: the sorted sibling order does not depend on how
   * the sort got there.
   */
  lemma {:induction false} OrderedPermutationUnique(s: seq<Entry>, t: seq<Entry>)
    requires Ordered(s) && Ordered(t)
    requires multiset(s) == multiset(t)
    requires NamesDetermineEntries(s)
    ensures s == t
    decreases |s|
  {
    if s == [] {
      assert |t| == |multiset(t)| == 0;
    } else {
      assert s[0] in multiset(t);
      assert t[0] in multiset(s);
      FirstIsLeast(t, s[0]);
      FirstIsLeast(s, t[0]);
      NameLeqAntisymmetric(s[0].info.name, t[0].info.name);
      TailFacts(s);
      TailFacts(t);
      OrderedPermutationUnique(s[1..], t[1..]);
      assert s == [s[0]] + s[1..];
      assert t == [t[0]] + t[1..];
    }
  }

  /** `osFileInfoSlice.Swap`. */
  method Swap(a: array<Entry>, i: int, j: int)
    requires 0 <= i < a.Length && 0 <= j < a.Length
    modifies a
    ensures a[..] == old(a[..])[i := old(a[j])][j := old(a[i])]
    ensures multiset(a[..]) == multiset(old(a[..]))
  {
    a[i], a[j] := a[j], a[i];
  }

  /** Adjacent order implies order between any two positions. */
  lemma {:induction false} AdjacentOrderedIsOrdered(s: seq<Entry>)
    requires forall p | 0 < p < |s| :: Less(s[p - 1], s[p])
    ensures Ordered(s)
    decreases |s|
  {
    if |s| > 1 {
      AdjacentOrderedIsOrdered(s[1..]);
      forall q | 1 < q < |s|
        ensures Less(s[0], s[q])
      {
        assert Less(s[1..][0], s[1..][q - 1]);
        NameLeqTransitive(s[0].info.name, s[1].info.name, s[q].info.name);
      }
    }
  }

  /**
   * `sort.Sort(osFileInfoSlice(a))`: reorders the slice in place, by an
   * insertion sort built from `Less` and `Swap`.
   */
  method SortSlice(a: array<Entry>)
    modifies a
    ensures Ordered(a[..])
    ensures multiset(a[..]) == multiset(old(a[..]))
  {
    var i := 0;
    while i < a.Length
      invariant 0 <= i <= a.Length
      invariant forall p | 0 < p < i :: Less(a[p - 1], a[p])
      invariant multiset(a[..]) == multiset(old(a[..]))
    {
      var j := i;
      while j > 0 && !Less(a[j - 1], a[j])
        invariant 0 <= j <= i
        invariant forall p | 0 < p <= i && p != j :: Less(a[p - 1], a[p])
        invariant 0 < j < i ==> Less(a[j - 1], a[j + 1])
        invariant multiset(a[..]) == multiset(old(a[..]))
      {
        NameLeqTotal(a[j - 1].info.name, a[j].info.name);
        Swap(a, j - 1, j);
        j := j - 1;
      }
      i := i + 1;
    }
    AdjacentOrderedIsOrdered(a[..]);
  }

  lemma HeadBeforeRest(s: seq<Entry>)
    requires Ordered(s) && s != []
    ensures forall y | y in s[1..] :: Less(s[0], y)
  {
    forall y | y in s[1..] ensures Less(s[0], y) {
      var q :| 0 <= q < |s[1..]| && s[1..][q] == y;
      assert Less(s[0], s[q + 1]);
    }
  }

  lemma ConsOrdered(h: Entry, rest: seq<Entry>)
    requires Ordered(rest)
    requires forall y | y in rest :: Less(h, y)
    ensures Ordered([h] + rest)
  {
    forall p, q | 0 <= p < q < |[h] + rest| ensures Less(([h] + rest)[p], ([h] + rest)[q]) {
      if p > 0 {
        assert Less(rest[p - 1], rest[q - 1]);
      } else {
        assert rest[q - 1] in rest;
      }
    }
  }

  /** Places `x` before the first element it is `Less` than. */
  function InsertByName(x: Entry, s: seq<Entry>): seq<Entry>
    decreases |s|
  {
    if s == [] then [x]
    else if Less(x, s[0]) then [x] + s
    else [s[0]] + InsertByName(x, s[1..])
  }

  /** An element `Less` than the head of an ordered sequence may go in front of it. */
  lemma PrependBeforeHead(x: Entry, s: seq<Entry>)
    requires Ordered(s) && s != [] && Less(x, s[0])
    ensures Ordered([x] + s)
  {
    HeadBeforeRest(s);
    forall y | y in s ensures Less(x, y) {
      if y != s[0] {
        assert y in s[1..] by { assert s == [s[0]] + s[1..]; }
        NameLeqTransitive(x.info.name, s[0].info.name, y.info.name);
      }
    }
    ConsOrdered(x, s);
  }

  /** The head of an ordered sequence may stay in front of the tail with `x` inserted. */
  lemma KeepHead(x: Entry, s: seq<Entry>, rest: seq<Entry>)
    requires Ordered(s) && s != [] && !Less(x, s[0])
    requires Ordered(rest) && multiset(rest) == multiset(s[1..]) + multiset{x}
    ensures Ordered([s[0]] + rest)
  {
    NameLeqTotal(x.info.name, s[0].info.name);
    HeadBeforeRest(s);
    forall y | y in rest ensures Less(s[0], y) {
      assert y in multiset(rest);
    }
    ConsOrdered(s[0], rest);
  }

  /** Inserting into an ordered sequence keeps it ordered and adds exactly `x`. */
  lemma {:induction false} InsertByNameSorts(x: Entry, s: seq<Entry>)
    requires Ordered(s)
    ensures Ordered(InsertByName(x, s))
    ensures multiset(InsertByName(x, s)) == multiset(s) + multiset{x}
    decreases |s|
  {
    if s == [] {
    } else if Less(x, s[0]) {
      PrependBeforeHead(x, s);
    } else {
      TailFacts(s);
      InsertByNameSorts(x, s[1..]);
      KeepHead(x, s, InsertByName(x, s[1..]));
      assert s == [s[0]] + s[1..];
    }
  }

  /** The sibling order as a function: insertion sort by `Less`. */
  function SortByName(s: seq<Entry>): seq<Entry>
    decreases |s|
  {
    if s == [] then [] else InsertByName(s[0], SortByName(s[1..]))
  }

  /** `SortByName` orders its input and only rearranges it. */
  lemma {:induction false} SortByNameSorts(s: seq<Entry>)
    ensures Ordered(SortByName(s))
    ensures multiset(SortByName(s)) == multiset(s)
    decreases |s|
  {
    if s != [] {
      SortByNameSorts(s[1..]);
      InsertByNameSorts(s[0], SortByName(s[1..]));
      assert s == [s[0]] + s[1..];
    }
  }

  /** What `SortSlice` leaves in the array is exactly `SortByName` of what it found. */
  lemma SortSliceMatchesSortByName(before: seq<Entry>, after: seq<Entry>)
    requires Ordered(after) && multiset(after) == multiset(before)
    requires NamesDetermineEntries(before)
    ensures after == SortByName(before)
  {
    var sorted := SortByName(before);
    SortByNameSorts(before);
    assert NamesDetermineEntries(sorted) by {
      forall x | x in sorted ensures x in before {
        assert x in multiset(sorted);
      }
    }
    OrderedPermutationUnique(sorted, after);
  }
}
