/**
 * The search engine: ranks the index's results by rating (highest first,
 * an absent rating counting as 0) and then by name, and picks one result
 * by an index supplied in place of `Math.random()`.
 */
module Engine {
  import opened Types
  import opened Text
  import opened Index

  /** `a.rating ?? 0`: an absent rating counts as zero. */
  function EffectiveRating(r: RecipeInfo): real {
    r.rating.GetOr(0.0)
  }

  /**
   * The comparator passed to `results.sort`: negative when `a` belongs
   * before `b`. Ratings are compared first (higher first), names second.
   */
  function Compare(a: RecipeInfo, b: RecipeInfo): real {
    var aRating := EffectiveRating(a);
    var bRating := EffectiveRating(b);
    if bRating != aRating then bRating - aRating
    else CompareStrings(a.name, b.name) as real
  }

  /** `a` may stand before `b` in the sorted output. */
  predicate InOrder(a: RecipeInfo, b: RecipeInfo) {
    Compare(a, b) <= 0.0
  }

  /** In order: a higher effective rating, or an equal one and a name that sorts no later. */
  lemma InOrderIff(a: RecipeInfo, b: RecipeInfo)
    ensures InOrder(a, b) <==>
      EffectiveRating(a) > EffectiveRating(b) ||
      (EffectiveRating(a) == EffectiveRating(b) && CompareStrings(a.name, b.name) <= 0)
  {
  }

  /** Swapping the arguments of the comparator flips its sign. */
  lemma CompareAntisymmetric(a: RecipeInfo, b: RecipeInfo)
    ensures Compare(b, a) == -Compare(a, b)
  {
    CompareStringsAntisymmetric(a.name, b.name);
  }

  /** The comparator reports a tie only for equal ratings and equal names. */
  lemma CompareZeroIff(a: RecipeInfo, b: RecipeInfo)
    ensures Compare(a, b) == 0.0 <==> EffectiveRating(a) == EffectiveRating(b) && a.name == b.name
  {
    CompareStringsZero(a.name, b.name);
  }

  /** The comparator is consistent: "in order" is transitive. */
  lemma CompareTransitive(a: RecipeInfo, b: RecipeInfo, c: RecipeInfo)
    requires InOrder(a, b) && InOrder(b, c)
    ensures InOrder(a, c)
  {
    if EffectiveRating(a) == EffectiveRating(b) == EffectiveRating(c) {
      CompareStringsTransitive(a.name, b.name, c.name);
    }
  }

  /** Every pair of the output is in order. */
  predicate Sorted(s: seq<RecipeInfo>) {
    forall i, j :: 0 <= i < j < |s| ==> InOrder(s[i], s[j])
  }

  /**
   * Inserts `x` into `sorted` after every element that is not strictly
   * after it, so that equal elements keep their order (a stable sort).
   */
  function Insert(sorted: seq<RecipeInfo>, x: RecipeInfo): seq<RecipeInfo>
    decreases |sorted|
  {
    if sorted == [] then [x]
    else if Compare(sorted[|sorted| - 1], x) > 0.0 then
      Insert(sorted[..|sorted| - 1], x) + [sorted[|sorted| - 1]]
    else sorted + [x]
  }

  /** The stable sort by `Compare`: each element inserted in turn into the sorted prefix. */
  function InsertionSort(s: seq<RecipeInfo>): seq<RecipeInfo>
    decreases |s|
  {
    if s == [] then [] else Insert(InsertionSort(s[..|s| - 1]), s[|s| - 1])
  }

  lemma {:induction false} InsertPermutes(sorted: seq<RecipeInfo>, x: RecipeInfo)
    ensures multiset(Insert(sorted, x)) == multiset(sorted) + multiset{x}
    decreases |sorted|
  {
    if sorted != [] {
      var p, last := sorted[..|sorted| - 1], sorted[|sorted| - 1];
      assert sorted == p + [last];
      InsertPermutes(p, x);
    }
  }

  lemma SortedAppend(s: seq<RecipeInfo>, x: RecipeInfo)
    requires Sorted(s)
    requires forall e :: e in s ==> InOrder(e, x)
    ensures Sorted(s + [x])
  {
    forall i, j | 0 <= i < j < |s + [x]| ensures InOrder((s + [x])[i], (s + [x])[j]) {
      if j == |s| {
        assert (s + [x])[i] in s;
      }
    }
  }

  lemma {:induction false} InsertKeepsSorted(sorted: seq<RecipeInfo>, x: RecipeInfo)
    requires Sorted(sorted)
    ensures Sorted(Insert(sorted, x))
    decreases |sorted|
  {
    if sorted != [] {
      var p, last := sorted[..|sorted| - 1], sorted[|sorted| - 1];
      assert Sorted(p);
      if Compare(last, x) > 0.0 {
        var q := Insert(p, x);
        InsertKeepsSorted(p, x);
        InsertPermutes(p, x);
        forall e | e in q ensures InOrder(e, last) {
          assert e in multiset(q);
          if e == x {
            CompareAntisymmetric(last, x);
          } else {
            assert e in p;
          }
        }
        SortedAppend(q, last);
      } else {
        forall e | e in sorted ensures InOrder(e, x) {
          var i :| 0 <= i < |sorted| && sorted[i] == e;
          if i < |sorted| - 1 {
            CompareTransitive(e, last, x);
          }
        }
        SortedAppend(sorted, x);
      }
    }
  }

  /**
   * What `results.sort(comparator)` establishes: the output is sorted and
   * is a permutation of the input, neither adding nor dropping a record.
   */
  lemma {:induction false} InsertionSortCorrect(s: seq<RecipeInfo>)
    ensures Sorted(InsertionSort(s))
    ensures multiset(InsertionSort(s)) == multiset(s)
    decreases |s|
  {
    if s != [] {
      var p := s[..|s| - 1];
      InsertionSortCorrect(p);
      InsertKeepsSorted(InsertionSort(p), s[|s| - 1]);
      InsertPermutes(InsertionSort(p), s[|s| - 1]);
      assert s == p + [s[|s| - 1]];
    }
  }

  /**
   * The elements of `s` that tie with `x` under the comparator (those of
   * equal effective rating and equal name), in their order in `s`.
   */
  function TiesOf(s: seq<RecipeInfo>, x: RecipeInfo): seq<RecipeInfo>
    decreases |s|
  {
    if s == [] then []
    else TiesOf(s[..|s| - 1], x) + (if Compare(s[|s| - 1], x) == 0.0 then [s[|s| - 1]] else [])
  }

  lemma TiesOfSnoc(s: seq<RecipeInfo>, y: RecipeInfo, x: RecipeInfo)
    ensures TiesOf(s + [y], x) == TiesOf(s, x) + (if Compare(y, x) == 0.0 then [y] else [])
  {
    assert (s + [y])[..|s|] == s;
  }

  /**
   * Inserting `y` puts it behind every element that ties with it, so the
   * ties with any `x` keep their order and `y` joins them last.
   */
  lemma {:induction false} InsertTies(sorted: seq<RecipeInfo>, y: RecipeInfo, x: RecipeInfo)
    ensures TiesOf(Insert(sorted, y), x) == TiesOf(sorted, x) + (if Compare(y, x) == 0.0 then [y] else [])
    decreases |sorted|
  {
    if sorted == [] {
      TiesOfSnoc([], y, x);
    } else {
      var p, last := sorted[..|sorted| - 1], sorted[|sorted| - 1];
      assert sorted == p + [last];
      TiesOfSnoc(p, last, x);
      if Compare(last, y) > 0.0 {
        InsertTies(p, y, x);
        TiesOfSnoc(Insert(p, y), last, x);
        if Compare(y, x) == 0.0 && Compare(last, x) == 0.0 {
          CompareZeroIff(y, x);
          CompareZeroIff(last, x);
          CompareZeroIff(last, y);
          assert false;
        }
      } else {
        TiesOfSnoc(sorted, y, x);
      }
    }
  }

  /**
   * The sort is stable: records that tie under the comparator keep their
   * input order.
   */
  lemma {:induction false} InsertionSortStable(s: seq<RecipeInfo>, x: RecipeInfo)
    ensures TiesOf(InsertionSort(s), x) == TiesOf(s, x)
    decreases |s|
  {
    if s != [] {
      var p, last := s[..|s| - 1], s[|s| - 1];
      InsertionSortStable(p, x);
      InsertTies(InsertionSort(p), last, x);
    }
  }

  /** A sorted list never rises in effective rating. */
  lemma SortedByRating(s: seq<RecipeInfo>)
    requires Sorted(s)
    ensures forall i, j :: 0 <= i < j < |s| ==> EffectiveRating(s[i]) >= EffectiveRating(s[j])
  {
    forall i, j | 0 <= i < j < |s| ensures EffectiveRating(s[i]) >= EffectiveRating(s[j]) {
      InOrderIff(s[i], s[j]);
    }
  }

  /** Among records of equal effective rating, names ascend. */
  lemma SortedTiesByName(s: seq<RecipeInfo>)
    requires Sorted(s)
    ensures forall i, j :: 0 <= i < j < |s| && EffectiveRating(s[i]) == EffectiveRating(s[j]) ==>
      CompareStrings(s[i].name, s[j].name) <= 0
  {
    forall i, j | 0 <= i < j < |s| && EffectiveRating(s[i]) == EffectiveRating(s[j])
      ensures CompareStrings(s[i].name, s[j].name) <= 0
    {
      InOrderIff(s[i], s[j]);
    }
  }

  /** An unrated record comes after every record with a positive rating. */
  lemma UnratedAfterPositive(s: seq<RecipeInfo>, i: nat, j: nat)
    requires Sorted(s) && i < |s| && j < |s|
    requires s[i].rating.None?
    requires s[j].rating.Some? && s[j].rating.value > 0.0
    ensures j < i
  {
    if i < j {
      InOrderIff(s[i], s[j]);
    }
  }

  /**
   * The absent rating is ranked as 0, not as the lowest value: an unrated
   * record is placed before one rated below zero, and ties with a rating of
   * exactly zero are decided by name.
   */
  lemma UnratedRanksAsZero(a: RecipeInfo, b: RecipeInfo)
    requires a.rating.None?
    ensures b.rating.Some? && b.rating.value < 0.0 ==> Compare(a, b) < 0.0
    ensures b.rating == Some(0.0) ==> Compare(a, b) == CompareStrings(a.name, b.name) as real
  {
  }

  lemma InsertionSortSingle(x: RecipeInfo)
    ensures InsertionSort([x]) == [x]
  {
    assert [x][..0] == [];
    assert InsertionSort([]) == [];
    assert Insert([], x) == [x];
  }

  lemma SortPair(a: RecipeInfo, b: RecipeInfo)
    requires Compare(a, b) < 0.0 && Compare(b, a) > 0.0
    ensures InsertionSort([a, b]) == [a, b]
    ensures InsertionSort([b, a]) == [a, b]
  {
    assert [a, b][..1] == [a] && [b, a][..1] == [b];
    InsertionSortSingle(a);
    InsertionSortSingle(b);
    assert Insert([a], b) == [a, b];
    assert Insert([b], a) == Insert([], a) + [b];
  }

  /** Two records of equal effective rating come out in name order, whatever their input order. */
  lemma SortPairByName(a: RecipeInfo, b: RecipeInfo)
    requires EffectiveRating(a) == EffectiveRating(b)
    requires CompareStrings(a.name, b.name) < 0
    ensures InsertionSort([a, b]) == [a, b]
    ensures InsertionSort([b, a]) == [a, b]
  {
    CompareStringsAntisymmetric(a.name, b.name);
    SortPair(a, b);
  }

  /** A positively rated record comes out before an unrated one, whatever their input order. */
  lemma SortPairRatedFirst(a: RecipeInfo, b: RecipeInfo)
    requires a.rating.Some? && a.rating.value > 0.0
    requires b.rating.None?
    ensures InsertionSort([a, b]) == [a, b]
    ensures InsertionSort([b, a]) == [a, b]
  {
    SortPair(a, b);
  }

  /** The records `SearchEngine.search(query)` returns. */
  function RankedResults(c: Catalog, query: string): seq<RecipeInfo> {
    InsertionSort(IndexResults(c, query))
  }

  lemma DropLastSlices<T>(p: seq<T>, j: nat)
    requires j < |p|
    ensures p[..|p| - 1][..j] == p[..j]
    ensures p[..|p| - 1][j..] + [p[|p| - 1]] == p[j..]
  {
  }

  /**
   * Where `Insert` puts `x`: right after the last element that does not
   * belong after it, ahead of the run of elements that do.
   */
  lemma {:induction false} InsertAt(p: seq<RecipeInfo>, j: nat, x: RecipeInfo)
    requires j <= |p|
    requires j == 0 || Compare(p[j - 1], x) <= 0.0
    requires forall k :: j <= k < |p| ==> Compare(p[k], x) > 0.0
    ensures Insert(p, x) == p[..j] + [x] + p[j..]
    decreases |p|
  {
    if j == |p| {
      assert p[..j] == p && p[j..] == [];
    } else {
      var q, last := p[..|p| - 1], p[|p| - 1];
      InsertAt(q, j, x);
      DropLastSlices(p, j);
    }
  }

  /** After the shift, the first `|p| + 1` elements are `p` with `x` placed at `j`. */
  lemma ShiftedPrefix<T>(s: seq<T>, p: seq<T>, j: nat, x: T)
    requires j <= |p| < |s|
    requires forall k :: 0 <= k < j ==> s[k] == p[k]
    requires s[j] == x
    requires forall k :: j < k <= |p| ==> s[k] == p[k - 1]
    ensures s[..|p| + 1] == p[..j] + [x] + p[j..]
  {
  }

  /**
   * One step of the insertion sort: shifts the elements of the sorted
   * prefix `a[..i]` that belong after `a[i]` one place right and drops
   * `a[i]` into the gap.
   */
  method InsertLast(a: array<RecipeInfo>, i: nat)
    requires i < a.Length
    modifies a
    ensures a[..i + 1] == Insert(old(a[..i]), old(a[i]))
    ensures a[i + 1..] == old(a[i + 1..])
  {
    var x := a[i];
    ghost var p := a[..i];
    var j := i;
    while j > 0 && Compare(a[j - 1], x) > 0.0
      invariant 0 <= j <= i
      invariant forall k :: 0 <= k < j ==> a[k] == p[k]
      invariant forall k :: j < k <= i ==> a[k] == p[k - 1]
      invariant a[i + 1..] == old(a[i + 1..])
      invariant forall k :: j <= k < i ==> Compare(p[k], x) > 0.0
    {
      a[j] := a[j - 1];
      j := j - 1;
    }
    a[j] := x;
    InsertAt(p, j, x);
    ShiftedPrefix(a[..], p, j, x);
  }

  /** Sorting one more element of `s` inserts it into the sorted prefix. */
  lemma InsertionSortStep(s: seq<RecipeInfo>, i: nat)
    requires i < |s|
    ensures InsertionSort(s[..i + 1]) == Insert(InsertionSort(s[..i]), s[i])
  {
    assert s[..i + 1][..i] == s[..i];
  }

  /** `results.sort(comparator)` on an array: a stable insertion sort in place. */
  method SortInPlace(a: array<RecipeInfo>)
    modifies a
    ensures a[..] == InsertionSort(old(a[..]))
  {
    ghost var orig := a[..];
    for i := 0 to a.Length
      invariant a[..i] == InsertionSort(orig[..i])
      invariant a[i..] == orig[i..]
    {
      ghost var rest := a[i..];
      assert a[i] == rest[0] == orig[i];
      InsertLast(a, i);
      InsertionSortStep(orig, i);
      assert a[i + 1..] == rest[1..] == orig[i + 1..];
    }
    assert orig[..a.Length] == orig;
  }

  /** `SearchEngine` wraps an index over a read-only catalog. */
  class SearchEngine {
    const index: SearchIndex

    constructor(data: Catalog)
      ensures index.data == data
    {
      index := new SearchIndex(data);
    }

    /**
     * `search(query)`: the index's results, sorted by effective rating
     * (highest first) and then by name. The result is a function of the
     * catalog and the query alone, so equal calls give equal lists.
     */
    method Search(query: string) returns (results: seq<RecipeInfo>)
      ensures results == RankedResults(index.data, query)
      ensures Sorted(results)
      ensures multiset(results) == multiset(IndexResults(index.data, query))
      ensures |results| == |IndexResults(index.data, query)|
      ensures forall x :: TiesOf(results, x) == TiesOf(IndexResults(index.data, query), x)
    {
      var found := index.Search(query);
      var a := new RecipeInfo[|found|](i requires 0 <= i < |found| => found[i]);
      assert a[..] == found;
      SortInPlace(a);
      results := a[..];
      InsertionSortCorrect(found);
      forall x ensures TiesOf(results, x) == TiesOf(found, x) {
        InsertionSortStable(found, x);
      }
    }

    /**
     * `random(query)`: no record for an empty result, otherwise the result
     * at position `choice` (the `Math.floor(Math.random() * length)` of the
     * caller's random source).
     */
    method Random(query: string, choice: nat) returns (pick: Option<RecipeInfo>)
      requires IndexResults(index.data, query) == [] || choice < |IndexResults(index.data, query)|
      ensures pick.None? <==> IndexResults(index.data, query) == []
      ensures pick.Some? ==> pick.value == IndexResults(index.data, query)[choice]
      ensures pick.Some? ==> pick.value in IndexResults(index.data, query)
    {
      var results := index.Search(query);
      if |results| == 0 {
        return None;
      }
      var randomIndex := choice;
      return Some(results[randomIndex]);
    }
  }
}
