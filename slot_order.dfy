/**
 * The banded-row ordering `detectSlots` applies with `slots.sort(...)`
 * (plugins/analyze-frames.ts; inlined in the server copy). The comparator
 * orders two slots by `x` when their tops are less than 10 pixels apart and
 * by `y` otherwise. The engine's sort is modelled as a stable insertion sort
 * over the array with that comparator.
 */
module SlotOrder {
  import opened Raster

  /** Tops closer than this are treated as lying in the same visual row. */
  const RowTolerance := 10

  function Abs(n: int): nat {
    if n < 0 then -n else n
  }

  /** `a` and `b` lie in the same row band. */
  predicate Near(a: Slot, b: Slot) {
    Abs(a.y - b.y) < RowTolerance
  }

  /** The sort callback: negative when `a` goes first, positive when `b` does. */
  function Compare(a: Slot, b: Slot): int {
    if Near(a, b) then a.x - b.x else a.y - b.y
  }

  /** `a` may stand before `b`: the comparator does not ask for them to be swapped. */
  predicate Precedes(a: Slot, b: Slot) {
    Compare(a, b) <= 0
  }

  /** Every neighbouring pair is in comparator order. */
  predicate Sorted(s: seq<Slot>) {
    forall i :: 0 <= i < |s| - 1 ==> Precedes(s[i], s[i + 1])
  }

  /** One insertion pass: `b` moves left past every element that compares greater than it. */
  function Insert(s: seq<Slot>, b: Slot): seq<Slot> {
    if |s| == 0 || Precedes(s[|s| - 1], b) then s + [b]
    else Insert(s[..|s| - 1], b) + [s[|s| - 1]]
  }

  /** Stable insertion sort by `Compare`, inserting the elements left to right. */
  function InsertionSort(s: seq<Slot>): seq<Slot> {
    if |s| == 0 then [] else Insert(InsertionSort(s[..|s| - 1]), s[|s| - 1])
  }

  /** The comparator is antisymmetric, so "not swapped" is the complement of "swapped the other way". */
  lemma CompareAntisymmetric(a: Slot, b: Slot)
    ensures Compare(a, b) == -Compare(b, a)
    ensures Precedes(a, b) || Precedes(b, a)
  {
    assert Abs(a.y - b.y) == Abs(b.y - a.y);
  }

  lemma {:induction false} InsertPermutes(s: seq<Slot>, b: Slot)
    ensures multiset(Insert(s, b)) == multiset(s) + multiset{b}
  {
    if |s| > 0 && !Precedes(s[|s| - 1], b) {
      InsertPermutes(s[..|s| - 1], b);
      assert s == s[..|s| - 1] + [s[|s| - 1]];
    }
  }

  /** The sort rearranges its input and nothing more. */
  lemma {:induction false} SortPermutes(s: seq<Slot>)
    ensures multiset(InsertionSort(s)) == multiset(s)
  {
    if |s| > 0 {
      SortPermutes(s[..|s| - 1]);
      InsertPermutes(InsertionSort(s[..|s| - 1]), s[|s| - 1]);
      assert s == s[..|s| - 1] + [s[|s| - 1]];
    }
  }

  lemma {:induction false} InsertKeepsSorted(s: seq<Slot>, b: Slot)
    requires Sorted(s)
    ensures Sorted(Insert(s, b))
    ensures |Insert(s, b)| == |s| + 1
    ensures |s| > 0 ==> Insert(s, b)[|s|] == b || Insert(s, b)[|s|] == s[|s| - 1]
  {
    if |s| > 0 && !Precedes(s[|s| - 1], b) {
      var init := s[..|s| - 1];
      InsertKeepsSorted(init, b);
      var r := Insert(init, b);
      CompareAntisymmetric(s[|s| - 1], b);
      if |init| > 0 {
        assert r[|init|] == b || r[|init|] == init[|init| - 1];
        assert Precedes(s[|s| - 2], s[|s| - 1]);
      }
    }
  }

  /** Every neighbouring pair of the output is in comparator order. */
  lemma {:induction false} SortSorted(s: seq<Slot>)
    ensures Sorted(InsertionSort(s))
    ensures |InsertionSort(s)| == |s|
  {
    if |s| > 0 {
      SortSorted(s[..|s| - 1]);
      InsertKeepsSorted(InsertionSort(s[..|s| - 1]), s[|s| - 1]);
    }
  }

  /** Every occurrence of `a` in `s` stands before every occurrence of `b`. */
  predicate AllBefore(s: seq<Slot>, a: Slot, b: Slot) {
    forall i, j :: 0 <= i < |s| && 0 <= j < |s| && s[i] == a && s[j] == b ==> i < j
  }

  /** An insertion pass never moves `b` past a tie `a`, nor a tie `a` past `b`. */
  lemma {:induction false} InsertKeepsBefore(s: seq<Slot>, x: Slot, a: Slot, b: Slot)
    requires a != b && Compare(a, b) == 0 && AllBefore(s, a, b)
    requires x == a ==> b !in s
    ensures AllBefore(Insert(s, x), a, b)
  {
    if |s| > 0 && !Precedes(s[|s| - 1], x) {
      var init, e := s[..|s| - 1], s[|s| - 1];
      assert AllBefore(init, a, b) by {
        forall i, j | 0 <= i < |init| && 0 <= j < |init| && init[i] == a && init[j] == b
          ensures i < j
        {
          assert s[i] == a && s[j] == b;
        }
      }
      InsertKeepsBefore(init, x, a, b);
      var r := Insert(init, x);
      InsertPermutes(init, x);
      assert Insert(s, x) == r + [e];
      if e == a {
        // `a` stands last in `s`, so no `b` comes before it there, and `x` is not `b`: a tie would have stopped the pass
        forall j | 0 <= j < |init|
          ensures init[j] != b
        {
          assert s[j] == init[j] && s[|s| - 1] == a;
        }
        assert b !in multiset(r);
      }
    }
  }

  /**
   * The sort is stable: of two slots the comparator ties, the one that came
   * first in the input comes first in the output.
   */
  lemma {:induction false} SortStable(s: seq<Slot>, a: Slot, b: Slot)
    requires a != b && Compare(a, b) == 0 && AllBefore(s, a, b)
    ensures AllBefore(InsertionSort(s), a, b)
  {
    if |s| > 0 {
      var init, x := s[..|s| - 1], s[|s| - 1];
      assert AllBefore(init, a, b) by {
        forall i, j | 0 <= i < |init| && 0 <= j < |init| && init[i] == a && init[j] == b
          ensures i < j
        {
          assert s[i] == a && s[j] == b;
        }
      }
      SortStable(init, a, b);
      SortPermutes(init);
      if x == a {
        forall j | 0 <= j < |init|
          ensures init[j] != b
        {
          assert s[j] == init[j];
        }
        assert b !in multiset(InsertionSort(init));
      }
      InsertKeepsBefore(InsertionSort(init), x, a, b);
    }
  }

  /** Input already in comparator order comes out unchanged. */
  lemma {:induction false} SortedUnchanged(s: seq<Slot>)
    requires Sorted(s)
    ensures InsertionSort(s) == s
  {
    if |s| > 0 {
      var init := s[..|s| - 1];
      assert Sorted(init);
      SortedUnchanged(init);
      assert s == init + [s[|s| - 1]];
    }
  }

  /**
   * The row bands of a set of slots are consistent: "same row" is transitive
   * on them. This holds for grid-like layouts whose rows are well separated.
   */
  predicate RowsConsistent(s: seq<Slot>) {
    forall a, b, c :: a in s && b in s && c in s && Near(a, b) && Near(b, c) ==> Near(a, c)
  }

  /** Reading order: within a row band left to right, otherwise top to bottom. */
  predicate ReadsBefore(a: Slot, b: Slot) {
    if Near(a, b) then a.x <= b.x else a.y < b.y
  }

  /** With consistent rows the comparator's order is transitive. */
  lemma PrecedesTransitive(a: Slot, b: Slot, c: Slot)
    requires Near(a, b) && Near(b, c) ==> Near(a, c)
    requires Near(a, c) && Near(c, b) ==> Near(a, b)
    requires Near(b, a) && Near(a, c) ==> Near(b, c)
    requires Precedes(a, b) && Precedes(b, c)
    ensures Precedes(a, c)
  {
  }

  /** A sequence sorted by neighbours is sorted pairwise when the rows are consistent. */
  lemma {:induction false} SortedPairwise(s: seq<Slot>, i: int, j: int)
    requires Sorted(s) && RowsConsistent(s)
    requires 0 <= i < j < |s|
    ensures Precedes(s[i], s[j])
    decreases j - i
  {
    if i + 1 < j {
      SortedPairwise(s, i + 1, j);
      assert s[i] in s && s[i + 1] in s && s[j] in s;
      PrecedesTransitive(s[i], s[i + 1], s[j]);
    }
  }

  /**
   * When the slots' row bands are consistent, the sorted output is in reading
   * order: every earlier slot reads before every later one.
   */
  lemma SortReadingOrder(s: seq<Slot>)
    requires RowsConsistent(s)
    ensures forall i, j :: 0 <= i < j < |InsertionSort(s)| ==>
              ReadsBefore(InsertionSort(s)[i], InsertionSort(s)[j]) || InsertionSort(s)[i] == InsertionSort(s)[j]
  {
    var r := InsertionSort(s);
    SortSorted(s);
    SortPermutes(s);
    forall a ensures a in r <==> a in s {
      assert a in r <==> a in multiset(r);
    }
    forall i, j | 0 <= i < j < |r|
      ensures ReadsBefore(r[i], r[j]) || r[i] == r[j]
    {
      SortedPairwise(r, i, j);
    }
  }

  /** The two slots of one row band go left to right. */
  lemma SameRowExample()
    ensures InsertionSort([Slot(200, 50, 30, 30), Slot(10, 55, 30, 30)])
         == [Slot(10, 55, 30, 30), Slot(200, 50, 30, 30)]
  {
    var a, b := Slot(200, 50, 30, 30), Slot(10, 55, 30, 30);
    assert Near(a, b) && !Precedes(a, b);
    SortPrefix([a, b], 1);
    SortPrefix([a], 0);
    assert [a, b][..1] == [a] && [a, b][..2] == [a, b] && [a][..1] == [a] && [a][..0] == [];
    assert Insert([a], b) == Insert([], b) + [a];
  }

  /**
   * Two slots 5 pixels apart vertically share a row and go left to right; a
   * slot 45 pixels higher forms an earlier row.
   */
  lemma RowBandExample()
    ensures InsertionSort([Slot(200, 50, 30, 30), Slot(10, 55, 30, 30), Slot(0, 5, 30, 30)])
         == [Slot(0, 5, 30, 30), Slot(10, 55, 30, 30), Slot(200, 50, 30, 30)]
  {
    var a, b, c := Slot(200, 50, 30, 30), Slot(10, 55, 30, 30), Slot(0, 5, 30, 30);
    SameRowExample();
    EarlierRowExample();
    SortPrefix([a, b, c], 2);
    assert [a, b, c][..2] == [a, b] && [a, b, c][..3] == [a, b, c];
  }

  /** A slot 45 pixels above a sorted row goes in front of it. */
  lemma EarlierRowExample()
    ensures Insert([Slot(10, 55, 30, 30), Slot(200, 50, 30, 30)], Slot(0, 5, 30, 30))
         == [Slot(0, 5, 30, 30), Slot(10, 55, 30, 30), Slot(200, 50, 30, 30)]
  {
    var a, b, c := Slot(200, 50, 30, 30), Slot(10, 55, 30, 30), Slot(0, 5, 30, 30);
    assert !Near(a, c) && !Precedes(a, c);
    assert !Near(b, c) && !Precedes(b, c);
    assert [b, a][..1] == [b] && [b][..0] == [];
    assert Insert([b, a], c) == Insert([b], c) + [a];
    assert Insert([b], c) == Insert([], c) + [b];
  }

  /** One shift of the inner loop: `key` moves left past an element that compares greater. */
  lemma InsertShift(sorted: seq<Slot>, key: Slot, j: int)
    requires 0 < j <= |sorted| && !Precedes(sorted[j - 1], key)
    requires Insert(sorted, key) == Insert(sorted[..j], key) + sorted[j..]
    ensures Insert(sorted, key) == Insert(sorted[..j - 1], key) + sorted[j - 1..]
  {
    assert sorted[..j][..j - 1] == sorted[..j - 1];
    assert sorted[j - 1..] == [sorted[j - 1]] + sorted[j..];
  }

  /** Where the inner loop stops, `key` is dropped in. */
  lemma InsertStop(sorted: seq<Slot>, key: Slot, j: int)
    requires 0 <= j <= |sorted| && (j == 0 || Precedes(sorted[j - 1], key))
    requires Insert(sorted, key) == Insert(sorted[..j], key) + sorted[j..]
    ensures Insert(sorted, key) == sorted[..j] + [key] + sorted[j..]
  {
  }

  lemma Splice(x: seq<Slot>, sorted: seq<Slot>, key: Slot, j: int)
    requires 0 <= j <= |sorted| && |x| == |sorted| + 1
    requires x[..j] == sorted[..j] && x[j] == key && x[j + 1..] == sorted[j..]
    ensures x == sorted[..j] + [key] + sorted[j..]
  {
    assert x == x[..j] + [x[j]] + x[j + 1..];
  }

  /** The outer loop sorts one more element of the input. */
  lemma SortPrefix(input: seq<Slot>, i: int)
    requires 0 <= i < |input|
    ensures InsertionSort(input[..i + 1]) == Insert(InsertionSort(input[..i]), input[i])
  {
    assert input[..i + 1][..i] == input[..i];
  }

  /**
   * One pass of the insertion sort: `a[i]` is shifted left into the sorted
   * prefix `a[..i]`.
   */
  method InsertAt(a: array<Slot>, i: int)
    requires 0 <= i < a.Length
    modifies a
    ensures a[..i + 1] == Insert(old(a[..i]), old(a[i]))
    ensures a[i + 1..] == old(a[i + 1..])
  {
    ghost var sorted := a[..i];
    var key := a[i];
    var j := i;
    while j > 0 && !Precedes(a[j - 1], key)
      invariant 0 <= j <= i
      invariant a[..j] == sorted[..j]
      invariant a[j + 1..i + 1] == sorted[j..]
      invariant a[i + 1..] == old(a[i + 1..])
      invariant Insert(sorted, key) == Insert(sorted[..j], key) + sorted[j..]
    {
      InsertShift(sorted, key, j);
      a[j] := a[j - 1];
      j := j - 1;
    }
    InsertStop(sorted, key, j);
    ghost var shifted := a[..];
    a[j] := key;
    assert a[..] == shifted[j := key];
    assert a[..i + 1][..j] == sorted[..j] && a[..i + 1][j + 1..] == sorted[j..];
    Splice(a[..i + 1], sorted, key, j);
  }

  /**
   * `slots.sort(...)` in place: an insertion sort with the banded comparator.
   */
  method SortSlots(a: array<Slot>)
    modifies a
    ensures a[..] == InsertionSort(old(a[..]))
  {
    ghost var input := a[..];
    var i := 0;
    while i < a.Length
      invariant 0 <= i <= a.Length
      invariant a[..i] == InsertionSort(input[..i])
      invariant a[i..] == input[i..]
    {
      assert a[i] == input[i];
      SortPrefix(input, i);
      InsertAt(a, i);
      i := i + 1;
    }
    assert a[..] == a[..a.Length] && input == input[..a.Length];
  }

  /**
   * The in-place sort on a fresh array holding `s`: the result is ordered by
   * the comparator and holds the same slots.
   */
  method SortedSlots(s: seq<Slot>) returns (r: seq<Slot>)
    ensures r == InsertionSort(s)
    ensures Sorted(r) && multiset(r) == multiset(s)
  {
    var a := new Slot[|s|](i requires 0 <= i < |s| => s[i]);
    assert a[..] == s;
    SortSlots(a);
    r := a[..];
    SortSorted(s);
    SortPermutes(s);
  }
}
