/** The heapsort and the binary search of PintOS/src/lib/stdlib.c, on arrays of whole elements. */
module HeapSort {
  import opened Prelude

  /** A strcmp-style comparison: the signs of `cmp(x, y)` and `cmp(y, x)` are opposite, and `<= 0` is transitive. */
  ghost predicate Comparison<T(!new)>(cmp: (T, T) -> int) {
    && (forall x, y :: cmp(x, y) < 0 <==> cmp(y, x) > 0)
    && (forall x, y, z :: cmp(x, y) <= 0 && cmp(y, z) <= 0 ==> cmp(x, z) <= 0)
  }

  ghost predicate Sorted<T>(s: seq<T>, cmp: (T, T) -> int) {
    forall i, j :: 0 <= i < j < |s| ==> cmp(s[i], s[j]) <= 0
  }

  /** The elements with 1-based indexes `p` and `c` are in heap order. */
  predicate Above<T>(s: seq<T>, cmp: (T, T) -> int, p: nat, c: nat)
    requires 1 <= p <= |s| && 1 <= c <= |s|
  {
    cmp(s[c - 1], s[p - 1]) <= 0
  }

  /** Every parent from `lo` on is above its children, among the first `n` elements. */
  ghost predicate Heap<T>(s: seq<T>, cmp: (T, T) -> int, lo: nat, n: nat)
    requires 1 <= lo && n <= |s|
  {
    forall c :: 2 <= c <= n && c / 2 >= lo ==> Above(s, cmp, c / 2, c)
  }

  /** The same, but `i` may be too small for its place; what is above `i` is above its children too. */
  ghost predicate HeapBut<T>(s: seq<T>, cmp: (T, T) -> int, lo: nat, n: nat, i: nat)
    requires 1 <= lo <= i && n <= |s|
  {
    && (forall c :: 2 <= c <= n && c / 2 >= lo && c / 2 != i ==> Above(s, cmp, c / 2, c))
    && (forall c :: 2 <= c <= n && c / 2 == i && i / 2 >= lo ==> Above(s, cmp, i / 2, c))
  }

  function Swapped<T>(s: seq<T>, i: nat, j: nat): (r: seq<T>)
    requires 1 <= i <= |s| && 1 <= j <= |s|
    ensures |r| == |s|
  {
    s[i - 1 := s[j - 1]][j - 1 := s[i - 1]]
  }

  lemma SwapPermutes<T>(s: seq<T>, n: nat, i: nat, j: nat)
    requires 1 <= i <= n && 1 <= j <= n <= |s|
    ensures multiset(Swapped(s, i, j)[..n]) == multiset(s[..n]) && Swapped(s, i, j)[n..] == s[n..]
  {
    assert Swapped(s, i, j)[..n] == Swapped(s[..n], i, j);
  }

  /** One turn of `heapify`: after the swap only the larger child's place may be wrong. */
  lemma FloatDown<T(!new)>(s: seq<T>, cmp: (T, T) -> int, lo: nat, n: nat, i: nat, m: nat)
    requires Comparison(cmp) && 1 <= lo <= i && n <= |s| && 2 <= m <= n && m / 2 == i
    requires HeapBut(s, cmp, lo, n, i) && cmp(s[m - 1], s[i - 1]) > 0
    requires forall c :: 2 <= c <= n && c / 2 == i ==> Above(s, cmp, m, c)
    ensures HeapBut(Swapped(s, i, m), cmp, lo, n, m)
  {
    var t := Swapped(s, i, m);
    forall c | 2 <= c <= n && c / 2 >= lo && c / 2 != m ensures Above(t, cmp, c / 2, c) {
      assert c / 2 == i ==> Above(s, cmp, m, c);
      assert c / 2 != i ==> Above(s, cmp, c / 2, c);
      assert c == i ==> (i / 2 >= lo ==> Above(s, cmp, i / 2, m));
    }
    forall c | 2 <= c <= n && c / 2 == m && m / 2 >= lo ensures Above(t, cmp, m / 2, c) { assert Above(s, cmp, m, c); }
  }

  lemma Settled<T(!new)>(s: seq<T>, cmp: (T, T) -> int, lo: nat, n: nat, i: nat)
    requires 1 <= lo <= i <= |s| && n <= |s| && HeapBut(s, cmp, lo, n, i)
    requires (2 * i <= n ==> Above(s, cmp, i, 2 * i)) && (2 * i + 1 <= n ==> Above(s, cmp, i, 2 * i + 1))
    ensures Heap(s, cmp, lo, n)
  {
    forall c | 2 <= c <= n && c / 2 >= lo
      ensures Above(s, cmp, c / 2, c)
    {
      assert c / 2 == i ==> c == 2 * i || c == 2 * i + 1;
    }
  }

  /** Lines 105-112: the largest among `i` and its children. */
  method LargestOf<T(!new)>(a: array<T>, i0: nat, cnt: nat, cmp: (T, T) -> int) returns (max: nat)
    requires Comparison(cmp) && 1 <= i0 <= cnt <= a.Length
    ensures max == i0 || (2 <= max <= cnt && max / 2 == i0 && cmp(a[max - 1], a[i0 - 1]) > 0)
    ensures 2 * i0 <= cnt ==> Above(a[..], cmp, max, 2 * i0)
    ensures 2 * i0 + 1 <= cnt ==> Above(a[..], cmp, max, 2 * i0 + 1)
  {
    var left, right := 2 * i0, 2 * i0 + 1;
    max := i0;
    if left <= cnt && cmp(a[left - 1], a[max - 1]) > 0 { max := left; }
    if right <= cnt && cmp(a[right - 1], a[max - 1]) > 0 { max := right; }
  }

  /** `heapify` */
  method Heapify<T(!new)>(a: array<T>, i0: nat, cnt: nat, cmp: (T, T) -> int, ghost lo: nat)
    requires Comparison(cmp) && 1 <= lo <= i0 <= cnt <= a.Length
    requires HeapBut(a[..], cmp, lo, cnt, i0)
    modifies a
    ensures Heap(a[..], cmp, lo, cnt) && multiset(a[..cnt]) == multiset(old(a[..cnt])) && a[cnt..] == old(a[cnt..])
  {
    hide Comparison, HeapBut, Heap;
    var i := i0;
    while true
      invariant lo <= i <= cnt && HeapBut(a[..], cmp, lo, cnt, i)
      invariant multiset(a[..cnt]) == multiset(old(a[..cnt])) && a[cnt..] == old(a[cnt..])
      decreases cnt - i
    {
      var max := LargestOf(a, i, cnt, cmp);
      if max == i {
        Settled(a[..], cmp, lo, cnt, i);
        break;
      }
      FloatDown(a[..], cmp, lo, cnt, i, max);
      SwapAt(a, cnt, i, max);
      i := max;
    }
  }

  /** `do_swap` */
  method SwapAt<T>(a: array<T>, ghost n: nat, i: nat, j: nat)
    requires 1 <= i <= n && 1 <= j <= n <= a.Length
    modifies a
    ensures a[..] == Swapped(old(a[..]), i, j) && multiset(a[..n]) == multiset(old(a[..n])) && a[n..] == old(a[n..])
  {
    SwapPermutes(a[..], n, i, j);
    assert a[..][..n] == a[..n] && a[..][n..] == a[n..];
    a[i - 1], a[j - 1] := a[j - 1], a[i - 1];
    assert a[..][..n] == a[..n] && a[..][n..] == a[n..];
  }

  // ---------- the sort ----------

  lemma {:induction false} RootLargest<T(!new)>(s: seq<T>, cmp: (T, T) -> int, n: nat, c: nat)
    requires Comparison(cmp) && n <= |s| && Heap(s, cmp, 1, n) && 1 <= c <= n
    ensures cmp(s[c - 1], s[0]) <= 0
    decreases c
  {
    if c > 1 {
      RootLargest(s, cmp, n, c / 2);
      assert Above(s, cmp, c / 2, c);
    }
  }

  /** The last `|s| - n` elements are sorted, and no earlier element is larger than one of them. */
  ghost predicate Done<T>(s: seq<T>, cmp: (T, T) -> int, n: nat)
    requires n <= |s|
  {
    Sorted(s[n..], cmp) && forall x, y :: x in s[..n] && y in s[n..] ==> cmp(x, y) <= 0
  }

  /** Swapping the root of the heap with its last element puts one more element in place. */
  lemma RootDone<T(!new)>(s: seq<T>, cmp: (T, T) -> int, i: nat)
    requires Comparison(cmp) && 1 < i <= |s| && Heap(s, cmp, 1, i) && Done(s, cmp, i)
    ensures Done(Swapped(s, 1, i), cmp, i - 1) && HeapBut(Swapped(s, 1, i), cmp, 1, i - 1, 1)
  {
    hide Comparison, Heap, HeapBut, Done;
    RootPlaced(s, cmp, i);
    HeapBelow(s, cmp, i);
  }

  lemma HeapBelow<T(!new)>(s: seq<T>, cmp: (T, T) -> int, i: nat)
    requires 1 < i <= |s| && Heap(s, cmp, 1, i)
    ensures HeapBut(Swapped(s, 1, i), cmp, 1, i - 1, 1)
  {
    var t := Swapped(s, 1, i);
    forall c | 2 <= c <= i - 1 && c / 2 != 1 ensures Above(t, cmp, c / 2, c) { assert Above(s, cmp, c / 2, c); }
  }

  lemma RootPlaced<T(!new)>(s: seq<T>, cmp: (T, T) -> int, i: nat)
    requires Comparison(cmp) && 1 < i <= |s| && Heap(s, cmp, 1, i) && Done(s, cmp, i)
    ensures Done(Swapped(s, 1, i), cmp, i - 1)
  {
    hide Comparison, Heap;
    var t := Swapped(s, 1, i);
    assert t[i - 1] == s[0] && t[i - 1..] == [s[0]] + s[i..];
    forall x | x in s[..i] ensures cmp(x, s[0]) <= 0 {
      var c :| 0 <= c < i && s[c] == x;
      RootLargest(s, cmp, i, c + 1);
    }
    SwapMembers(s, i);
    ConsSorted(s[0], s[i..], cmp, s[..i]);
  }

  lemma SwapMembers<T>(s: seq<T>, i: nat)
    requires 1 < i <= |s|
    ensures forall x :: x in Swapped(s, 1, i)[..i - 1] ==> x in s[..i]
  {
    var t := Swapped(s, 1, i);
    forall k | 0 <= k < i - 1 ensures t[k] in s[..i] {
      assert t[k] == s[if k == 0 then i - 1 else k];
      assert s[..i][if k == 0 then i - 1 else k] == t[k];
    }
  }

  lemma ConsSorted<T(!new)>(x: T, s: seq<T>, cmp: (T, T) -> int, before: seq<T>)
    requires Sorted(s, cmp) && x in before && forall u, v :: u in before && v in s ==> cmp(u, v) <= 0
    ensures Sorted([x] + s, cmp)
  {
  }

  lemma DoneKept<T(!new)>(s: seq<T>, t: seq<T>, cmp: (T, T) -> int, n: nat)
    requires n <= |s| && |t| == |s| && Done(s, cmp, n) && multiset(t[..n]) == multiset(s[..n]) && t[n..] == s[n..]
    ensures Done(t, cmp, n)
  {
    forall x | x in t[..n] ensures x in s[..n] { assert x in multiset(t[..n]); }
  }

  lemma WholeFromParts<T>(s: seq<T>, t: seq<T>, n: nat)
    requires n <= |s| && |t| == |s| && multiset(t[..n]) == multiset(s[..n]) && t[n..] == s[n..]
    ensures multiset(t) == multiset(s)
  {
    assert s == s[..n] + s[n..] && t == t[..n] + t[n..];
  }

  /** Lines 142-144 */
  method BuildHeap<T(!new)>(a: array<T>, cmp: (T, T) -> int)
    requires Comparison(cmp)
    modifies a
    ensures Heap(a[..], cmp, 1, a.Length) && multiset(a[..]) == multiset(old(a[..]))
  {
    hide Comparison;
    var i := a.Length / 2;
    while i > 0
      invariant 0 <= i <= a.Length / 2 && Heap(a[..], cmp, i + 1, a.Length) && multiset(a[..]) == multiset(old(a[..]))
    {
      assert a[..a.Length] == a[..];
      Heapify(a, i, a.Length, cmp, i);
      assert a[..a.Length] == a[..];
      i := i - 1;
    }
  }

  /** Lines 148-151: move the largest remaining element into place. */
  method PlaceNext<T(!new)>(a: array<T>, i: nat, cmp: (T, T) -> int)
    requires Comparison(cmp) && 1 < i <= a.Length && Heap(a[..], cmp, 1, i) && Done(a[..], cmp, i)
    modifies a
    ensures Heap(a[..], cmp, 1, i - 1) && Done(a[..], cmp, i - 1) && multiset(a[..]) == multiset(old(a[..]))
  {
    hide Comparison, Heap, HeapBut, Done;
    ghost var s := a[..];
    RootDone(s, cmp, i);
    SwapAt(a, a.Length, 1, i);
    ghost var t := a[..];
    assert a[..a.Length] == a[..] && s[..a.Length] == s;
    Heapify(a, 1, i - 1, cmp, 1);
    assert a[..][..i - 1] == a[..i - 1] && a[..][i - 1..] == a[i - 1..];
    DoneKept(t, a[..], cmp, i - 1);
    WholeFromParts(t, a[..], i - 1);
  }

  /** `sort`: a sorted permutation, for any comparison and any number of elements. */
  method Sort<T(!new)>(a: array<T>, cmp: (T, T) -> int)
    requires Comparison(cmp)
    modifies a
    ensures Sorted(a[..], cmp) && multiset(a[..]) == multiset(old(a[..]))
  {
    BuildHeap(a, cmp);
    var i := a.Length;
    while i > 1
      invariant 0 <= i <= a.Length && Heap(a[..], cmp, 1, i) && Done(a[..], cmp, i)
      invariant multiset(a[..]) == multiset(old(a[..]))
    {
      PlaceNext(a, i, cmp);
      i := i - 1;
    }
    OneLeft(a[..], cmp, i);
  }

  lemma OneLeft<T(!new)>(s: seq<T>, cmp: (T, T) -> int, i: nat)
    requires i <= 1 && i <= |s| && Done(s, cmp, i)
    ensures Sorted(s, cmp)
  {
    if i == 1 {
      assert s == [s[0]] + s[1..];
      ConsSorted(s[0], s[1..], cmp, s[..1]);
    } else {
      assert s[0..] == s;
    }
  }

  // ---------- the search ----------

  /** `binary_search` finds a match exactly when there is one. */
  method BinarySearch<T(!new)>(key: T, s: array<T>, cmp: (T, T) -> int) returns (r: Option<nat>)
    requires Comparison(cmp) && Sorted(s[..], cmp)
    ensures r.Some? ==> r.value < s.Length && cmp(key, s[r.value]) == 0
    ensures r.None? ==> forall i :: 0 <= i < s.Length ==> cmp(key, s[i]) != 0
  {
    var first, last := 0, s.Length;
    while first < last
      invariant 0 <= first <= last <= s.Length
      invariant forall i :: 0 <= i < first ==> cmp(key, s[i]) > 0
      invariant forall i :: last <= i < s.Length ==> cmp(key, s[i]) < 0
    {
      var middle := first + (last - first) / 2;
      var c := cmp(key, s[middle]);
      if c < 0 {
        LaterAbove(key, s[..], cmp, middle);
        last := middle;
      } else if c > 0 {
        EarlierBelow(key, s[..], cmp, middle);
        first := middle + 1;
      } else {
        return Some(middle);
      }
    }
    return None;
  }

  lemma LaterAbove<T(!new)>(key: T, s: seq<T>, cmp: (T, T) -> int, m: nat)
    requires Comparison(cmp) && Sorted(s, cmp) && m < |s| && cmp(key, s[m]) < 0
    ensures forall i :: m <= i < |s| ==> cmp(key, s[i]) < 0
  {
    forall i | m < i < |s| ensures cmp(key, s[i]) < 0 {
      var x, y := s[m], s[i];
      assert cmp(x, y) <= 0 && (cmp(y, key) <= 0 ==> cmp(x, key) <= 0);
    }
  }

  lemma EarlierBelow<T(!new)>(key: T, s: seq<T>, cmp: (T, T) -> int, m: nat)
    requires Comparison(cmp) && Sorted(s, cmp) && m < |s| && cmp(key, s[m]) > 0
    ensures forall i :: 0 <= i <= m ==> cmp(key, s[i]) > 0
  {
    forall i | 0 <= i < m ensures cmp(key, s[i]) > 0 {
      var x, y := s[i], s[m];
      assert cmp(x, y) <= 0 && (cmp(key, x) <= 0 ==> cmp(key, y) <= 0);
    }
  }
}
