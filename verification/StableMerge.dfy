/** Bottom-up merge sort on sequences: what the list sorts of operating-system/hw2/utlist.h compute. */
module StableMerge {
  import opened Prelude

  /** A list element: its key never changes, its links do. */
  class Node<K> {
    const key: K
    var prev: Node?<K>
    var next: Node?<K>

    constructor (key: K)
      ensures this.key == key && prev == null && next == null
    {
      this.key, prev, next := key, null, null;
    }
  }

  /** A strcmp-style comparison is a total preorder: `cmp(a, b) <= 0` is reflexive up to ties,
      total and transitive. */
  ghost predicate TotalPreorder<K(!new)>(leq: (K, K) -> bool) {
    && (forall x, y :: leq(x, y) || leq(y, x))
    && (forall x, y, z :: leq(x, y) && leq(y, z) ==> leq(x, z))
  }

  ghost predicate Sorted<K>(s: seq<Node<K>>, leq: (K, K) -> bool) {
    forall i, j :: 0 <= i < j < |s| ==> leq(s[i].key, s[j].key)
  }

  predicate Ties<K>(x: K, y: K, leq: (K, K) -> bool) { leq(x, y) && leq(y, x) }

  /** The elements of `s` that tie with `x`, in order. */
  function Class<K>(s: seq<Node<K>>, x: K, leq: (K, K) -> bool): seq<Node<K>> {
    if s == [] then [] else (if Ties(s[0].key, x, leq) then [s[0]] else []) + Class(s[1..], x, leq)
  }

  /** `t` has the elements of `s`, and tied elements in their old order. */
  ghost predicate StablyEqual<K(!new)>(s: seq<Node<K>>, t: seq<Node<K>>, leq: (K, K) -> bool) {
    forall x: K :: Class(s, x, leq) == Class(t, x, leq)
  }

  /** Merge two runs, taking from the first on ties. */
  function Merge<K>(a: seq<Node<K>>, b: seq<Node<K>>, leq: (K, K) -> bool): (r: seq<Node<K>>)
    ensures |r| == |a| + |b|
  {
    if a == [] then b
    else if b == [] then a
    else if leq(a[0].key, b[0].key) then [a[0]] + Merge(a[1..], b, leq)
    else [b[0]] + Merge(a, b[1..], leq)
  }

  /** One pass of the sort: merge the runs of length `k` in pairs. */
  function Pass<K>(s: seq<Node<K>>, k: nat, leq: (K, K) -> bool): (r: seq<Node<K>>)
    requires k > 0
    ensures |r| == |s|
    decreases |s|
  {
    if s == [] then []
    else
      var m, e := Min(k, |s|), Min(2 * k, |s|);
      Merge(s[..m], s[m..e], leq) + Pass(s[e..], k, leq)
  }

  /** The consecutive runs of length `k` are sorted. */
  ghost predicate RunsSorted<K>(s: seq<Node<K>>, k: nat, leq: (K, K) -> bool)
    requires k > 0
    decreases |s|
  {
    s == [] || (Sorted(s[..Min(k, |s|)], leq) && RunsSorted(s[Min(k, |s|)..], k, leq))
  }

  // ---------- merging ----------

  lemma MergeMembers<K>(a: seq<Node<K>>, b: seq<Node<K>>, leq: (K, K) -> bool, x: Node<K>)
    ensures x in Merge(a, b, leq) <==> x in a || x in b
    decreases |a| + |b|
  {
    if a != [] && b != [] {
      if leq(a[0].key, b[0].key) { MergeMembers(a[1..], b, leq, x); } else { MergeMembers(a, b[1..], leq, x); }
    }
  }

  lemma {:induction false} MergeSorted<K(!new)>(a: seq<Node<K>>, b: seq<Node<K>>, leq: (K, K) -> bool)
    requires TotalPreorder(leq) && Sorted(a, leq) && Sorted(b, leq)
    ensures Sorted(Merge(a, b, leq), leq)
    decreases |a| + |b|
  {
    if a != [] && b != [] {
      var first := leq(a[0].key, b[0].key);
      var head := if first then a[0] else b[0];
      var rest := if first then Merge(a[1..], b, leq) else Merge(a, b[1..], leq);
      if first { MergeSorted(a[1..], b, leq); } else { MergeSorted(a, b[1..], leq); }
      forall i | 0 <= i < |rest| ensures leq(head.key, rest[i].key) {
        if first { MergeMembers(a[1..], b, leq, rest[i]); } else { MergeMembers(a, b[1..], leq, rest[i]); }
        assert rest[i] in rest;
      }
    }
  }

  lemma {:induction false} ClassConcat<K>(a: seq<Node<K>>, b: seq<Node<K>>, x: K, leq: (K, K) -> bool)
    ensures Class(a + b, x, leq) == Class(a, x, leq) + Class(b, x, leq)
  {
    hide Class;
    if a == [] {
      assert a + b == b;
      NoTies(a, x, leq);
    } else {
      ClassConcat(a[1..], b, x, leq);
      assert a + b == [a[0]] + (a[1..] + b) && a == [a[0]] + a[1..];
      ClassCons(a[0], a[1..] + b, x, leq);
      ClassCons(a[0], a[1..], x, leq);
    }
  }

  lemma NoTies<K>(s: seq<Node<K>>, x: K, leq: (K, K) -> bool)
    requires forall i :: 0 <= i < |s| ==> !Ties(s[i].key, x, leq)
    ensures Class(s, x, leq) == []
  {
  }

  lemma ClassCons<K>(n: Node<K>, r: seq<Node<K>>, x: K, leq: (K, K) -> bool)
    ensures Class([n] + r, x, leq) == (if Ties(n.key, x, leq) then [n] else []) + Class(r, x, leq)
  {
    assert ([n] + r)[1..] == r;
  }

  /** Merging sorted runs keeps every tie class, the first run's part before the second's. */
  lemma {:induction false} MergeStable<K(!new)>(a: seq<Node<K>>, b: seq<Node<K>>, x: K, leq: (K, K) -> bool)
    requires TotalPreorder(leq) && Sorted(a, leq) && Sorted(b, leq)
    ensures Class(Merge(a, b, leq), x, leq) == Class(a, x, leq) + Class(b, x, leq)
    decreases |a| + |b|
  {
    hide TotalPreorder, Sorted, Class;
    if a == [] {
      NoTies(a, x, leq);
    } else if b == [] {
      NoTies(b, x, leq);
    } else {
      SortedTail(a, leq);
      SortedTail(b, leq);
      assert a == [a[0]] + a[1..] && b == [b[0]] + b[1..];
      ClassCons(a[0], a[1..], x, leq);
      ClassCons(b[0], b[1..], x, leq);
      if leq(a[0].key, b[0].key) {
        MergeStable(a[1..], b, x, leq);
        ClassCons(a[0], Merge(a[1..], b, leq), x, leq);
      } else {
        MergeStable(a, b[1..], x, leq);
        ClassCons(b[0], Merge(a, b[1..], leq), x, leq);
        if Ties(b[0].key, x, leq) { AllAbove(a, b[0].key, x, leq); }
      }
    }
  }

  lemma SortedTail<K>(a: seq<Node<K>>, leq: (K, K) -> bool)
    requires Sorted(a, leq) && a != []
    ensures Sorted(a[1..], leq)
  {
  }

  lemma AllAbove<K(!new)>(a: seq<Node<K>>, low: K, x: K, leq: (K, K) -> bool)
    requires TotalPreorder(leq) && Sorted(a, leq) && a != [] && !leq(a[0].key, low) && Ties(low, x, leq)
    ensures Class(a, x, leq) == []
  {
    NoTies(a, x, leq);
  }

  // ---------- passes ----------

  lemma {:induction false} PassStable<K(!new)>(s: seq<Node<K>>, k: nat, x: K, leq: (K, K) -> bool)
    requires TotalPreorder(leq) && k > 0 && RunsSorted(s, k, leq)
    ensures Class(Pass(s, k, leq), x, leq) == Class(s, x, leq)
    decreases |s|
  {
    hide TotalPreorder, Sorted, Class, Merge, RunsSorted;
    if s != [] {
      var m, e := Min(k, |s|), Min(2 * k, |s|);
      SecondRun(s, k, leq);
      PassStable(s[e..], k, x, leq);
      MergeStable(s[..m], s[m..e], x, leq);
      ClassConcat(Merge(s[..m], s[m..e], leq), Pass(s[e..], k, leq), x, leq);
      ClassConcat(s[..m], s[m..e], x, leq);
      ClassConcat(s[..e], s[e..], x, leq);
      assert s[..m] + s[m..e] == s[..e] && s[..e] + s[e..] == s;
    }
  }

  lemma SecondRun<K>(s: seq<Node<K>>, k: nat, leq: (K, K) -> bool)
    requires k > 0 && s != [] && RunsSorted(s, k, leq)
    ensures var m, e := Min(k, |s|), Min(2 * k, |s|);
            Sorted(s[..m], leq) && Sorted(s[m..e], leq) && RunsSorted(s[e..], k, leq)
  {
    var m, e := Min(k, |s|), Min(2 * k, |s|);
    var t := s[m..];
    if t == [] {
      assert s[e..] == [];
    } else {
      assert t[..Min(k, |t|)] == s[m..e] && t[Min(k, |t|)..] == s[e..];
    }
  }

  /** A pass over sorted runs leaves sorted runs of twice the length. */
  lemma {:induction false} PassDoublesRuns<K(!new)>(s: seq<Node<K>>, k: nat, leq: (K, K) -> bool)
    requires TotalPreorder(leq) && k > 0 && RunsSorted(s, k, leq)
    ensures RunsSorted(Pass(s, k, leq), 2 * k, leq)
    decreases |s|
  {
    if s != [] {
      var m, e := Min(k, |s|), Min(2 * k, |s|);
      SecondRun(s, k, leq);
      MergeSorted(s[..m], s[m..e], leq);
      PassDoublesRuns(s[e..], k, leq);
      var p, merged := Pass(s, k, leq), Merge(s[..m], s[m..e], leq);
      assert p[..e] == merged && p[e..] == Pass(s[e..], k, leq);
    }
  }

  lemma {:induction false} SingletonRuns<K(!new)>(s: seq<Node<K>>, leq: (K, K) -> bool)
    ensures RunsSorted(s, 1, leq)
    decreases |s|
  {
    if s != [] { SingletonRuns(s[1..], leq); }
  }

  /** Two stably equal sequences are permutations of each other. */
  lemma StableIsPermutation<K(!new)>(s: seq<Node<K>>, t: seq<Node<K>>, leq: (K, K) -> bool)
    requires TotalPreorder(leq) && StablyEqual(s, t, leq)
    ensures multiset(s) == multiset(t)
  {
    forall n | n in multiset(s) + multiset(t) ensures multiset(s)[n] == multiset(t)[n] {
      ClassCount(s, n, leq);
      ClassCount(t, n, leq);
    }
  }

  lemma ClassCount<K(!new)>(s: seq<Node<K>>, n: Node<K>, leq: (K, K) -> bool)
    requires TotalPreorder(leq)
    ensures multiset(Class(s, n.key, leq))[n] == multiset(s)[n]
  {
    if s != [] {
      ClassCount(s[1..], n, leq);
      assert s == [s[0]] + s[1..];
    }
  }
}
