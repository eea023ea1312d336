/** `DL_SORT2` of operating-system/hw2/utlist.h: an in-place, bottom-up merge sort of a doubly linked
    list, relinking `next` and `prev`. */
module ListSort {
  import opened Prelude
  import opened StableMerge

  ghost predicate Within<K>(t: seq<Node<K>>, s: seq<Node<K>>) {
    forall k :: 0 <= k < |t| ==> t[k] in s
  }

  /** From position `i` on, `next` walks along `s` to its null end. */
  ghost predicate NextFrom<K>(s: seq<Node<K>>, i: int, j: int)
    reads s
  {
    forall k :: 0 <= k < |s| && i <= k < j ==> s[k].next == if k + 1 < |s| then s[k + 1] else null
  }

  /** The list shape of utlist: null-terminated `next`, `prev` its inverse, and the head's `prev` the tail. */
  ghost predicate DList<K>(head: Node?<K>, s: seq<Node<K>>)
    reads s
  {
    if s == [] then head == null
    else
      && Distinct(s) && head == s[0] && NextFrom(s, 0, |s|)
      && s[0].prev == s[|s| - 1]
      && forall k :: 0 < k < |s| ==> s[k].prev == s[k - 1]
  }

  /** A partial output list: links in order, the first `prev` null, the last `next` not yet set. */
  ghost predicate Built<K>(head: Node?<K>, tail: Node?<K>, out: seq<Node<K>>)
    reads out
  {
    if out == [] then head == null && tail == null
    else
      && head == out[0] && tail == out[|out| - 1] && Distinct(out) && out[0].prev == null
      && (forall k :: 0 < k < |out| ==> out[k].prev == out[k - 1])
      && (forall k :: 0 <= k < |out| - 1 ==> out[k].next == out[k + 1])
  }

  /** Lines 262-272: hang element `e` onto the output list. */
  method Append<K>(head: Node?<K>, tail: Node?<K>, e: Node<K>, ghost out: seq<Node<K>>) returns (head': Node<K>)
    requires Built(head, tail, out) && e !in out
    modifies if tail == null then {e} else {e, tail}
    ensures Built(head', e, out + [e]) && e.next == old(e.next)
    ensures tail != null ==> tail.prev == old(tail.prev)
  {
    ghost var n := |out|;
    if tail != null {
      assert tail == out[n - 1];
      tail.next := e;
      head' := head;
    } else {
      head' := e;
    }
    e.prev := tail;
  }

  /** Lines 225-234: step `q` over at most `insize` elements of the run that starts at `p`. */
  method Split<K>(p: Node<K>, insize: nat, ghost s: seq<Node<K>>, ghost a: nat) returns (q: Node?<K>, psize: nat)
    requires a < |s| && p == s[a] && NextFrom(s, a, |s|) && insize > 0
    ensures psize == Min(insize, |s| - a) && q == if a + psize < |s| then s[a + psize] else null
  {
    hide NextFrom;
    q, psize := p, 0;
    var i := 0;
    while i < insize
      invariant i == psize <= insize && psize < |s| - a && q == s[a + psize]
    {
      NextIs(s, a, |s|, a + psize);
      psize := psize + 1;
      q := q.next;
      if q == null { break; }
      i := i + 1;
    }
  }

  lemma MergeStep<K>(s: seq<Node<K>>, a: nat, mid: nat, b: nat, e: nat, leq: (K, K) -> bool)
    requires a <= mid <= b <= e <= |s| && (a < mid || b < e)
    ensures var fromP := a < mid && (b == e || leq(s[a].key, s[b].key));
            Merge(s[a..mid], s[b..e], leq) ==
            if fromP then [s[a]] + Merge(s[a + 1..mid], s[b..e], leq) else [s[b]] + Merge(s[a..mid], s[b + 1..e], leq)
  {
    var x, y := s[a..mid], s[b..e];
    if a < mid { assert x[0] == s[a] && x[1..] == s[a + 1..mid]; }
    if b < e { assert y[0] == s[b] && y[1..] == s[b + 1..e]; }
  }

  /** While merging: `s[a..mid]` and `s[b..]` are still linked as they were, and are not in the output. */
  ghost predicate Merging<K>(s: seq<Node<K>>, out: seq<Node<K>>, head: Node?<K>, tail: Node?<K>, a: nat, mid: nat,
                             b: nat)
    reads s, out
  {
    && NextFrom(s, a, mid) && NextFrom(s, b, |s|) && Built(head, tail, out)
    && Within(out, s)
    && (forall k :: 0 <= k < |s| && (a <= k < mid || b <= k) ==> s[k] !in out)
  }

  /** Move the next element of one of the two runs to the output. */
  method Take<K>(head: Node?<K>, tail: Node?<K>, n: Node<K>, fromP: bool, ghost s: seq<Node<K>>,
                 ghost out: seq<Node<K>>,
                 ghost a: nat, ghost mid: nat, ghost b: nat) returns (head': Node<K>)
    requires Distinct(s) && a <= mid <= b <= |s| && Merging(s, out, head, tail, a, mid, b)
    requires if fromP then a < mid && n == s[a] else b < |s| && n == s[b]
    modifies s
    ensures Merging(s, out + [n], head', n, if fromP then a + 1 else a, mid, if fromP then b else b + 1)
  {
    assert tail != null ==> tail in out && tail in s;
    assert n in s && n !in out;
    ghost var a', b' := if fromP then a + 1 else a, if fromP then b else b + 1;
    assert forall k :: 0 <= k < |s| && (a' <= k < mid || b' <= k) ==> s[k] != n && s[k] != tail;
    label before:
    head' := Append(head, tail, n, out);
    assert forall k :: 0 <= k < |s| && (a' <= k < mid || b' <= k) ==> s[k].next == old@before(s[k].next);
    assert NextFrom(s, a', mid) && NextFrom(s, b', |s|);
  }

  /** Moving the chosen element to the output keeps output plus what is left to merge. */
  lemma MergeMoves<K>(s: seq<Node<K>>, out: seq<Node<K>>, a: nat, mid: nat, b: nat, e: nat, leq: (K, K) -> bool)
    requires a <= mid <= b <= e <= |s| && (a < mid || b < e)
    ensures out + Merge(s[a..mid], s[b..e], leq) ==
            if a < mid && (b == e || leq(s[a].key, s[b].key)) then out + [s[a]] + Merge(s[a + 1..mid], s[b..e], leq)
            else out + [s[b]] + Merge(s[a..mid], s[b + 1..e], leq)
  {
    hide Merge;
    MergeStep(s, a, mid, b, e, leq);
  }

  /** The variables of the merge loop: `p` and `q` are the heads of what is left of the two runs. */
  ghost predicate AtRuns<K>(s: seq<Node<K>>, p: Node?<K>, psize: int, q: Node?<K>, qsize: int, a: nat, mid: nat,
                            b: nat, e: nat) {
    && a <= mid <= b <= e <= |s| && psize == mid - a && qsize >= e - b && (qsize > e - b ==> e == |s|)
    && (a < mid ==> p == s[a]) && q == if b < |s| then s[b] else null
  }

  /** Lines 237-272: one turn of the merge loop. */
  method MergeTurn<K>(head0: Node?<K>, tail0: Node?<K>, p0: Node?<K>, psize0: int, q0: Node?<K>, qsize0: int,
                      leq: (K, K) -> bool, ghost s: seq<Node<K>>, ghost out: seq<Node<K>>,
                      ghost a: nat, ghost mid: nat, ghost b: nat, ghost e: nat)
    returns (head: Node?<K>, tail: Node<K>, p: Node?<K>, psize: int, q: Node?<K>, qsize: int,
             ghost a': nat, ghost b': nat)
    requires Distinct(s) && AtRuns(s, p0, psize0, q0, qsize0, a, mid, b, e) && Merging(s, out, head0, tail0, a, mid, b)
    requires psize0 > 0 || (qsize0 > 0 && q0 != null)
    modifies s
    ensures AtRuns(s, p, psize, q, qsize, a', mid, b', e) && Merging(s, out + [tail], head, tail, a', mid, b')
    ensures out + [tail] + Merge(s[a'..mid], s[b'..e], leq) == out + Merge(s[a..mid], s[b..e], leq)
    ensures psize + qsize == psize0 + qsize0 - 1
  {
    hide Distinct, NextFrom, Built, Merge;
    MergeMoves(s, out, a, mid, b, e, leq);
    p, psize, q, qsize, a', b' := p0, psize0, q0, qsize0, a, b;
    var fromP := psize0 > 0 && (qsize0 == 0 || q0 == null || leq(p0.key, q0.key));
    if fromP {
      NextIs(s, a, mid, a);
      tail, p, psize, a' := p, p.next, psize - 1, a + 1;
    } else {
      NextIs(s, b, |s|, b);
      tail, q, qsize, b' := q, q.next, qsize - 1, b + 1;
    }
    head := Take(head0, tail0, tail, fromP, s, out, a, mid, b);
  }

  /** Lines 235-273: merge the run `s[a..mid]` at `p` with the run that starts at `q`, onto the output. */
  method MergeRuns<K>(head0: Node?<K>, tail0: Node?<K>, p0: Node<K>, q0: Node?<K>, psize0: nat, insize: nat,
                      leq: (K, K) -> bool, ghost s: seq<Node<K>>, ghost a0: nat, ghost out0: seq<Node<K>>)
    returns (head: Node?<K>, tail: Node?<K>, q: Node?<K>, ghost out: seq<Node<K>>)
    requires Distinct(s) && a0 < |s| && psize0 == Min(insize, |s| - a0) && insize > 0
    requires p0 == s[a0] && q0 == if a0 + psize0 < |s| then s[a0 + psize0] else null
    requires Merging(s, out0, head0, tail0, a0, a0 + psize0, a0 + psize0)
    modifies s
    ensures var mid, e := a0 + psize0, Min(a0 + 2 * insize, |s|);
            && out == out0 + Merge(s[a0..mid], s[mid..e], leq)
            && (q == if e < |s| then s[e] else null)
            && Merging(s, out, head, tail, e, e, e)
  {
    hide Distinct, Merging, Merge;
    ghost var mid: nat, e: nat := a0 + psize0, Min(a0 + 2 * insize, |s|);
    ghost var a: nat, b: nat := a0, mid;
    var p: Node?<K>, psize: int, qsize: int := p0, psize0, insize;
    q, out := q0, out0;
    head, tail := head0, tail0;
    while psize > 0 || (qsize > 0 && q != null)
      invariant AtRuns(s, p, psize, q, qsize, a, mid, b, e)
      invariant Merging(s, out, head, tail, a, mid, b)
      invariant out + Merge(s[a..mid], s[b..e], leq) == out0 + Merge(s[a0..mid], s[mid..e], leq)
      decreases psize + qsize
    {
      head, tail, p, psize, q, qsize, a, b := MergeTurn(head, tail, p, psize, q, qsize, leq, s, out, a, mid, b, e);
      out := out + [tail];
    }
    MergeNothing(s, mid, e, leq);
    MergingDone(s, out, head, tail, mid, e);
  }

  lemma MergingDone<K>(s: seq<Node<K>>, out: seq<Node<K>>, head: Node?<K>, tail: Node?<K>, mid: nat, e: nat)
    requires Merging(s, out, head, tail, mid, mid, e)
    ensures Merging(s, out, head, tail, e, e, e)
  {
  }

  lemma NextIs<K>(s: seq<Node<K>>, i: int, j: int, k: nat)
    requires NextFrom(s, i, j) && k < |s| && i <= k < j
    ensures s[k].next == if k + 1 < |s| then s[k + 1] else null
  {
  }

  lemma MergeNothing<K>(s: seq<Node<K>>, a: nat, e: nat, leq: (K, K) -> bool)
    requires a <= e <= |s|
    ensures Merge(s[a..a], s[e..e], leq) == []
  {
  }

  // ---------- a pass ----------

  lemma PassUnfolds<K>(t: seq<Node<K>>, k: nat, leq: (K, K) -> bool)
    requires k > 0 && t != []
    ensures var m, e := Min(k, |t|), Min(2 * k, |t|);
            Pass(t, k, leq) == Merge(t[..m], t[m..e], leq) + Pass(t[e..], k, leq)
  {
    hide Merge;
  }

  lemma PassSplits<K>(s: seq<Node<K>>, out: seq<Node<K>>, k: nat, a: nat, leq: (K, K) -> bool)
    requires k > 0 && a < |s|
    ensures var mid, e := a + Min(k, |s| - a), Min(a + 2 * k, |s|);
            out + Pass(s[a..], k, leq) == out + Merge(s[a..mid], s[mid..e], leq) + Pass(s[e..], k, leq)
  {
    hide Merge, Pass;
    var t, mid, e := s[a..], a + Min(k, |s| - a), Min(a + 2 * k, |s|);
    var m', e' := Min(k, |t|), Min(2 * k, |t|);
    assert t[..m'] == s[a..mid] && t[m'..e'] == s[mid..e] && t[e'..] == s[e..];
    PassUnfolds(t, k, leq);
  }

  lemma StartMerging<K>(s: seq<Node<K>>, out: seq<Node<K>>, head: Node?<K>, tail: Node?<K>, a: nat, mid: nat)
    requires Merging(s, out, head, tail, a, a, a) && a <= mid
    ensures Merging(s, out, head, tail, a, mid, mid) && NextFrom(s, a, |s|)
  {
  }

  /** Lines 276-279: close the output list at both ends. */
  method Close<K>(head: Node<K>, tail: Node<K>, ghost out: seq<Node<K>>)
    requires Built(head, tail, out)
    modifies out
    ensures DList(head, out)
  {
    head.prev := tail;
    tail.next := null;
  }

  /** Lines 223-274: merge the next two runs of the pass. */
  method PassTurn<K>(head0: Node?<K>, tail0: Node?<K>, p0: Node<K>, insize: nat, leq: (K, K) -> bool,
                     ghost s: seq<Node<K>>, ghost a: nat, ghost out0: seq<Node<K>>)
    returns (head: Node?<K>, tail: Node?<K>, p: Node?<K>, ghost out: seq<Node<K>>)
    requires insize > 0 && a < |s| && p0 == s[a] && Distinct(s) && Merging(s, out0, head0, tail0, a, a, a)
    modifies s
    ensures var e := Min(a + 2 * insize, |s|);
            && (p == if e < |s| then s[e] else null) && Merging(s, out, head, tail, e, e, e)
            && out + Pass(s[e..], insize, leq) == out0 + Pass(s[a..], insize, leq)
  {
    hide Merge, Merging, Built, NextFrom, Pass, Distinct;
    StartMerging(s, out0, head0, tail0, a, a + Min(insize, |s| - a));
    var q, psize := Split(p0, insize, s, a);
    PassSplits(s, out0, insize, a, leq);
    head, tail, p, out := MergeRuns(head0, tail0, p0, q, psize, insize, leq, s, a, out0);
  }

  /** Lines 219-279: one pass merges the runs of length `insize` in pairs, and counts the merges. */
  method SortPass<K>(list: Node<K>, insize: nat, leq: (K, K) -> bool, ghost s: seq<Node<K>>)
    returns (head: Node<K>, nmerges: nat)
    requires insize > 0 && DList(list, s)
    modifies s
    ensures DList(head, Pass(s, insize, leq)) && Within(Pass(s, insize, leq), s)
    ensures nmerges <= 1 <==> |s| <= 2 * insize
  {
    hide Merge, Merging, Built, NextFrom, Pass, Distinct, DList, Within;
    StartsEmpty(list, s);
    var h: Node?<K>, tail: Node?<K> := null, null;
    var p: Node?<K> := list;
    ghost var a: nat, out: seq<Node<K>> := 0, [];
    nmerges := 0;
    ghost var whole := Pass(s, insize, leq);
    assert s[0..] == s;
    while p != null
      invariant a <= |s| && p == (if a < |s| then s[a] else null)
      invariant Distinct(s) && Merging(s, out, h, tail, a, a, a)
      invariant out + Pass(s[a..], insize, leq) == whole
      invariant (nmerges == 0 ==> a == 0) && (nmerges == 1 ==> a == Min(2 * insize, |s|))
      invariant nmerges > 1 ==> |s| > 2 * insize
      decreases |s| - a
    {
      nmerges := nmerges + 1;
      h, tail, p, out := PassTurn(h, tail, p, insize, leq, s, a, out);
      a := Min(a + 2 * insize, |s|);
    }
    PassNothing(s[a..], insize, leq);
    assert out == whole;
    BuiltEnds(s, h, tail, out, a);
    head := h;
    Close(head, tail, out);
  }

  lemma StartsEmpty<K>(list: Node<K>, s: seq<Node<K>>)
    requires DList(list, s)
    ensures s != [] && list == s[0] && Merging(s, [], null, null, 0, 0, 0) && Distinct(s)
  {
  }

  lemma PassNothing<K>(s: seq<Node<K>>, k: nat, leq: (K, K) -> bool)
    requires s == [] && k > 0
    ensures Pass(s, k, leq) == []
  {
  }

  lemma BuiltEnds<K>(s: seq<Node<K>>, head: Node?<K>, tail: Node?<K>, out: seq<Node<K>>, a: nat)
    requires Merging(s, out, head, tail, a, a, a)
    ensures Built(head, tail, out) && Within(out, s) && (out != [] ==> head != null && tail != null)
    ensures forall n :: n in out ==> n in s
  {
  }

  lemma WithinTrans<K>(t: seq<Node<K>>, u: seq<Node<K>>, s: seq<Node<K>>)
    requires Within(t, u) && Within(u, s)
    ensures Within(t, s)
  {
  }

  // ---------- the sort ----------

  lemma PassKeeps<K(!new)>(s: seq<Node<K>>, t: seq<Node<K>>, k: nat, leq: (K, K) -> bool)
    requires TotalPreorder(leq) && k > 0 && RunsSorted(t, k, leq) && StablyEqual(s, t, leq)
    ensures RunsSorted(Pass(t, k, leq), 2 * k, leq) && StablyEqual(s, Pass(t, k, leq), leq)
  {
    PassDoublesRuns(t, k, leq);
    forall x: K ensures Class(s, x, leq) == Class(Pass(t, k, leq), x, leq) { PassStable(t, k, x, leq); }
  }

  lemma OneRun<K>(s: seq<Node<K>>, k: nat, leq: (K, K) -> bool)
    requires k > 0 && |s| <= k && RunsSorted(s, k, leq)
    ensures Sorted(s, leq)
  {
    if s != [] { assert s[..Min(k, |s|)] == s; }
  }

  /** Lines 208-286: the nodes of the list are relinked in sorted order, tied nodes in their old order. */
  method DlSort<K(!new)>(list0: Node?<K>, leq: (K, K) -> bool, ghost s: seq<Node<K>>) returns (list: Node?<K>,
                  ghost t: seq<Node<K>>)
    requires TotalPreorder(leq) && DList(list0, s)
    modifies s
    ensures DList(list, t) && Sorted(t, leq) && StablyEqual(s, t, leq) && multiset(t) == multiset(s)
  {
    hide TotalPreorder, DList, RunsSorted, StablyEqual, Pass;
    list, t := list0, s;
    Reflexive(s, leq);
    NonNull(list, s);
    if list != null {
      var insize, looping := 1, true;
      SingletonRuns(s, leq);
      while looping
        invariant insize > 0 && list != null && DList(list, t) && |t| == |s| && Within(t, s)
        invariant RunsSorted(t, insize, leq) && StablyEqual(s, t, leq)
        invariant !looping ==> |t| <= insize
        decreases looping, |s| - insize
      {
        PassKeeps(s, t, insize, leq);
        var nmerges;
        assert forall n :: n in t ==> n in s;
        list, nmerges := SortPass(list, insize, leq, t);
        WithinTrans(Pass(t, insize, leq), t, s);
        t := Pass(t, insize, leq);
        if nmerges <= 1 { looping := false; }
        insize := insize * 2;
      }
      OneRun(t, insize, leq);
    }
    StableIsPermutation(s, t, leq);
  }

  lemma Reflexive<K(!new)>(s: seq<Node<K>>, leq: (K, K) -> bool)
    ensures StablyEqual(s, s, leq)
  {
  }

  lemma NonNull<K>(list: Node?<K>, s: seq<Node<K>>)
    requires DList(list, s)
    ensures list == null <==> s == []
  {
  }
}
