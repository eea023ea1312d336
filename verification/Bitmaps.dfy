/** The bitmap of PintOS/src/lib/kernel/bitmap.c: a sequence of bits packed into 32-bit words, with
    first-fit search for a run of equal bits. */
module Bitmaps {
  import opened Prelude
  import opened BitWords

  // ---------- what the operations mean on bits ----------

  predicate Uniform(bits: seq<bool>, start: nat, cnt: nat, value: bool) {
    start + cnt <= |bits| && forall i :: start <= i < start + cnt ==> bits[i] == value
  }

  function Filled(bits: seq<bool>, start: nat, cnt: nat, value: bool): (r: seq<bool>)
    requires start + cnt <= |bits|
    ensures |r| == |bits|
  {
    seq(|bits|, i requires 0 <= i < |bits| => if start <= i < start + cnt then value else bits[i])
  }

  /** `idx` is the first run of `cnt` bits equal to `value` at or after `start`. */
  ghost predicate IsFirstRun(bits: seq<bool>, start: nat, cnt: nat, value: bool, idx: Option<nat>) {
    match idx
    case Some(i) =>
      start <= i && Uniform(bits, i, cnt, value) && forall j :: start <= j < i ==> !Uniform(bits, j, cnt, value)
    case None => forall j :: start <= j ==> !Uniform(bits, j, cnt, value)
  }

  /** Taking a free run and giving it back restores the bits. */
  lemma FillUndone(bits: seq<bool>, start: nat, cnt: nat, value: bool)
    requires Uniform(bits, start, cnt, value)
    ensures Filled(Filled(bits, start, cnt, !value), start, cnt, value) == bits
  {
  }

  // ---------- the packed representation ----------

  ghost function Unpack(words: seq<bv32>, n: nat): (bits: seq<bool>)
    requires n <= ELEM_BITS * |words|
    ensures |bits| == n
  {
    seq(n, i requires 0 <= i < n => Bit(words[i / ELEM_BITS], i % ELEM_BITS))
  }

  /** Changing one bit of one word changes that one bit. */
  lemma UnpackUpdate(words: seq<bv32>, n: nat, idx: nat, value: bool)
    requires idx < n <= ELEM_BITS * |words|
    ensures var e := idx / ELEM_BITS;
            Unpack(words[e := Updated(words[e], idx % ELEM_BITS, value)], n) == Unpack(words, n)[idx := value]
  {
    hide Bit, Updated;
    var e, k := idx / ELEM_BITS, idx % ELEM_BITS;
    var words' := words[e := Updated(words[e], k, value)];
    var a, b := Unpack(words', n), Unpack(words, n)[idx := value];
    forall i | 0 <= i < n ensures a[i] == b[i] {
      UpdatedBit(words[e], k, value, i % ELEM_BITS);
    }
  }

  class Bitmap {
    const bitCnt: nat
    const words: array<bv32>

    ghost predicate Valid() {
      words.Length == (bitCnt + ELEM_BITS - 1) / ELEM_BITS
    }

    ghost function Bits(): (bits: seq<bool>)
      requires Valid()
      reads words
      ensures |bits| == bitCnt
    {
      Unpack(words[..], bitCnt)
    }

    /** `bitmap_create` */
    constructor (n: nat)
      ensures Valid() && bitCnt == n && fresh(words) && Uniform(Bits(), 0, n, false)
    {
      bitCnt := n;
      words := new bv32[(n + ELEM_BITS - 1) / ELEM_BITS](_ => 0);
      new;
      assert forall i :: 0 <= i < |words[..]| ==> words[..][i] == 0;
    }

    /** `bitmap_set` */
    method Set(idx: nat, value: bool)
      requires Valid() && idx < bitCnt
      modifies words
      ensures Bits() == old(Bits())[idx := value]
    {
      hide Unpack, Bit, Updated;
      var e, k := idx / ELEM_BITS, idx % ELEM_BITS;
      ghost var before := words[..];
      UnpackUpdate(before, bitCnt, idx, value);
      words[e] := Updated(words[e], k, value);
      assert words[..] == before[e := words[e]];
    }

    /** `bitmap_test` */
    method Test(idx: nat) returns (value: bool)
      requires Valid() && idx < bitCnt
      ensures value == Bits()[idx]
    {
      value := Bit(words[idx / ELEM_BITS], idx % ELEM_BITS);
    }

    /** `bitmap_set_multiple` */
    method SetMultiple(start: nat, cnt: nat, value: bool)
      requires Valid() && start + cnt <= bitCnt
      modifies words
      ensures Bits() == Filled(old(Bits()), start, cnt, value)
    {
      ghost var before := Bits();
      for i := 0 to cnt
        invariant Bits() == Filled(before, start, i, value)
      {
        Set(start + i, value);
        assert Filled(before, start, i + 1, value) == Filled(before, start, i, value)[start + i := value];
      }
    }

    /** `bitmap_contains` */
    method Contains(start: nat, cnt: nat, value: bool) returns (found: bool)
      requires Valid() && start + cnt <= bitCnt
      ensures found <==> !Uniform(Bits(), start, cnt, !value)
    {
      for i := 0 to cnt
        invariant Uniform(Bits(), start, i, !value)
      {
        var b := Test(start + i);
        if b == value { return true; }
      }
      return false;
    }

    /** `bitmap_scan`; `None` is BITMAP_ERROR. */
    method Scan(start: nat, cnt: nat, value: bool) returns (idx: Option<nat>)
      requires Valid() && start <= bitCnt
      ensures IsFirstRun(Bits(), start, cnt, value, idx)
    {
      if cnt <= bitCnt {
        var i := start;
        while i <= bitCnt - cnt
          invariant start <= i
          invariant forall j :: start <= j < i ==> !Uniform(Bits(), j, cnt, value)
        {
          var other := Contains(i, cnt, !value);
          if !other { return Some(i); }
          i := i + 1;
        }
      }
      return None;
    }

    /** `bitmap_scan_and_flip` */
    method ScanAndFlip(start: nat, cnt: nat, value: bool) returns (idx: Option<nat>)
      requires Valid() && start <= bitCnt
      modifies words
      ensures IsFirstRun(old(Bits()), start, cnt, value, idx)
      ensures Bits() == if idx.Some? then Filled(old(Bits()), idx.value, cnt, !value) else old(Bits())
    {
      idx := Scan(start, cnt, value);
      if idx.Some? { SetMultiple(idx.value, cnt, !value); }
    }
  }
}
