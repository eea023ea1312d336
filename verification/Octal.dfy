/** Zero-padded octal numbers: printed by `format_integer` of PintOS/src/lib/stdio.c for "%0No", and read by
    `parse_octal_field` of PintOS/src/lib/ustar.c. */
module Octal {
  import opened Prelude

  const ULONG_MAX: nat := 0xffff_ffff

  predicate IsDigit(c: Byte) { 48 <= c <= 55 }

  function DigitValue(c: Byte): nat
    requires IsDigit(c)
  {
    var n: int := c;
    n - 48
  }

  function Digit(d: nat): Byte
    requires d < 8
  {
    48 + d
  }

  /** The last `w` octal digits of `v`, most significant first. */
  function Octals(v: nat, w: nat): (s: seq<Byte>)
    ensures |s| == w && forall i :: 0 <= i < w ==> IsDigit(s[i])
  {
    if w == 0 then [] else Octals(v / 8, w - 1) + [Digit(v % 8)]
  }

  predicate Fits(v: nat, w: nat) { if w == 0 then v == 0 else Fits(v / 8, w - 1) }

  function Pow8(w: nat): nat { if w == 0 then 1 else 8 * Pow8(w - 1) }

  lemma {:induction false} FitsBelow(v: nat, w: nat)
    requires v < Pow8(w)
    ensures Fits(v, w)
  {
    if w > 0 { FitsBelow(v / 8, w - 1); }
  }

  lemma {:induction false} FitsCount(v: nat, w: nat)
    requires w > 0 && Fits(v, w)
    ensures DigitCount(v) <= w
  {
    if w > 1 { FitsCount(v / 8, w - 1); }
  }

  function DigitCount(v: nat): nat { if v < 8 then 1 else 1 + DigitCount(v / 8) }

  /** The number that a string of octal digits denotes. */
  function Denotes(s: seq<Byte>): nat
    requires forall i :: 0 <= i < |s| ==> IsDigit(s[i])
  {
    if s == [] then 0 else Denotes(s[..|s| - 1]) * 8 + DigitValue(s[|s| - 1])
  }

  lemma {:induction false} OctalsDenote(v: nat, w: nat)
    requires Fits(v, w)
    ensures Denotes(Octals(v, w)) == v
  {
    if w > 0 {
      var s := Octals(v, w);
      OctalsDenote(v / 8, w - 1);
      assert s[..w - 1] == Octals(v / 8, w - 1);
    }
  }

  // ---------- printing ----------

  function Reverse(s: seq<Byte>): (r: seq<Byte>)
    ensures |r| == |s|
  {
    if s == [] then [] else Reverse(s[1..]) + [s[0]]
  }

  lemma ReverseSnoc(s: seq<Byte>, c: Byte)
    ensures Reverse(s + [c]) == [c] + Reverse(s)
  {
    if s != [] {
      ReverseSnoc(s[1..], c);
      assert (s + [c])[1..] == s[1..] + [c];
    }
  }

  lemma {:induction false} OctalsCons(v: nat, q: nat, w: nat)
    requires q == Shifted(v, w)
    ensures Octals(v, w + 1) == [Digit(q % 8)] + Octals(v, w)
  {
    if w > 0 { OctalsCons(v / 8, q, w - 1); }
  }

  /** `v` without its last `w` octal digits. */
  function Shifted(v: nat, w: nat): nat { if w == 0 then v else Shifted(v / 8, w - 1) }

  lemma {:induction false} ShiftedNext(v: nat, w: nat)
    ensures Shifted(v, w + 1) == Shifted(v, w) / 8
  {
    if w > 0 { ShiftedNext(v / 8, w - 1); }
  }

  lemma {:induction false} ShiftedCount(v: nat, w: nat)
    ensures Shifted(v, w) == 0 && w > 0 ==> w >= DigitCount(v)
    ensures w < DigitCount(v) && v > 0 ==> Shifted(v, w) > 0
    ensures w >= DigitCount(v) ==> Shifted(v, w) == 0
  {
    if w > 0 { ShiftedCount(v / 8, w - 1); }
    if v < 8 && w > 0 { ShiftedZero(w - 1); }
  }

  lemma {:induction false} ShiftedZero(w: nat)
    ensures Shifted(0, w) == 0
  {
    if w > 0 { ShiftedZero(w - 1); }
  }

  /** `format_integer` for an unsigned octal conversion with flag ZERO, a field width and no precision: the
      digits go into a buffer backwards, and come out forwards behind the padding. */
  method FormatOctal(value0: nat, width: nat) returns (out: seq<Byte>)
    ensures out == Octals(value0, if width > DigitCount(value0) then width else DigitCount(value0))
  {
    hide Octals, Shifted, DigitCount, Reverse;
    var value, buf: seq<Byte> := value0, [];
    FormatStarts(value0);
    while value > 0
      invariant value == Shifted(value0, |buf|) && Reverse(buf) == Octals(value0, |buf|)
      invariant |buf| <= DigitCount(value0)
    {
      ShiftedCount(value0, |buf|);
      OctalsCons(value0, value, |buf|);
      ShiftedNext(value0, |buf|);
      ReverseSnoc(buf, Digit(value % 8));
      buf := buf + [Digit(value % 8)];
      value := value / 8;
    }
    ShiftedCount(value0, |buf|);
    ZeroDigits([]);
    while |buf| < 1
      invariant value0 == 0 || |buf| == DigitCount(value0)
      invariant |buf| <= 1 || value0 > 0
      invariant Reverse(buf) == Octals(value0, |buf|)
      decreases 1 - |buf|
    {
      buf := buf + [48];
    }
    var n := |buf|;
    out := [];
    var padCnt := if width > n then width - n else 0;
    for i := 0 to padCnt
      invariant out + Octals(value0, n) == Octals(value0, n + i)
    {
      ShiftedCount(value0, n + i);
      OctalsCons(value0, 0, n + i);
      assert ([48] + out) + Octals(value0, n) == [48] + (out + Octals(value0, n));
      AllZeros(out, value0, n, i);
      out := out + [48];
    }
    out := out + Reverse(buf);
  }

  lemma FormatStarts(v: nat)
    ensures Shifted(v, 0) == v && Reverse([]) == Octals(v, 0) == [] && DigitCount(v) >= 1
    ensures (v == 0 ==> DigitCount(v) == 1)
  {
  }

  lemma ZeroDigits(buf: seq<Byte>)
    requires buf == []
    ensures Reverse(buf + [48]) == Octals(0, 1)
  {
  }

  lemma AllZeros(out: seq<Byte>, v: nat, n: nat, i: nat)
    requires out + Octals(v, n) == Octals(v, n + i) && n >= DigitCount(v)
    ensures out + [48] == [48] + out
  {
    var s := Octals(v, n + i);
    forall k | 0 <= k < i ensures s[k] == 48 { LeadingZeros(v, n, i, k); }
    assert out == s[..i];
  }

  lemma {:induction false} LeadingZeros(v: nat, n: nat, i: nat, k: nat)
    requires n >= DigitCount(v) && k < i
    ensures Octals(v, n + i)[k] == 48
    decreases i
  {
    ShiftedCount(v, n + i - 1);
    OctalsCons(v, 0, n + i - 1);
    if k > 0 { LeadingZeros(v, n, i - 1, k - 1); }
  }

  // ---------- parsing ----------

  function ParseFrom(s: seq<Byte>, ofs: nat, value: nat): Option<nat>
    requires ofs <= |s|
    decreases |s| - ofs
  {
    if ofs == |s| then None
    else if IsDigit(s[ofs]) then
      if value > ULONG_MAX / 8 then None else ParseFrom(s, ofs + 1, DigitValue(s[ofs]) + value * 8)
    else if s[ofs] == 32 || s[ofs] == 0 then (if ofs > 0 then Some(value) else None)
    else None
  }

  /** `parse_octal_field` */
  method ParseOctalField(s: seq<Byte>) returns (r: Option<nat>)
    ensures r == ParseFrom(s, 0, 0)
  {
    var value: nat, ofs: nat := 0, 0;
    while ofs < |s|
      invariant ofs <= |s| && ParseFrom(s, 0, 0) == ParseFrom(s, ofs, value)
    {
      var c := s[ofs];
      if 48 <= c <= 55 {
        if value > ULONG_MAX / 8 { return None; }
        value := DigitValue(c) + value * 8;
      } else if c == 32 || c == 0 {
        return if ofs > 0 then Some(value) else None;
      } else {
        return None;
      }
      ofs := ofs + 1;
    }
    return None;
  }

  /** `s` starts with `k` octal digits, ended by a space or a null byte. */
  predicate DigitsThenEnd(s: seq<Byte>, k: nat) {
    0 < k < |s| && (forall i :: 0 <= i < k ==> IsDigit(s[i])) && (s[k] == 32 || s[k] == 0)
  }

  lemma DenotesNext(s: seq<Byte>, k: nat)
    requires k < |s| && forall i :: 0 <= i <= k ==> IsDigit(s[i])
    ensures Denotes(s[..k + 1]) == Denotes(s[..k]) * 8 + DigitValue(s[k])
  {
    assert s[..k + 1][..k] == s[..k];
  }

  lemma {:induction false} DenotesGrows(s: seq<Byte>, j: nat, k: nat)
    requires j <= k <= |s| && forall i :: 0 <= i < k ==> IsDigit(s[i])
    ensures Denotes(s[..j]) <= Denotes(s[..k])
    decreases k
  {
    if j < k {
      DenotesGrows(s, j, k - 1);
      DenotesNext(s, k - 1);
    }
  }

  lemma {:induction false} ParsesDigits(s: seq<Byte>, ofs: nat, k: nat)
    requires DigitsThenEnd(s, k) && ofs <= k
    ensures ParseFrom(s, ofs, Denotes(s[..ofs])) ==
            if ofs == k || Denotes(s[..k]) <= ULONG_MAX then Some(Denotes(s[..k])) else None
    decreases k - ofs
  {
    if ofs < k {
      DenotesNext(s, ofs);
      DenotesGrows(s, ofs + 1, k);
      ParsesDigits(s, ofs + 1, k);
    }
  }

  lemma {:induction false} ParsedWasDigits(s: seq<Byte>, ofs: nat, value: nat)
    requires ofs <= |s| && (forall i :: 0 <= i < ofs ==> IsDigit(s[i])) && ParseFrom(s, ofs, value).Some?
    ensures exists k :: DigitsThenEnd(s, k)
    decreases |s| - ofs
  {
    if IsDigit(s[ofs]) {
      ParsedWasDigits(s, ofs + 1, DigitValue(s[ofs]) + value * 8);
    } else {
      assert DigitsThenEnd(s, ofs);
    }
  }

  /** A field parses exactly when it is some octal digits and an end mark, for a number of 32 bits; the overflow
      test is exact. */
  lemma ParseIff(s: seq<Byte>, v: nat)
    ensures ParseFrom(s, 0, 0) == Some(v) <==> exists k: nat :: DigitsThenEnd(s, k) && Denotes(s[..k]) == v <= ULONG_MAX
  {
    assert Denotes(s[..0]) == 0;
    if ParseFrom(s, 0, 0) == Some(v) {
      ParsedWasDigits(s, 0, 0);
      var k :| DigitsThenEnd(s, k);
      ParsesDigits(s, 0, k);
    }
    if k: nat :| DigitsThenEnd(s, k) && Denotes(s[..k]) == v <= ULONG_MAX { ParsesDigits(s, 0, k); }
  }

  /** A printed field parses back, whatever follows its end mark. */
  lemma PrintedParses(v: nat, w: nat, rest: seq<Byte>)
    requires w > 0 && Fits(v, w) && v <= ULONG_MAX
    ensures ParseFrom(Octals(v, w) + [0] + rest, 0, 0) == Some(v)
  {
    var s := Octals(v, w) + [0] + rest;
    assert s[..w] == Octals(v, w) && s[w] == 0;
    assert forall i :: 0 <= i < w ==> s[i] == Octals(v, w)[i];
    OctalsDenote(v, w);
    assert DigitsThenEnd(s, w);
    ParseIff(s, v);
  }
}
