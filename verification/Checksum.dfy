/** The Internet checksum of computer-networks/PA2/user/simpleMachine.cpp, and the IP headers it seals. */
module Checksum {
  import opened Prelude

  const ONES: int := 0xffff

  /** Two bytes, and four, in network order. */
  function Be16(hi: int, lo: int): int { hi * 0x100 + lo }

  function Be32(a: int, b: int, c: int, d: int): int { Be16(a, b) * 0x1_0000 + Be16(c, d) }

  /** The sum of the big-endian 16-bit words, an odd last byte padded with zero. */
  function WordSum(b: seq<Byte>): nat {
    if b == [] then 0
    else if |b| == 1 then Be16(b[0], 0)
    else Be16(b[0], b[1]) + WordSum(b[2..])
  }

  /** The representative of `s` modulo 65535 in 1..65535. */
  function Residue(s: nat): (r: nat)
    ensures 1 <= r <= ONES
  {
    if s % ONES == 0 then ONES else s % ONES
  }

  function Checksum(b: seq<Byte>): (c: nat)
    ensures 0 <= c < ONES
  {
    ONES - Residue(WordSum(b))
  }

  /** The one's-complement sum of RFC 1071: carries out of 16 bits are added back in. */
  function Fold(s: nat): nat
    decreases s
  {
    if s <= ONES then s else Fold(s % 0x1_0000 + s / 0x1_0000)
  }

  lemma {:induction false} FoldResidue(s: nat)
    ensures Fold(s) == if s == 0 then 0 else Residue(s)
    decreases s
  {
    if s > ONES {
      var t := s % 0x1_0000 + s / 0x1_0000;
      assert s == t + ONES * (s / 0x1_0000);
      FoldResidue(t);
      Shifted(t, s / 0x1_0000);
    }
  }

  lemma Shifted(t: nat, q: nat)
    ensures (t + ONES * q) % ONES == t % ONES
  {
  }

  /** `get_checksum` is the complement of the RFC 1071 sum, except on an all-zero buffer, where it picks the
      other representation of zero. */
  lemma ComplementOfSumIff(b: seq<Byte>)
    ensures Checksum(b) == ONES - Fold(WordSum(b)) <==> exists i :: 0 <= i < |b| && b[i] != 0
  {
    FoldResidue(WordSum(b));
    SumZeroIff(b);
  }

  lemma {:induction false} SumZeroIff(b: seq<Byte>)
    ensures WordSum(b) == 0 <==> forall i :: 0 <= i < |b| ==> b[i] == 0
  {
    if |b| >= 2 {
      SumZeroIff(b[2..]);
      assert forall i :: 2 <= i < |b| ==> b[i] == b[2..][i - 2];
    }
  }

  lemma {:induction false} WordSumConcat(a: seq<Byte>, b: seq<Byte>)
    requires |a| % 2 == 0
    ensures WordSum(a + b) == WordSum(a) + WordSum(b)
  {
    if a == [] {
      assert a + b == b;
    } else {
      WordSumConcat(a[2..], b);
      assert (a + b)[2..] == a[2..] + b;
    }
  }

  lemma NextWord(b: seq<Byte>, i: nat)
    requires i % 2 == 0 && i + 1 < |b|
    ensures WordSum(b[..i + 2]) == WordSum(b[..i]) + Be16(b[i], b[i + 1])
  {
    WordSumConcat(b[..i], b[i..i + 2]);
    assert b[..i + 2] == b[..i] + b[i..i + 2];
    assert b[i..i + 2][2..] == [];
  }

  /** Lines 74-77: adding a word keeps the accumulator in 1..65535 and congruent to the sum. */
  lemma AddWord(s: nat, w: nat)
    requires w <= ONES
    ensures Residue(s + w) == (if Residue(s) + w > ONES then Residue(s) + w - ONES else Residue(s) + w)
  {
  }

  lemma NoWords()
    ensures WordSum([]) == 0 && Residue(0) == ONES
  {
  }

  lemma LastByte(b: Byte)
    ensures WordSum([b]) == Be16(b, 0)
  {
  }

  method GetChecksum(buf: seq<Byte>) returns (c: nat)
    ensures c == Checksum(buf)
  {
    hide WordSum, Residue;
    NoWords();
    var acc: nat := 0xffff;
    var i := 0;
    while i + 1 < |buf|
      invariant i % 2 == 0 && i <= |buf| && acc == Residue(WordSum(buf[..i]))
    {
      NextWord(buf, i);
      AddWord(WordSum(buf[..i]), Be16(buf[i], buf[i + 1]));
      acc := acc + Be16(buf[i], buf[i + 1]);
      if acc > 0xffff { acc := acc - 0xffff; }
      i := i + 2;
    }
    assert buf == buf[..i] + buf[i..];
    WordSumConcat(buf[..i], buf[i..]);
    if |buf| % 2 == 1 {
      var word := Be16(buf[|buf| - 1], 0);
      assert buf[i..] == [buf[|buf| - 1]];
      LastByte(buf[|buf| - 1]);
      AddWord(WordSum(buf[..i]), word);
      acc := acc + word;
      if acc > 0xffff { acc := acc - 0xffff; }
    }
    c := 0xffff - acc;
  }

  // ---------- sealing and testing ----------

  function Word(b: seq<Byte>, k: nat): nat
    requires k + 1 < |b|
  {
    Be16(b[k], b[k + 1])
  }

  function WithWord(b: seq<Byte>, k: nat, w: nat): (r: seq<Byte>)
    requires k + 1 < |b| && w <= ONES
    ensures |r| == |b|
  {
    b[k := w / 256][k + 1 := w % 256]
  }

  lemma WithWordSum(b: seq<Byte>, k: nat, w: nat)
    requires k % 2 == 0 && k + 1 < |b| && w <= ONES
    ensures WordSum(WithWord(b, k, w)) == WordSum(b) - Word(b, k) + w
  {
    hide WordSum;
    var c := WithWord(b, k, w);
    SplitSum(b, k);
    SplitSum(c, k);
    assert b[..k] == c[..k] && b[k + 2..] == c[k + 2..];
  }

  lemma SplitSum(b: seq<Byte>, k: nat)
    requires k % 2 == 0 && k + 1 < |b|
    ensures WordSum(b) == WordSum(b[..k]) + Word(b, k) + WordSum(b[k + 2..])
  {
    hide WordSum;
    NextWord(b, k);
    assert b == b[..k + 2] + b[k + 2..];
    WordSumConcat(b[..k + 2], b[k + 2..]);
  }

  /** Zero the checksum word, and store the checksum of the result there. */
  function Sealed(b: seq<Byte>, k: nat): seq<Byte>
    requires k + 1 < |b|
  {
    var zeroed := WithWord(b, k, 0);
    WithWord(zeroed, k, Checksum(zeroed))
  }

  /** The receivers' test passes exactly when the word sum is a multiple of 65535. */
  lemma TestIff(b: seq<Byte>)
    ensures Checksum(b) == 0 <==> WordSum(b) % ONES == 0
  {
  }

  /** Sealing a buffer of any length at any aligned word makes the receivers' test return 0. */
  lemma SealedPasses(b: seq<Byte>, k: nat)
    requires k % 2 == 0 && k + 1 < |b|
    ensures Checksum(Sealed(b, k)) == 0
  {
    var zeroed := WithWord(b, k, 0);
    WithWordSum(b, k, 0);
    WithWordSum(zeroed, k, Checksum(zeroed));
    var s := WordSum(zeroed);
    assert (s + ONES - Residue(s)) % ONES == 0 by { Complemented(s); }
  }

  lemma Complemented(s: nat)
    ensures (s + ONES - Residue(s)) % ONES == 0
  {
    var q := s / ONES;
    assert s == q * ONES + s % ONES;
  }

  /** A sealed buffer with one word changed still passes only if the word went between 0 and 0xffff. */
  lemma ChangedWordPassesIff(b: seq<Byte>, k: nat, w: nat)
    requires k % 2 == 0 && k + 1 < |b| && w <= ONES && Checksum(b) == 0
    ensures Checksum(WithWord(b, k, w)) == 0 <==> w == Word(b, k) || {w, Word(b, k)} == {0, ONES}
  {
    WithWordSum(b, k, w);
    TestIff(b);
    TestIff(WithWord(b, k, w));
    SameResidue(WordSum(b), w - Word(b, k));
    assert w - Word(b, k) == ONES <==> w == ONES && Word(b, k) == 0;
    assert w - Word(b, k) == -ONES <==> w == 0 && Word(b, k) == ONES;
    var s := {w, Word(b, k)};
    assert w in s && Word(b, k) in s;
  }

  lemma SameResidue(s: nat, d: int)
    requires s % ONES == 0 && -ONES <= d <= ONES && s + d >= 0
    ensures (s + d) % ONES == 0 <==> d == 0 || d == ONES || d == -ONES
  {
  }

  // ---------- IP headers ----------

  const IP_CHECKSUM: nat := 10

  /** The IP part of `fill_header`, on 20 bytes that may hold anything. */
  method FillIpHeader(h: array<Byte>, dataLength: nat, srcIp: nat, dstIp: nat)
    requires h.Length == 20 && srcIp < 0x1_0000_0000 && dstIp < 0x1_0000_0000
    modifies h
    ensures h[0] == 0x45 && h[1] == 0 && Be16(h[2], h[3]) == (29 + dataLength) % 0x1_0000
    ensures h[4] == h[5] == h[6] == h[7] == 0 && h[8] == 64 && h[9] == 17
    ensures Be32(h[12], h[13], h[14], h[15]) == srcIp
    ensures Be32(h[16], h[17], h[18], h[19]) == dstIp
    ensures Checksum(h[..]) == 0
  {
    h[0], h[1] := 0x45, 0;
    PutWord(h, 2, (29 + dataLength) % 0x1_0000);
    PutWord(h, 4, 0);
    PutWord(h, 6, 0);
    h[8], h[9] := 64, 17;
    PutWord(h, 12, srcIp / 0x1_0000);
    PutWord(h, 14, srcIp % 0x1_0000);
    PutWord(h, 16, dstIp / 0x1_0000);
    PutWord(h, 18, dstIp % 0x1_0000);
    Seal(h);
  }

  method PutWord(h: array<Byte>, k: nat, w: nat)
    requires k + 1 < h.Length && w <= ONES
    modifies h
    ensures h[..] == WithWord(old(h[..]), k, w)
    ensures h[k] == w / 256 && h[k + 1] == w % 256
    ensures forall i :: 0 <= i < h.Length && i != k && i != k + 1 ==> h[i] == old(h[i])
  {
    h[k], h[k + 1] := w / 256, w % 256;
  }

  /** `header_checksum = 0; header_checksum = get_checksum(...)` */
  method Seal(h: array<Byte>)
    requires h.Length == 20
    modifies h
    ensures h[..] == Sealed(old(h[..]), IP_CHECKSUM) && Checksum(h[..]) == 0
    ensures forall i :: 0 <= i < 20 && i != 10 && i != 11 ==> h[i] == old(h[i])
  {
    SealedPasses(h[..], IP_CHECKSUM);
    PutWord(h, IP_CHECKSUM, 0);
    var c := GetChecksum(h[..]);
    PutWord(h, IP_CHECKSUM, c);
  }

  /** `TTL--` on an unsigned byte. */
  function LessOne(ttl: int): Byte { (ttl - 1) % 256 }

  /** The rewrite of a forwarded header: a new address at byte `k`, one hop less, and a fresh checksum. */
  method Rewrite(h: array<Byte>, k: nat, ip: nat)
    requires h.Length == 20 && k in {12, 16} && ip < 0x1_0000_0000
    modifies h
    ensures Be32(h[k], h[k + 1], h[k + 2], h[k + 3]) == ip
    ensures h[8] == LessOne(old(h[8])) && Checksum(h[..]) == 0
    ensures forall i :: 0 <= i < 20 && !(k <= i < k + 4) && i !in {8, 10, 11} ==> h[i] == old(h[i])
  {
    PutWord(h, k, ip / 0x1_0000);
    PutWord(h, k + 2, ip % 0x1_0000);
    h[8] := LessOne(h[8]);
    Seal(h);
  }
}
