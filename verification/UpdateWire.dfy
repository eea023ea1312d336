/** Where every field of the UPDATE message of computer-networks/PA3/user/sm.cpp lies, in network byte order. */
module UpdateWire {
  import opened Prelude
  import opened PathVector
  import opened UpdateCodec

  /** The number that the bytes spell, the most significant first. */
  function BigEndian(s: seq<Byte>): nat {
    if s == [] then 0 else BigEndian(s[..|s| - 1]) * 256 + ToNat(s[|s| - 1])
  }

  function ToNat(b: Byte): nat { b as int }

  lemma TwoBytes(x: nat)
    requires x < 0x1_0000
    ensures BigEndian(U16(x)) == x
  {
    var s := U16(x);
    assert s[..1] == [s[0]] && s[..1][..0] == [];
    assert BigEndian(s[..1]) == ToNat(s[0]);
  }

  lemma FourBytes(x: nat)
    requires x < 0x1_0000_0000
    ensures BigEndian(U32(x)) == x
  {
    var hi, lo := U16(x / 0x1_0000), U16(x % 0x1_0000);
    TwoBytes(x / 0x1_0000);
    var s := U32(x);
    assert s[..3] == hi + [lo[0]] && s[..3][..2] == hi;
    assert BigEndian(s[..3]) == BigEndian(hi) * 256 + ToNat(lo[0]);
    assert BigEndian(s) == BigEndian(s[..3]) * 256 + ToNat(lo[1]);
    assert ToNat(lo[0]) * 256 + ToNat(lo[1]) == x % 0x1_0000;
  }

  // ---------- the parts ----------

  /** AS number `j` of a path is at bytes `2 * j` and `2 * j + 1` after its length. */
  lemma {:induction false} AsAt(ases: seq<nat>, j: nat)
    requires j < |ases|
    ensures EncodeAses(ases)[2 * j..2 * j + 2] == U16(ases[j])
  {
    hide U16;
    var rest := EncodeAses(ases[1..]);
    assert EncodeAses(ases) == U16(ases[0]) + rest;
    if j > 0 {
      AsAt(ases[1..], j - 1);
      SliceAfter(U16(ases[0]), rest, 2 * j - 2, 2);
    }
  }

  lemma SliceAfter(a: seq<Byte>, b: seq<Byte>, i: nat, n: nat)
    requires i + n <= |b|
    ensures (a + b)[|a| + i..|a| + i + n] == b[i..i + n]
  {
  }

  lemma SliceWithin(b: seq<Byte>, a: nat, m: nat, i: nat, n: nat)
    requires i + n <= m && a + m <= |b|
    ensures b[a..a + m][i..i + n] == b[a + i..a + i + n]
  {
    var part := b[a..a + m];
    assert forall k :: 0 <= k < m ==> part[k] == b[a + k];
  }

  lemma {:induction false} PrefixAtPlace(ps: seq<Prefix>, i: nat)
    requires i < |ps|
    ensures EncodePrefixes(ps)[5 * i..5 * i + 5] == EncodePrefix(ps[i])
  {
    hide EncodePrefix;
    var rest := EncodePrefixes(ps[1..]);
    assert EncodePrefixes(ps) == EncodePrefix(ps[0]) + rest;
    if i > 0 {
      PrefixAtPlace(ps[1..], i - 1);
      SliceAfter(EncodePrefix(ps[0]), rest, 5 * i - 5, 5);
    }
  }

  /** Where path `i` starts among the paths. */
  function PathOffset(rs: seq<Route>, i: nat): nat
    requires i <= |rs|
  {
    if i == 0 then 0 else 2 + 2 * |rs[0].ases| + PathOffset(rs[1..], i - 1)
  }

  lemma {:induction false} PathAtPlace(rs: seq<Route>, i: nat)
    requires i <= |rs|
    ensures |EncodePaths(rs)| == PathOffset(rs, |rs|) && PathOffset(rs, i) <= PathOffset(rs, |rs|)
    ensures i < |rs| ==>
              && PathOffset(rs, i) + 2 + 2 * |rs[i].ases| <= PathOffset(rs, |rs|)
              && EncodePaths(rs)[PathOffset(rs, i)..PathOffset(rs, i) + 2 + 2 * |rs[i].ases|] == EncodePath(rs[i].ases)
    decreases |rs|
  {
    hide EncodePath;
    if rs != [] {
      var first, rest := EncodePath(rs[0].ases), EncodePaths(rs[1..]);
      assert EncodePaths(rs) == first + rest;
      PathAtPlace(rs[1..], if i == 0 then 0 else i - 1);
      if 0 < i < |rs| { SliceAfter(first, rest, PathOffset(rs[1..], i - 1), 2 + 2 * |rs[i].ases|); }
    }
  }

  // ---------- the message ----------

  /** At `a` stands a prefix: four bytes of address and one of mask. */
  ghost predicate PrefixIs(b: seq<Byte>, a: nat, p: Prefix) {
    a + 5 <= |b| && BigEndian(b[a..a + 4]) == p.ip && ToNat(b[a + 4]) == p.mask
  }

  /** At `a` stands a path: two bytes of length and two for each AS. */
  ghost predicate PathIs(b: seq<Byte>, a: nat, ases: seq<nat>) {
    && a + 2 + 2 * |ases| <= |b| && BigEndian(b[a..a + 2]) == |ases|
    && forall j :: 0 <= j < |ases| ==> NumberIs(b, a + 2 + 2 * j, ases[j])
  }

  ghost predicate NumberIs(b: seq<Byte>, a: nat, x: nat) { a + 2 <= |b| && BigEndian(b[a..a + 2]) == x }

  lemma PrefixHere(b: seq<Byte>, a: nat, p: Prefix)
    requires FitsPrefix(p) && a + 5 <= |b| && b[a..a + 5] == EncodePrefix(p)
    ensures PrefixIs(b, a, p)
  {
    hide BigEndian, U32;
    FourBytes(p.ip);
    var s := EncodePrefix(p);
    assert b[a..a + 4] == s[..4] && s[..4] == U32(p.ip) && b[a + 4] == s[4];
  }

  lemma PathHere(b: seq<Byte>, a: nat, ases: seq<nat>)
    requires |ases| < 0x1_0000 && forall j :: 0 <= j < |ases| ==> ases[j] < 0x1_0000
    requires a + 2 + 2 * |ases| <= |b| && b[a..a + 2 + 2 * |ases|] == EncodePath(ases)
    ensures PathIs(b, a, ases)
  {
    hide BigEndian, U16, EncodeAses;
    TwoBytes(|ases|);
    var m := 2 + 2 * |ases|;
    SliceWithin(b, a, m, 0, 2);
    assert EncodePath(ases)[0..2] == U16(|ases|);
    forall j | 0 <= j < |ases| ensures NumberIs(b, a + 2 + 2 * j, ases[j]) {
      AsAt(ases, j);
      TwoBytes(ases[j]);
      SliceWithin(b, a, m, 2 + 2 * j, 2);
      SliceAfter(U16(|ases|), EncodeAses(ases), 2 * j, 2);
    }
  }

  /** Where the fields lie: the withdrawn length and prefixes, the number of paths, the paths, their prefixes. */
  ghost predicate Layout(b: seq<Byte>, withdrawn: seq<Prefix>, rs: seq<Route>) {
    var w, paths := 5 * |withdrawn|, PathOffset(rs, |rs|);
    && |b| == 4 + w + paths + 5 * |rs|
    && NumberIs(b, 0, w) && NumberIs(b, 2 + w, |rs|)
    && (forall i :: 0 <= i < |withdrawn| ==> PrefixIs(b, 2 + 5 * i, withdrawn[i]))
    && (forall i :: 0 <= i < |rs| ==> PathIs(b, 4 + w + PathOffset(rs, i), rs[i].ases))
    && (forall i :: 0 <= i < |rs| ==> PrefixIs(b, 4 + w + paths + 5 * i, rs[i].dest))
  }

  /** Every message that fits is laid out like that, in network byte order. */
  lemma WireLayout(withdrawn: seq<Prefix>, rs: seq<Route>)
    requires Fits(withdrawn, rs)
    ensures Layout(EncodeUpdate(withdrawn, rs), withdrawn, rs)
  {
    hide U16, EncodePrefixes, EncodePaths, PathOffset, PrefixIs, PathIs, BigEndian, FitsRoute, FitsPrefix;
    var b, w := EncodeUpdate(withdrawn, rs), 5 * |withdrawn|;
    PathAtPlace(rs, 0);
    Numbers(withdrawn, rs);
    forall i | 0 <= i < |withdrawn| ensures PrefixIs(b, 2 + 5 * i, withdrawn[i]) { WithdrawnHere(withdrawn, rs, i); }
    forall i | 0 <= i < |rs| ensures PathIs(b, 4 + w + PathOffset(rs, i), rs[i].ases) { RouteHere(withdrawn, rs, i); }
    forall i | 0 <= i < |rs| ensures PrefixIs(b, 4 + w + PathOffset(rs, |rs|) + 5 * i, rs[i].dest) {
      DestHere(withdrawn, rs, i);
    }
  }

  lemma Numbers(withdrawn: seq<Prefix>, rs: seq<Route>)
    requires Fits(withdrawn, rs)
    ensures var b, w := EncodeUpdate(withdrawn, rs), 5 * |withdrawn|; NumberIs(b, 0, w) && NumberIs(b, 2 + w, |rs|)
  {
    hide U16, EncodePrefixes, EncodePaths, BigEndian;
    var b, w := EncodeUpdate(withdrawn, rs), 5 * |withdrawn|;
    TwoBytes(w);
    TwoBytes(|rs|);
    assert b[0..2] == U16(w);
    assert b[2 + w..4 + w] == U16(|rs|);
  }

  lemma WithdrawnHere(withdrawn: seq<Prefix>, rs: seq<Route>, i: nat)
    requires Fits(withdrawn, rs) && i < |withdrawn|
    ensures PrefixIs(EncodeUpdate(withdrawn, rs), 2 + 5 * i, withdrawn[i])
  {
    hide U16, EncodePrefixes, EncodePaths, EncodeAnnounced, EncodePrefix, PrefixIs;
    var b, mid := EncodeUpdate(withdrawn, rs), EncodePrefixes(withdrawn);
    PrefixAtPlace(withdrawn, i);
    assert b[2 + 5 * i..7 + 5 * i] == mid[5 * i..5 * i + 5];
    PrefixHere(b, 2 + 5 * i, withdrawn[i]);
  }

  /** The message is a front of counts and withdrawn prefixes, the paths, and their prefixes. */
  lemma Parts(withdrawn: seq<Prefix>, rs: seq<Route>) returns (front: seq<Byte>)
    ensures |front| == 4 + 5 * |withdrawn|
    ensures EncodeUpdate(withdrawn, rs) == front + (EncodePaths(rs) + EncodePrefixes(Dests(rs)))
  {
    hide U16, EncodePrefixes, EncodePaths;
    front := U16(5 * |withdrawn|) + EncodePrefixes(withdrawn) + U16(|rs|);
  }

  lemma RouteHere(withdrawn: seq<Prefix>, rs: seq<Route>, i: nat)
    requires Fits(withdrawn, rs) && i < |rs|
    ensures PathIs(EncodeUpdate(withdrawn, rs), 4 + 5 * |withdrawn| + PathOffset(rs, i), rs[i].ases)
  {
    hide EncodeUpdate, EncodePrefixes, EncodePaths, EncodePath, PathIs, PathOffset;
    var b, paths, dests := EncodeUpdate(withdrawn, rs), EncodePaths(rs), EncodePrefixes(Dests(rs));
    var a, n := PathOffset(rs, i), 2 + 2 * |rs[i].ases|;
    PathAtPlace(rs, i);
    var front := Parts(withdrawn, rs);
    SliceAfter(front, paths + dests, a, n);
    assert (paths + dests)[a..a + n] == paths[a..a + n];
    assert FitsRoute(rs[i]);
    PathHere(b, |front| + a, rs[i].ases);
  }

  lemma DestHere(withdrawn: seq<Prefix>, rs: seq<Route>, i: nat)
    requires Fits(withdrawn, rs) && i < |rs|
    ensures PrefixIs(EncodeUpdate(withdrawn, rs), 4 + 5 * |withdrawn| + PathOffset(rs, |rs|) + 5 * i, rs[i].dest)
  {
    hide EncodeUpdate, EncodePrefixes, EncodePaths, EncodePrefix, PrefixIs, PathOffset, FitsPrefix;
    var b, paths, dests := EncodeUpdate(withdrawn, rs), EncodePaths(rs), EncodePrefixes(Dests(rs));
    PathAtPlace(rs, 0);
    PrefixAtPlace(Dests(rs), i);
    var front := Parts(withdrawn, rs);
    SliceThird(front, paths, dests, 5 * i, 5);
    assert FitsRoute(rs[i]);
    PrefixHere(b, |front| + |paths| + 5 * i, rs[i].dest);
  }

  lemma SliceThird(a: seq<Byte>, b: seq<Byte>, c: seq<Byte>, i: nat, n: nat)
    requires i + n <= |c|
    ensures (a + (b + c))[|a| + |b| + i..|a| + |b| + i + n] == c[i..i + n]
  {
    SliceAfter(a, b + c, |b| + i, n);
    SliceAfter(b, c, i, n);
  }
}
