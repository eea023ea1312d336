/** The UPDATE message of computer-networks/PA3/user/sm.cpp as bytes: `advertise`, `highjack` and
    `withdraw` build it, `handle_bgp_update` and `handle_advertisement` take it apart. */
module UpdateCodec {
  import opened Prelude
  import opened PathVector

  /** Ethernet, IP and BGP headers before the message body. */
  const HEADER_LENGTH: nat := 14 + 20 + 19

  // ---------- encoding ----------

  /** `htons` */
  function U16(x: nat): (s: seq<Byte>)
    ensures |s| == 2
  {
    [x / 256 % 256, x % 256]
  }

  /** `htonl` */
  function U32(x: nat): seq<Byte> { U16(x / 0x1_0000) + U16(x % 0x1_0000) }

  function EncodeAses(ases: seq<nat>): (s: seq<Byte>)
    ensures |s| == 2 * |ases|
  {
    if ases == [] then [] else U16(ases[0]) + EncodeAses(ases[1..])
  }

  function EncodePath(ases: seq<nat>): (s: seq<Byte>)
    ensures |s| == 2 + 2 * |ases|
  {
    U16(|ases|) + EncodeAses(ases)
  }

  function EncodePaths(rs: seq<Route>): seq<Byte> {
    if rs == [] then [] else EncodePath(rs[0].ases) + EncodePaths(rs[1..])
  }

  function EncodePrefix(p: Prefix): (s: seq<Byte>)
    ensures |s| == 5
  {
    U32(p.ip) + [p.mask % 256]
  }

  function EncodePrefixes(ps: seq<Prefix>): (s: seq<Byte>)
    ensures |s| == 5 * |ps|
  {
    if ps == [] then [] else EncodePrefix(ps[0]) + EncodePrefixes(ps[1..])
  }

  function Dests(rs: seq<Route>): seq<Prefix> { seq(|rs|, i requires 0 <= i < |rs| => rs[i].dest) }

  /** The body of an UPDATE: withdrawn length in bytes and prefixes, number of paths, paths, prefixes. */
  function EncodeUpdate(withdrawn: seq<Prefix>, rs: seq<Route>): seq<Byte> {
    U16(5 * |withdrawn|) + (EncodePrefixes(withdrawn) + EncodeAnnounced(rs))
  }

  function EncodeAnnounced(rs: seq<Route>): seq<Byte> {
    U16(|rs|) + (EncodePaths(rs) + EncodePrefixes(Dests(rs)))
  }

  // ---------- decoding ----------
  // `None` stands for a read past the end of the frame, which the C++ code does not check.

  function U16At(s: seq<Byte>): nat
    requires |s| >= 2
  {
    (s[0] as int) * 256 + s[1] as int
  }

  function DecodeAses(s: seq<Byte>, n: nat, acc: seq<nat>): Option<(seq<nat>, seq<Byte>)>
    decreases n
  {
    if n == 0 then Some((acc, s))
    else if |s| < 2 then None
    else DecodeAses(s[2..], n - 1, acc + [U16At(s)])
  }

  function DecodePaths(s: seq<Byte>, n: nat, acc: seq<seq<nat>>): Option<(seq<seq<nat>>, seq<Byte>)>
    decreases n
  {
    if n == 0 then Some((acc, s))
    else if |s| < 2 then None
    else
      match DecodeAses(s[2..], U16At(s), [])
      case None => None
      case Some((ases, rest)) => DecodePaths(rest, n - 1, acc + [ases])
  }

  function PrefixAt(s: seq<Byte>): Prefix
    requires |s| >= 5
  {
    Prefix(U16At(s) * 0x1_0000 + U16At(s[2..]), s[4])
  }

  function DecodePrefixes(s: seq<Byte>, n: nat, acc: seq<Prefix>): Option<seq<Prefix>>
    decreases n
  {
    if n == 0 then Some(acc)
    else if |s| < 5 then None
    else DecodePrefixes(s[5..], n - 1, acc + [PrefixAt(s)])
  }

  function Zip(paths: seq<seq<nat>>, dests: seq<Prefix>): seq<Route>
    requires |paths| == |dests|
  {
    seq(|paths|, i requires 0 <= i < |paths| => Route(paths[i], dests[i]))
  }

  /** `handle_advertisement` up to its filtering loop: `n` paths, then their `n` prefixes. */
  function DecodeRoutes(s: seq<Byte>, n: nat): Option<seq<Route>> {
    match DecodePaths(s, n, [])
    case None => None
    case Some((paths, rest)) =>
      match DecodePrefixes(rest, n, [])
      case None => None
      case Some(dests) => if |paths| == |dests| then Some(Zip(paths, dests)) else None
  }

  /** The announcing part of `handle_bgp_update`. */
  function DecodeAnnounced(s: seq<Byte>): Option<seq<Route>> {
    if |s| < 2 then None else DecodeRoutes(s[2..], U16At(s))
  }

  /** `handle_bgp_update` on a message body. */
  function DecodeUpdate(s: seq<Byte>): Option<(seq<Prefix>, seq<Route>)> {
    if |s| < 2 then None
    else
      var wrl := U16At(s);
      match DecodePrefixes(s[2..], wrl / 5, [])
      case None => None
      case Some(withdrawn) =>
        if |s| < 2 + wrl then None
        else
          match DecodeAnnounced(s[2 + wrl..])
          case None => None
          case Some(rs) => Some((withdrawn, rs))
  }

  // ---------- round trip ----------

  /** What fits the message: 16-bit counts and AS numbers, 32-bit addresses, 8-bit masks. */
  predicate FitsPrefix(p: Prefix) { p.ip < 0x1_0000_0000 && p.mask < 256 }

  predicate FitsRoute(r: Route) {
    FitsPrefix(r.dest) && |r.ases| < 0x1_0000 && forall i :: 0 <= i < |r.ases| ==> r.ases[i] < 0x1_0000
  }

  predicate Fits(withdrawn: seq<Prefix>, rs: seq<Route>) {
    && 5 * |withdrawn| < 0x1_0000 && |rs| < 0x1_0000
    && (forall i :: 0 <= i < |withdrawn| ==> FitsPrefix(withdrawn[i]))
    && (forall i :: 0 <= i < |rs| ==> FitsRoute(rs[i]))
  }

  lemma U16RoundTrip(x: nat, t: seq<Byte>)
    requires x < 0x1_0000
    ensures U16At(U16(x) + t) == x && (U16(x) + t)[2..] == t
  {
  }

  lemma {:induction false} AsesRoundTrip(ases: seq<nat>, rest: seq<Byte>, acc: seq<nat>)
    requires forall i :: 0 <= i < |ases| ==> ases[i] < 0x1_0000
    ensures DecodeAses(EncodeAses(ases) + rest, |ases|, acc) == Some((acc + ases, rest))
    decreases |ases|
  {
    if ases == [] {
      assert EncodeAses(ases) + rest == rest && acc + ases == acc;
    } else {
      var t := EncodeAses(ases[1..]) + rest;
      assert EncodeAses(ases) + rest == U16(ases[0]) + t;
      U16RoundTrip(ases[0], t);
      AsesRoundTrip(ases[1..], rest, acc + [ases[0]]);
      assert acc + [ases[0]] + ases[1..] == acc + ases;
    }
  }

  function AsPaths(rs: seq<Route>): seq<seq<nat>> { seq(|rs|, i requires 0 <= i < |rs| => rs[i].ases) }

  lemma {:induction false} PathsRoundTrip(rs: seq<Route>, rest: seq<Byte>, acc: seq<seq<nat>>)
    requires forall i :: 0 <= i < |rs| ==> FitsRoute(rs[i])
    ensures DecodePaths(EncodePaths(rs) + rest, |rs|, acc) == Some((acc + AsPaths(rs), rest))
    decreases |rs|
  {
    if rs == [] {
      assert EncodePaths(rs) + rest == rest && acc + AsPaths(rs) == acc;
    } else {
      var ases := rs[0].ases;
      var t := EncodePaths(rs[1..]) + rest;
      assert EncodePaths(rs) + rest == U16(|ases|) + (EncodeAses(ases) + t);
      hide U16, U16At, EncodeAses, DecodeAses, EncodePaths;
      U16RoundTrip(|ases|, EncodeAses(ases) + t);
      AsesRoundTrip(ases, t, []);
      assert [] + ases == ases;
      PathsRoundTrip(rs[1..], rest, acc + [ases]);
      assert acc + [ases] + AsPaths(rs[1..]) == acc + AsPaths(rs);
    }
  }

  lemma {:induction false} PrefixesRoundTrip(ps: seq<Prefix>, rest: seq<Byte>, acc: seq<Prefix>)
    requires forall i :: 0 <= i < |ps| ==> FitsPrefix(ps[i])
    ensures DecodePrefixes(EncodePrefixes(ps) + rest, |ps|, acc) == Some(acc + ps)
    decreases |ps|
  {
    if ps == [] {
      assert acc + ps == acc;
    } else {
      var t := EncodePrefixes(ps[1..]) + rest;
      assert EncodePrefixes(ps) + rest == EncodePrefix(ps[0]) + t;
      PrefixRoundTrip(ps[0], t);
      PrefixesRoundTrip(ps[1..], rest, acc + [ps[0]]);
      assert acc + [ps[0]] + ps[1..] == acc + ps;
    }
  }

  lemma PrefixRoundTrip(p: Prefix, t: seq<Byte>)
    requires FitsPrefix(p)
    ensures var s := EncodePrefix(p) + t; PrefixAt(s) == p && s[5..] == t
  {
    var s := EncodePrefix(p) + t;
    var low := U16(p.ip % 0x1_0000) + ([p.mask % 256] + t);
    assert s == U16(p.ip / 0x1_0000) + low;
    U16RoundTrip(p.ip / 0x1_0000, low);
    U16RoundTrip(p.ip % 0x1_0000, [p.mask % 256] + t);
  }

  lemma Drop(a: seq<Byte>, b: seq<Byte>)
    ensures (a + b)[|a|..] == b
  {
  }

  lemma RoutesRoundTrip(rs: seq<Route>)
    requires forall i :: 0 <= i < |rs| ==> FitsRoute(rs[i])
    ensures DecodeRoutes(EncodePaths(rs) + EncodePrefixes(Dests(rs)), |rs|) == Some(rs)
  {
    hide DecodePaths, DecodePrefixes, EncodePaths, EncodePrefixes, FitsPrefix;
    var dests := Dests(rs);
    assert forall i :: 0 <= i < |dests| ==> FitsPrefix(dests[i]);
    PathsRoundTrip(rs, EncodePrefixes(dests), []);
    PrefixesRoundTrip(dests, [], []);
    assert EncodePrefixes(dests) + [] == EncodePrefixes(dests);
    assert Zip(AsPaths(rs), dests) == rs;
    assert [] + AsPaths(rs) == AsPaths(rs) && [] + dests == dests;
  }

  /** Decoding an encoded message recovers the withdrawn prefixes and the paths, each paired in order
      with its own prefix. */
  lemma UpdateRoundTrip(withdrawn: seq<Prefix>, rs: seq<Route>)
    requires Fits(withdrawn, rs)
    ensures DecodeUpdate(EncodeUpdate(withdrawn, rs)) == Some((withdrawn, rs))
  {
    hide U16, U16At, DecodeAnnounced, EncodeAnnounced, DecodePrefixes, EncodePrefixes, FitsRoute, FitsPrefix;
    var wrl := 5 * |withdrawn|;
    var prefixes, tail := EncodePrefixes(withdrawn), EncodeAnnounced(rs);
    U16RoundTrip(wrl, prefixes + tail);
    PrefixesRoundTrip(withdrawn, tail, []);
    AnnouncedRoundTrip(rs);
    assert [] + withdrawn == withdrawn;
    Drop(prefixes, tail);
    assert (U16(wrl) + (prefixes + tail))[2 + wrl..] == (prefixes + tail)[wrl..];
  }

  lemma AnnouncedRoundTrip(rs: seq<Route>)
    requires |rs| < 0x1_0000 && forall i :: 0 <= i < |rs| ==> FitsRoute(rs[i])
    ensures DecodeAnnounced(EncodeAnnounced(rs)) == Some(rs)
  {
    RoutesRoundTrip(rs);
    U16RoundTrip(|rs|, EncodePaths(rs) + EncodePrefixes(Dests(rs)));
    hide DecodeRoutes, FitsRoute, EncodePaths, EncodePrefixes;
  }

  // ---------- the code that builds the message ----------

  lemma EncodeAsesSnoc(ases: seq<nat>, j: nat)
    requires j < |ases|
    ensures EncodeAses(ases[..j + 1]) == EncodeAses(ases[..j]) + U16(ases[j])
    decreases j
  {
    hide U16;
    if j == 0 {
      assert ases[..1][1..] == [];
    } else {
      assert ases[..j + 1][1..] == ases[1..][..j] && ases[..j][1..] == ases[1..][..j - 1];
      EncodeAsesSnoc(ases[1..], j - 1);
    }
  }

  lemma EncodePathsSnoc(rs: seq<Route>, k: nat)
    requires k < |rs|
    ensures EncodePaths(rs[..k + 1]) == EncodePaths(rs[..k]) + EncodePath(rs[k].ases)
    decreases k
  {
    hide EncodePath;
    if k == 0 {
      assert rs[..1][1..] == [];
    } else {
      assert rs[..k + 1][1..] == rs[1..][..k] && rs[..k][1..] == rs[1..][..k - 1];
      EncodePathsSnoc(rs[1..], k - 1);
    }
  }

  lemma EncodePrefixesSnoc(ps: seq<Prefix>, k: nat)
    requires k < |ps|
    ensures EncodePrefixes(ps[..k + 1]) == EncodePrefixes(ps[..k]) + EncodePrefix(ps[k])
    decreases k
  {
    hide EncodePrefix;
    if k == 0 {
      assert ps[..1][1..] == [];
    } else {
      assert ps[..k + 1][1..] == ps[1..][..k] && ps[..k][1..] == ps[1..][..k - 1];
      EncodePrefixesSnoc(ps[1..], k - 1);
    }
  }

  /** `memcpy` of a value in network order; everything before `at` is kept. */
  method PutU16(data: array<Byte>, at: nat, x: nat)
    requires at + 2 <= data.Length
    modifies data
    ensures data[..at + 2] == old(data[..at]) + U16(x)
    ensures forall i :: at + 2 <= i < data.Length ==> data[i] == old(data[i])
  {
    data[at], data[at + 1] := x / 256 % 256, x % 256;
  }

  /** One path attribute: hop count, then the hops. */
  method PutPath(data: array<Byte>, at: nat, ases: seq<nat>)
    requires at + 2 + 2 * |ases| <= data.Length
    modifies data
    ensures data[..at + 2 + 2 * |ases|] == old(data[..at]) + EncodePath(ases)
    ensures forall i :: at + 2 + 2 * |ases| <= i < data.Length ==> data[i] == old(data[i])
  {
    PutU16(data, at, |ases|);
    for j := 0 to |ases|
      invariant data[..at + 2 + 2 * j] == old(data[..at]) + U16(|ases|) + EncodeAses(ases[..j])
      invariant forall i :: at + 2 + 2 * j <= i < data.Length ==> data[i] == old(data[i])
    {
      PutU16(data, at + (j + 1) * 2, ases[j]);
      EncodeAsesSnoc(ases, j);
    }
    assert ases[..|ases|] == ases;
  }

  method PutPrefix(data: array<Byte>, at: nat, p: Prefix)
    requires at + 5 <= data.Length
    modifies data
    ensures data[..at + 5] == old(data[..at]) + EncodePrefix(p)
  {
    PutU16(data, at, p.ip / 0x1_0000);
    PutU16(data, at + 2, p.ip % 0x1_0000);
    data[at + 4] := p.mask % 256;
  }

  /** The length of the path attributes. */
  method PathAttributeLength(rs: seq<Route>) returns (pal: nat)
    ensures pal == |EncodePaths(rs)|
  {
    pal := 0;
    for k := 0 to |rs|
      invariant pal == |EncodePaths(rs[..k])|
    {
      EncodePathsSnoc(rs, k);
      pal := pal + 2 + |rs[k].ases| * 2;
    }
    assert rs[..|rs|] == rs;
  }

  lemma UpdateShape(header: seq<Byte>, rs: seq<Route>)
    ensures header + U16(0) + U16(|rs|) + EncodePaths(rs) + EncodePrefixes(Dests(rs)) == header + EncodeUpdate([], rs)
  {
    hide U16, EncodePaths, EncodePrefixes;
    NoPrefixes();
    Regroup(header, U16(0), U16(|rs|), EncodePaths(rs), EncodePrefixes(Dests(rs)));
  }

  lemma NoPrefixes()
    ensures EncodePrefixes([]) == []
  {
  }

  lemma Regroup(a: seq<Byte>, b: seq<Byte>, c: seq<Byte>, d: seq<Byte>, e: seq<Byte>)
    ensures a + b + c + d + e == a + (b + ([] + (c + (d + e))))
  {
  }

  /** `advertise`, for one interface and its admissible routes. */
  method BuildUpdate(header: seq<Byte>, rs: seq<Route>) returns (data: array<Byte>)
    requires |header| == HEADER_LENGTH
    requires forall i :: 0 <= i < |rs| ==> |rs[i].ases| < 0x1_0000
    ensures fresh(data) && data[..] == header + EncodeUpdate([], rs)
  {
    hide U16, EncodePaths, EncodePrefixes, EncodeUpdate;
    var pal := PathAttributeLength(rs);
    data := new Byte[HEADER_LENGTH + 4 + pal + 5 * |rs|];
    for i := 0 to HEADER_LENGTH
      invariant data[..i] == header[..i]
    {
      data[i] := header[i];
    }
    assert header[..HEADER_LENGTH] == header;
    PutU16(data, HEADER_LENGTH, 0);
    PutU16(data, HEADER_LENGTH + 2, |rs|);
    PutPaths(data, header + U16(0) + U16(|rs|), pal, rs);
    PutDests(data, header + U16(0) + U16(|rs|) + EncodePaths(rs), rs);
    UpdateShape(header, rs);
    assert data[..] == data[..data.Length];
  }

  method PutPaths(data: array<Byte>, ghost front: seq<Byte>, ghost pal: nat, rs: seq<Route>)
    requires |front| == HEADER_LENGTH + 4 && pal == |EncodePaths(rs)| && |front| + pal <= data.Length
    requires data[..|front|] == front
    modifies data
    ensures data[..|front| + pal] == front + EncodePaths(rs)
  {
    hide EncodePaths, EncodePath, EncodeAses, U16;
    var offset := 0;
    NoPaths(rs);
    for k := 0 to |rs|
      invariant offset == |EncodePaths(rs[..k])|
      invariant HEADER_LENGTH + 4 + offset <= data.Length
      invariant data[..HEADER_LENGTH + 4 + offset] == front + EncodePaths(rs[..k])
    {
      EncodePathsSnoc(rs, k);
      EncodePathsPrefix(rs, k + 1);
      PutPath(data, HEADER_LENGTH + 4 + offset, rs[k].ases);
      offset := offset + |rs[k].ases| * 2 + 2;
    }
    assert rs[..|rs|] == rs;
  }

  lemma NoPaths(rs: seq<Route>)
    ensures EncodePaths(rs[..0]) == []
  {
  }

  lemma EncodePathsPrefix(rs: seq<Route>, k: nat)
    requires k <= |rs|
    ensures |EncodePaths(rs[..k])| <= |EncodePaths(rs)|
    decreases |rs| - k
  {
    hide EncodePaths, EncodePath;
    if k < |rs| {
      EncodePathsSnoc(rs, k);
      EncodePathsPrefix(rs, k + 1);
    } else {
      assert rs[..k] == rs;
    }
  }

  method PutDests(data: array<Byte>, ghost front: seq<Byte>, rs: seq<Route>)
    requires |front| + 5 * |rs| == data.Length && data[..|front|] == front
    modifies data
    ensures data[..data.Length] == front + EncodePrefixes(Dests(rs))
  {
    var at := data.Length - 5 * |rs|;
    for i := 0 to |rs|
      invariant data[..at + 5 * i] == front + EncodePrefixes(Dests(rs)[..i])
    {
      EncodePrefixesSnoc(Dests(rs), i);
      PutPrefix(data, at + i * 5, rs[i].dest);
    }
    assert Dests(rs)[..|rs|] == Dests(rs);
  }

  // ---------- the code that takes it apart ----------

  method ParsePrefixes(data: seq<Byte>, doff: nat, number: nat) returns (r: Option<seq<Prefix>>)
    requires doff <= |data|
    ensures r == DecodePrefixes(data[doff..], number, [])
  {
    var ps := [];
    for i := 0 to number
      invariant doff + i * 5 <= |data|
      invariant DecodePrefixes(data[doff + i * 5..], number - i, ps) == DecodePrefixes(data[doff..], number, [])
    {
      var at := doff + i * 5;
      if |data| < at + 5 { return None; }
      assert data[at..][5..] == data[at + 5..] && data[at..][2..] == data[at + 2..];
      ps := ps + [Prefix(U16At(data[at..]) * 0x1_0000 + U16At(data[at + 2..]), data[at + 4])];
    }
    return Some(ps);
  }

  /** The hops of one path attribute of `n` hops at `at`. */
  method ParseHops(data: seq<Byte>, at: nat, n: nat) returns (r: Option<seq<nat>>)
    requires at <= |data|
    ensures match r
            case None => DecodeAses(data[at..], n, []) == None
            case Some(ases) => at + 2 * n <= |data| && DecodeAses(data[at..], n, []) == Some((ases, data[at + 2 * n..]))
  {
    var ases: seq<nat> := [];
    for j := 0 to n
      invariant at + 2 * j <= |data|
      invariant DecodeAses(data[at + 2 * j..], n - j, ases) == DecodeAses(data[at..], n, [])
    {
      if |data| < at + 2 * j + 2 { return None; }
      assert data[at + 2 * j..][2..] == data[at + 2 * (j + 1)..];
      ases := ases + [U16At(data[at + 2 * j..])];
    }
    return Some(ases);
  }

  /** `handle_advertisement` up to its filtering loop. */
  method ParseRoutes(data: seq<Byte>, doff: nat, number: nat) returns (r: Option<seq<Route>>)
    requires doff <= |data|
    ensures r == DecodeRoutes(data[doff..], number)
  {
    hide U16At, DecodeAses, DecodePrefixes, Zip;
    var paths: seq<seq<nat>> := [];
    var offset := 0;
    for i := 0 to number
      invariant doff + offset <= |data| && |paths| == i
      invariant DecodePaths(data[doff + offset..], number - i, paths) == DecodePaths(data[doff..], number, [])
    {
      var at := doff + offset;
      if |data| < at + 2 { return None; }
      assert data[at..][2..] == data[at + 2..];
      var length := U16At(data[at..]);
      var hops := ParseHops(data, at + 2, length);
      if hops.None? { return None; }
      paths := paths + [hops.value];
      offset := offset + 2 + length * 2;
    }
    var dests := ParsePrefixes(data, doff + offset, number);
    if dests.None? { return None; }
    DecodePrefixesCount(data[doff + offset..], number, []);
    return Some(Zip(paths, dests.value));
  }

  lemma DecodePrefixesCount(s: seq<Byte>, n: nat, acc: seq<Prefix>)
    ensures DecodePrefixes(s, n, acc).Some? ==> |DecodePrefixes(s, n, acc).value| == |acc| + n
    decreases n
  {
    if n > 0 && |s| >= 5 { DecodePrefixesCount(s[5..], n - 1, acc + [PrefixAt(s)]); }
  }

  /** `handle_bgp_update` */
  method ParseUpdate(data: seq<Byte>) returns (r: Option<(seq<Prefix>, seq<Route>)>)
    requires |data| >= HEADER_LENGTH
    ensures r == DecodeUpdate(data[HEADER_LENGTH..])
  {
    ghost var s := data[HEADER_LENGTH..];
    if |data| < HEADER_LENGTH + 2 { return None; }
    var wrl := U16At(data[HEADER_LENGTH..]);
    assert s[2..] == data[HEADER_LENGTH + 2..];
    var withdrawn := ParsePrefixes(data, HEADER_LENGTH + 2, wrl / 5);
    if withdrawn.None? || |data| < HEADER_LENGTH + 2 + wrl + 2 { return None; }
    assert s[2 + wrl..] == data[HEADER_LENGTH + 2 + wrl..] && s[2 + wrl..][2..] == data[HEADER_LENGTH + 4 + wrl..];
    var tpal := U16At(data[HEADER_LENGTH + 2 + wrl..]);
    var routes := ParseRoutes(data, HEADER_LENGTH + 4 + wrl, tpal);
    if routes.None? { return None; }
    return Some((withdrawn.value, routes.value));
  }
}
