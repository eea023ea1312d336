/** Archive headers in the ustar format, after PintOS/src/lib/ustar.c. */
module Ustar {
  import opened Prelude
  import opened Octal

  const HEADER_SIZE: nat := 512
  const CHKSUM: nat := 148
  const MAGIC: nat := 257
  const REGULAR: Byte := 48
  const DIRECTORY: Byte := 53
  const INT_MAX: nat := 0x7fff_ffff
  const SLASH: Byte := 47
  const DOT: Byte := 46

  // ---------- names ----------

  predicate Antisocial(s: seq<Byte>) {
    [SLASH] <= s || [DOT, SLASH] <= s || [DOT, DOT, SLASH] <= s
  }

  /** What follows the first slash. */
  function AfterSlash(s: seq<Byte>): (r: seq<Byte>)
    requires Antisocial(s)
    ensures |r| < |s| && r == s[|s| - |r|..] && s[|s| - |r| - 1] == SLASH && SLASH !in s[..|s| - |r| - 1]
  {
    if s[0] == SLASH then s[1..] else if s[1] == SLASH then s[2..] else s[3..]
  }

  /** `strip_antisocial_prefixes` */
  function Strip(s: seq<Byte>): seq<Byte>
    decreases |s|
  {
    if Antisocial(s) then Strip(AfterSlash(s))
    else if s == [] || s == [DOT, DOT] then [DOT]
    else s
  }

  predicate Safe(s: seq<Byte>) { !Antisocial(s) && s != [] && s != [DOT, DOT] }

  /** Stripping yields a safe name. */
  lemma {:induction false} StripSafe(s: seq<Byte>)
    ensures Safe(Strip(s))
    decreases |s|
  {
    if Antisocial(s) { StripSafe(AfterSlash(s)); } else { DotSafe(); }
  }

  lemma DotSafe()
    ensures Safe([DOT])
  {
    var dot := [DOT];
    assert |dot| == 1 && dot[0] == DOT;
  }

  /** It changes exactly the unsafe names, so stripping twice is stripping once. */
  lemma StripFixpointIff(s: seq<Byte>)
    ensures Strip(s) == s <==> Safe(s)
    ensures Strip(Strip(s)) == Strip(s)
  {
    StripSafe(s);
  }

  /** The result is a suffix of the name, or ".". */
  lemma {:induction false} StripSuffix(s: seq<Byte>)
    ensures Strip(s) == [DOT] || exists k :: 0 <= k <= |s| && Strip(s) == s[k..]
    decreases |s|
  {
    if Antisocial(s) {
      var t := AfterSlash(s);
      StripSuffix(t);
      if k :| 0 <= k <= |t| && Strip(t) == t[k..] { SuffixOfSuffix(s, |s| - |t|, k); }
    } else {
      assert s[0..] == s;
    }
  }

  lemma SuffixOfSuffix(s: seq<Byte>, j: nat, k: nat)
    requires j + k <= |s|
    ensures s[j..][k..] == s[j + k..]
  {
  }

  lemma StripNonzero(s: seq<Byte>)
    requires 0 !in s
    ensures 0 !in Strip(s)
  {
    StripSuffix(s);
  }

  /** Leading "/", "./" and "../" are dropped, whatever follows them, and what would be left empty or ".." is ".". With
      `StripFixpointIff` this determines the result for every name. */
  lemma StripPeels(s: seq<Byte>)
    ensures Strip([SLASH] + s) == Strip(s) && Strip([DOT, SLASH] + s) == Strip(s)
    ensures Strip([DOT, DOT, SLASH] + s) == Strip(s)
    ensures Strip([]) == [DOT] && Strip([DOT, DOT]) == [DOT]
  {
    hide Safe;
    var a, b, c := [SLASH] + s, [DOT, SLASH] + s, [DOT, DOT, SLASH] + s;
    assert a[0] == SLASH && b[0] == DOT && b[1] == SLASH && c[0] == DOT && c[1] == DOT && c[2] == SLASH;
    assert a[1..] == s && b[2..] == s && c[3..] == s;
    assert [SLASH] <= a && [DOT, SLASH] <= b && [DOT, DOT, SLASH] <= c;
    assert AfterSlash(a) == s && AfterSlash(b) == s && AfterSlash(c) == s;
    var none, dots: seq<Byte> := [], [DOT, DOT];
    assert !Antisocial(none) && !Antisocial(dots) by { assert dots[0] == DOT && dots[1] == DOT; }
  }

  /** `strchr (file_name, '/') + 1` */
  method PastSlash(s: seq<Byte>) returns (r: seq<Byte>)
    requires Antisocial(s)
    ensures r == AfterSlash(s)
  {
    ghost var rest := AfterSlash(s);
    ghost var n := |s| - |rest| - 1;
    assert forall i :: 0 <= i < n ==> s[i] == s[..n][i] && s[..n][i] in s[..n];
    var k := 0;
    while s[k] != SLASH
      invariant 0 <= k <= n
      decreases n - k
    {
      k := k + 1;
    }
    r := s[k + 1..];
  }

  method StripPrefixes(name: seq<Byte>) returns (r: seq<Byte>)
    ensures r == Strip(name)
  {
    r := name;
    while Antisocial(r)
      invariant Strip(r) == Strip(name)
      decreases |r|
    {
      r := PastSlash(r);
    }
    if r == [] || r == [DOT, DOT] { r := [DOT]; }
  }

  // ---------- fields ----------

  function Sub(h: seq<Byte>, ofs: nat, n: nat): seq<Byte>
    requires ofs + n <= |h|
  {
    h[ofs..ofs + n]
  }

  function Padded(s: seq<Byte>, n: nat): (r: seq<Byte>)
    requires |s| <= n
    ensures |r| == n
  {
    s + Zeros(n - |s|)
  }

  /** The string in a field, up to its first null byte. */
  function CStr(s: seq<Byte>): (r: seq<Byte>)
    ensures 0 !in r
  {
    if s == [] || s[0] == 0 then [] else [s[0]] + CStr(s[1..])
  }

  lemma {:induction false} CStrPadded(s: seq<Byte>, n: nat)
    requires |s| < n && 0 !in s
    ensures CStr(Padded(s, n)) == s
  {
    if s != [] {
      var t := s[1..];
      assert 0 !in t by { assert forall i :: 0 <= i < |t| ==> t[i] == s[i + 1]; }
      CStrPadded(t, n - 1);
      assert Padded(s, n)[1..] == Padded(t, n - 1);
      assert s[0] in s;
    }
  }

  // ---------- the checksum ----------

  function Counted(h: seq<Byte>, i: nat): Byte
    requires i < |h|
  {
    if CHKSUM <= i < CHKSUM + 8 then 32 else h[i]
  }

  function SumTo(h: seq<Byte>, n: nat): (r: nat)
    requires n <= |h|
    ensures r <= 255 * n
  {
    if n == 0 then 0 else Plus(SumTo(h, n - 1), Counted(h, n - 1))
  }

  function Plus(a: nat, b: nat): nat { a + b }

  /** `calculate_chksum` */
  method CalculateChksum(h: seq<Byte>) returns (sum: nat)
    requires |h| == HEADER_SIZE
    ensures sum == SumTo(h, HEADER_SIZE)
  {
    sum := 0;
    for i := 0 to HEADER_SIZE
      invariant sum == SumTo(h, i)
    {
      sum := Plus(sum, if CHKSUM <= i < CHKSUM + 8 then 32 else h[i]);
    }
  }

  lemma {:induction false} SumIgnoresField(h: seq<Byte>, g: seq<Byte>, n: nat)
    requires n <= |h| == |g| && forall i :: 0 <= i < |h| && !(CHKSUM <= i < CHKSUM + 8) ==> h[i] == g[i]
    ensures SumTo(h, n) == SumTo(g, n)
  {
    if n > 0 { SumIgnoresField(h, g, n - 1); }
  }

  /** The sum of all bytes of `s`. */
  function Total(s: seq<Byte>): nat {
    if s == [] then 0 else Plus(Total(s[..|s| - 1]), s[|s| - 1])
  }

  /** The checksum is the sum of the bytes outside its own field, and of eight spaces. */
  lemma ChksumIs(h: seq<Byte>)
    requires |h| == HEADER_SIZE
    ensures SumTo(h, HEADER_SIZE) == Total(h[..CHKSUM]) + 8 * 32 + Total(h[CHKSUM + 8..])
  {
    hide SumTo, Total;
    SumBefore(h, CHKSUM);
    SumField(h, 8);
    SumAfter(h, HEADER_SIZE);
    assert h[CHKSUM + 8..HEADER_SIZE] == h[CHKSUM + 8..];
  }

  lemma {:induction false} SumBefore(h: seq<Byte>, n: nat)
    requires |h| == HEADER_SIZE && n <= CHKSUM
    ensures SumTo(h, n) == Total(h[..n])
  {
    if n > 0 {
      SumBefore(h, n - 1);
      assert h[..n][..n - 1] == h[..n - 1];
    }
  }

  lemma {:induction false} SumField(h: seq<Byte>, n: nat)
    requires |h| == HEADER_SIZE && n <= 8
    ensures SumTo(h, CHKSUM + n) == SumTo(h, CHKSUM) + 32 * n
  {
    if n > 0 { SumField(h, n - 1); }
  }

  lemma {:induction false} SumAfter(h: seq<Byte>, n: nat)
    requires |h| == HEADER_SIZE && CHKSUM + 8 <= n <= HEADER_SIZE
    ensures SumTo(h, n) == SumTo(h, CHKSUM + 8) + Total(h[CHKSUM + 8..n])
  {
    if n > CHKSUM + 8 {
      SumAfter(h, n - 1);
      assert h[CHKSUM + 8..n][..n - 1 - CHKSUM - 8] == h[CHKSUM + 8..n - 1];
    }
  }

  lemma {:induction false} SumOfChange(h: seq<Byte>, k: nat, b: Byte, n: nat)
    requires k < |h| && n <= |h| && !(CHKSUM <= k < CHKSUM + 8) && b != h[k]
    ensures SumTo(h[k := b], n) == SumTo(h, n) <==> n <= k
    ensures n > k ==> SumTo(h[k := b], n) - SumTo(h, n) == Signed(b) - Signed(h[k])
  {
    if n > 0 { SumOfChange(h, k, b, n - 1); }
  }

  function Signed(b: Byte): int { b }

  // ---------- making a header ----------

  const USTAR: seq<Byte> := [117, 115, 116, 97, 114, 0]
  const ROOT: seq<Byte> := [114, 111, 111, 116]

  /** "%o" prints a negative `int` as the unsigned number with the same bits. */
  function Unsigned(size: int): nat
    requires -0x8000_0000 <= size <= INT_MAX
  {
    if size < 0 then size + 0x1_0000_0000 else size
  }

  /** The fields of a header other than the checksum. */
  ghost predicate Filled(h: seq<Byte>, name: seq<Byte>, kind: Byte, size: int)
    requires |name| <= 99 && -0x8000_0000 <= size <= INT_MAX
  {
    && |h| == HEADER_SIZE
    && Sub(h, 0, 100) == Padded(name, 100)
    && Sub(h, 100, 8) == Octals(if kind == REGULAR then 0x1a4 else 0x1ed, 7) + [0]
    && Sub(h, 108, 8) == Octals(0, 7) + [0] && Sub(h, 116, 8) == Octals(0, 7) + [0]
    && Sub(h, 124, 12) == Octals(Unsigned(size), 11) + [0]
    && Sub(h, 136, 12) == Octals(1136102400, 11) + [0]
    && Sub(h, 156, 1) == [kind] && Sub(h, 157, 100) == Zeros(100)
    && Sub(h, MAGIC, 6) == USTAR && Sub(h, 263, 2) == [48, 48]
    && Sub(h, 265, 32) == Padded(ROOT, 32) && Sub(h, 297, 32) == Padded(ROOT, 32)
    && Sub(h, 329, 183) == Zeros(183)
  }

  /** Every byte of the header that `ustar_make_header` fills for a stripped name. */
  ghost predicate Made(h: seq<Byte>, name: seq<Byte>, kind: Byte, size: int)
    requires |name| <= 99 && -0x8000_0000 <= size <= INT_MAX
  {
    Filled(h, name, kind, size) && Sub(h, CHKSUM, 8) == Octals(SumTo(h, HEADER_SIZE), 7) + [0]
  }

  // ---------- parsing a header ----------

  datatype Parsed =
    | EndOfArchive
    | File(name: seq<Byte>, kind: Byte, size: nat)
    | NotUstar | BadVersion | CorruptChksum | ChksumMismatch | NameTooLong | BadType | CorruptSize | TooLarge

  /** `ustar_parse_header` */
  function Parse(h: seq<Byte>): Parsed
    requires |h| == HEADER_SIZE
  {
    var chksum, size := ParseFrom(Sub(h, CHKSUM, 8), 0, 0), ParseFrom(Sub(h, 124, 12), 0, 0);
    if h == Zeros(HEADER_SIZE) then EndOfArchive
    else if Sub(h, MAGIC, 6) != USTAR then NotUstar
    else if h[263] != 48 || h[264] != 48 then BadVersion
    else if chksum == None then CorruptChksum
    else if chksum.value != SumTo(h, HEADER_SIZE) then ChksumMismatch
    else if h[99] != 0 || h[345] != 0 then NameTooLong
    else if h[156] != REGULAR && h[156] != DIRECTORY then BadType
    else if h[156] == DIRECTORY then File(Strip(CStr(Sub(h, 0, 100))), DIRECTORY, 0)
    else if size == None then CorruptSize
    else if size.value > INT_MAX then TooLarge
    else File(Strip(CStr(Sub(h, 0, 100))), REGULAR, size.value)
  }

  lemma SizeFits(v: nat)
    requires v <= ULONG_MAX
    ensures Fits(v, 11) && DigitCount(v) <= 11
  {
    assert Pow8(11) == 0x2_0000_0000;
    FitsBelow(v, 11);
    FitsCount(v, 11);
  }

  lemma SumFits(v: nat)
    requires v <= 255 * HEADER_SIZE
    ensures Fits(v, 7) && DigitCount(v) <= 7
  {
    assert Pow8(7) == 0x20_0000;
    FitsBelow(v, 7);
    FitsCount(v, 7);
  }

  lemma MadeBytes(h: seq<Byte>, name: seq<Byte>, kind: Byte, size: int)
    requires |name| <= 99 && -0x8000_0000 <= size <= INT_MAX && Made(h, name, kind, size)
    ensures h[156] == kind && h[263] == 48 && h[264] == 48
  {
    hide Octals, SumTo, Padded, Zeros;
    assert h[156] == Sub(h, 156, 1)[0] && h[263] == Sub(h, 263, 2)[0] && h[264] == Sub(h, 263, 2)[1];
  }

  lemma MadeFields(h: seq<Byte>, name: seq<Byte>, kind: Byte, size: int)
    requires |name| <= 99 && -0x8000_0000 <= size <= INT_MAX && Made(h, name, kind, size) && 0 !in name
    ensures h != Zeros(HEADER_SIZE) && h[99] == 0 && h[345] == 0 && CStr(Sub(h, 0, 100)) == name
    ensures ParseFrom(Sub(h, CHKSUM, 8), 0, 0) == Some(SumTo(h, HEADER_SIZE))
    ensures ParseFrom(Sub(h, 124, 12), 0, 0) == Some(Unsigned(size))
  {
    hide SumTo, Octals, ParseFrom, Fits, CStr;
    MadeBytes(h, name, kind, size);
    assert h[99] == Sub(h, 0, 100)[99] && h[345] == Sub(h, 329, 183)[16];
    CStrPadded(name, 100);
    var sum := SumTo(h, HEADER_SIZE);
    SumFits(sum);
    PrintedParses(sum, 7, []);
    SizeFits(Unsigned(size));
    PrintedParses(Unsigned(size), 11, []);
    assert Octals(sum, 7) + [0] + [] == Octals(sum, 7) + [0];
    assert Octals(Unsigned(size), 11) + [0] + [] == Octals(Unsigned(size), 11) + [0];
  }

  /** Parsing a made header gives back the stripped name, the type and the size (0 for a directory), except
      that a regular file's negative size comes out as too large. */
  lemma RoundTrip(h: seq<Byte>, fileName: seq<Byte>, kind: Byte, size: int)
    requires (kind == REGULAR || kind == DIRECTORY) && 0 !in fileName
    requires |Strip(fileName)| <= 99 && -0x8000_0000 <= size <= INT_MAX && Made(h, Strip(fileName), kind, size)
    ensures Parse(h) == if kind == DIRECTORY then File(Strip(fileName), kind, 0)
                        else if size >= 0 then File(Strip(fileName), kind, size) else TooLarge
  {
    hide SumTo, Octals, ParseFrom, CStr;
    StripNonzero(fileName);
    MadeFields(h, Strip(fileName), kind, size);
    MadeBytes(h, Strip(fileName), kind, size);
    StripFixpointIff(fileName);
  }

  /** Whatever bytes are parsed, a file that comes out has a safe name and a size that fits an `int`. */
  lemma ParsedSafe(h: seq<Byte>)
    requires |h| == HEADER_SIZE && Parse(h).File?
    ensures Safe(Parse(h).name) && Parse(h).size <= INT_MAX && (Parse(h).kind == DIRECTORY ==> Parse(h).size == 0)
    ensures Parse(h).kind == REGULAR || Parse(h).kind == DIRECTORY
  {
    StripSafe(CStr(Sub(h, 0, 100)));
  }

  /** Some octal digits and an end mark, for the number `v` of 32 bits. */
  ghost predicate FieldIs(s: seq<Byte>, v: nat) {
    exists k: nat :: DigitsThenEnd(s, k) && Denotes(s[..k]) == v <= ULONG_MAX
  }

  /** A header parses to a file exactly when its bytes are: the magic and the version, a checksum field with the sum of
      the other bytes and eight spaces, a name field that ends in a null byte, an empty name prefix, a known type, and
      for a regular file a size that fits an `int`. */
  lemma ParsedIff(h: seq<Byte>, name: seq<Byte>, kind: Byte, size: nat)
    requires |h| == HEADER_SIZE
    ensures Parse(h) == File(name, kind, size) <==>
            && h[257..263] == [117, 115, 116, 97, 114, 0] && h[263] == 48 && h[264] == 48
            && FieldIs(h[148..156], Total(h[..148]) + 8 * 32 + Total(h[156..]))
            && h[99] == 0 && h[345] == 0 && h[156] == kind && name == Strip(CStr(h[0..100]))
            && (if kind == REGULAR then FieldIs(h[124..136], size) && size <= INT_MAX
                else kind == DIRECTORY && size == 0)
    ensures Parse(h) == EndOfArchive <==> forall i :: 0 <= i < HEADER_SIZE ==> h[i] == 0
  {
    hide SumTo, ParseFrom, CStr, Strip, Total, FieldIs;
    ChksumIs(h);
    FieldParses(h[148..156], SumTo(h, HEADER_SIZE));
    FieldParses(h[124..136], size);
    assert h[257..263] == USTAR ==> h[257] == USTAR[0] by { assert h[257] == h[257..263][0]; }
  }

  /** When a header is refused, the reason given is true of its bytes. */
  lemma RefusalTrue(h: seq<Byte>)
    requires |h| == HEADER_SIZE
    ensures match Parse(h)
            case NotUstar => h[257..263] != USTAR
            case BadVersion => h[263..265] != [48, 48]
            case CorruptChksum => forall v: nat :: !FieldIs(h[148..156], v)
            case ChksumMismatch => !FieldIs(h[148..156], Total(h[..148]) + 8 * 32 + Total(h[156..]))
            case NameTooLong => h[99] != 0 || h[345] != 0
            case BadType => h[156] !in {REGULAR, DIRECTORY}
            case CorruptSize => h[156] == REGULAR && forall v: nat :: !FieldIs(h[124..136], v)
            case TooLarge => h[156] == REGULAR && exists v: nat :: v > INT_MAX && FieldIs(h[124..136], v)
            case _ => true
  {
    hide SumTo, ParseFrom, CStr, Strip, Total, FieldIs;
    ChksumIs(h);
    forall v: nat ensures ParseFrom(h[148..156], 0, 0) == Some(v) <==> FieldIs(h[148..156], v) {
      FieldParses(h[148..156], v);
    }
    forall v: nat ensures ParseFrom(h[124..136], 0, 0) == Some(v) <==> FieldIs(h[124..136], v) {
      FieldParses(h[124..136], v);
    }
    assert h[263] == h[263..265][0] && h[264] == h[263..265][1];
  }

  lemma FieldParses(s: seq<Byte>, v: nat)
    ensures ParseFrom(s, 0, 0) == Some(v) <==> FieldIs(s, v)
  {
    ParseIff(s, v);
  }

  /** A string is the bytes of its field up to the first null byte. */
  lemma {:induction false} CStrIs(s: seq<Byte>)
    ensures CStr(s) <= s && 0 !in CStr(s) && (|CStr(s)| < |s| ==> s[|CStr(s)|] == 0)
  {
    if s != [] && s[0] != 0 { CStrIs(s[1..]); }
  }

  /** One changed byte, anywhere outside the checksum field, is always noticed. */
  lemma CorruptionNoticed(h: seq<Byte>, k: nat, b: Byte)
    requires |h| == HEADER_SIZE && Parse(h).File?
    requires k < HEADER_SIZE && !(CHKSUM <= k < CHKSUM + 8) && b != h[k]
    ensures !Parse(h[k := b]).File? && !Parse(h[k := b]).EndOfArchive?
  {
    hide SumTo, ParseFrom, CStr, Strip;
    var g := h[k := b];
    SumOfChange(h, k, b, HEADER_SIZE);
    assert Sub(g, CHKSUM, 8) == Sub(h, CHKSUM, 8);
    assert h[263] == 48 && h[264] == 48;
    assert g[263] == 48 || g[264] == 48;
  }

  // ---------- the code ----------

  /** `strlcpy`, `snprintf` and plain stores into a field of a zeroed header: `b` and a terminator if it has one. */
  method Store(h: array<Byte>, ofs: nat, b: seq<Byte>)
    requires h.Length == HEADER_SIZE && ofs + |b| <= HEADER_SIZE
    modifies h
    ensures Sub(h[..], ofs, |b|) == b
    ensures forall i :: 0 <= i < HEADER_SIZE && !(ofs <= i < ofs + |b|) ==> h[i] == old(h[i])
    ensures forall o: nat, n: nat :: o + n <= HEADER_SIZE && (o + n <= ofs || ofs + |b| <= o) ==>
            Sub(h[..], o, n) == Sub(old(h[..]), o, n)
  {
    for i := 0 to |b|
      invariant forall k :: 0 <= k < i ==> h[ofs + k] == b[k]
      invariant forall k :: 0 <= k < HEADER_SIZE && !(ofs <= k < ofs + i) ==> h[k] == old(h[k])
    {
      h[ofs + i] := b[i];
    }
    assert Sub(h[..], ofs, |b|) == b;
  }

  method StoreOctal(h: array<Byte>, ofs: nat, v: nat, w: nat)
    requires h.Length == HEADER_SIZE && ofs + w < HEADER_SIZE && w > 0 && DigitCount(v) <= w
    modifies h
    ensures Sub(h[..], ofs, w + 1) == Octals(v, w) + [0]
    ensures forall i :: 0 <= i < HEADER_SIZE && !(ofs <= i < ofs + w + 1) ==> h[i] == old(h[i])
    ensures forall o: nat, n: nat :: o + n <= HEADER_SIZE && (o + n <= ofs || ofs + w + 1 <= o) ==>
            Sub(h[..], o, n) == Sub(old(h[..]), o, n)
  {
    hide Sub;
    var s := FormatOctal(v, w);
    Store(h, ofs, s + [0]);
  }

  /** `strlcpy` into a zeroed field. */
  method StoreString(h: array<Byte>, ofs: nat, n: nat, s: seq<Byte>)
    requires h.Length == HEADER_SIZE && ofs + n <= HEADER_SIZE && |s| < n && Sub(h[..], ofs, n) == Zeros(n)
    modifies h
    ensures Sub(h[..], ofs, n) == Padded(s, n)
    ensures forall o: nat, m: nat :: o + m <= HEADER_SIZE && (o + m <= ofs || ofs + n <= o) ==>
            Sub(h[..], o, m) == Sub(old(h[..]), o, m)
  {
    ghost var before := h[..];
    assert forall i :: 0 <= i < n ==> before[ofs + i] == Sub(before, ofs, n)[i];
    Store(h, ofs, s + [0]);
    assert forall i :: 0 <= i < |s| + 1 ==> h[ofs + i] == Sub(h[..], ofs, |s + [0]|)[i];
    forall i | 0 <= i < n ensures h[ofs + i] == Padded(s, n)[i] {
      if i > |s| { assert h[ofs + i] == before[ofs + i]; }
    }
    assert Sub(h[..], ofs, n) == Padded(s, n);
  }

  lemma ZeroSub(h: seq<Byte>, o: nat, n: nat)
    requires |h| == HEADER_SIZE && (forall i :: 0 <= i < HEADER_SIZE ==> h[i] == 0) && o + n <= HEADER_SIZE
    ensures Sub(h, o, n) == Zeros(n)
  {
  }

  /** Lines 101-105 */
  method FillFront(h: array<Byte>, name: seq<Byte>, kind: Byte)
    requires h.Length == HEADER_SIZE && |name| <= 99 && Sub(h[..], 0, 100) == Zeros(100)
    modifies h
    ensures Sub(h[..], 0, 100) == Padded(name, 100)
    ensures Sub(h[..], 100, 8) == Octals(if kind == REGULAR then 0x1a4 else 0x1ed, 7) + [0]
    ensures Sub(h[..], 108, 8) == Octals(0, 7) + [0] && Sub(h[..], 116, 8) == Octals(0, 7) + [0]
    ensures forall o: nat, n: nat :: o + n <= HEADER_SIZE && 124 <= o ==> Sub(h[..], o, n) == Sub(old(h[..]), o, n)
  {
    hide Sub, Octals, DigitCount, Padded, Zeros, Fits;
    StoreString(h, 0, 100, name);
    SmallCounts();
    StoreOctal(h, 100, if kind == REGULAR then 0x1a4 else 0x1ed, 7);
    StoreOctal(h, 108, 0, 7);
    StoreOctal(h, 116, 0, 7);
  }

  /** Lines 99-112 */
  method FillFields(h: array<Byte>, name: seq<Byte>, kind: Byte, size: int)
    requires h.Length == HEADER_SIZE && |name| <= 99 && -0x8000_0000 <= size <= INT_MAX
    modifies h
    ensures Filled(h[..], name, kind, size)
  {
    hide Sub, Octals, DigitCount, Padded, Zeros, Fits;
    for i := 0 to HEADER_SIZE
      invariant forall k :: 0 <= k < i ==> h[k] == 0
    {
      h[i] := 0;
    }
    forall o: nat, n: nat | o + n <= HEADER_SIZE ensures Sub(h[..], o, n) == Zeros(n) { ZeroSub(h[..], o, n); }
    FillFront(h, name, kind);
    SizeFits(Unsigned(size));
    StoreOctal(h, 124, Unsigned(size), 11);
    SizeFits(1136102400);
    StoreOctal(h, 136, 1136102400, 11);
    Store(h, 156, [kind]);
    Store(h, MAGIC, USTAR);
    Store(h, 263, [48, 48]);
    StoreString(h, 297, 32, ROOT);
    StoreString(h, 265, 32, ROOT);
  }

  lemma SmallCounts()
    ensures DigitCount(0x1a4) <= 7 && DigitCount(0x1ed) <= 7 && DigitCount(0) <= 7
  {
    SumFits(0x1a4);
    SumFits(0x1ed);
    SumFits(0);
  }

  lemma SealedHeader(f: seq<Byte>, h: seq<Byte>, name: seq<Byte>, kind: Byte, size: int)
    requires |name| <= 99 && -0x8000_0000 <= size <= INT_MAX && Filled(f, name, kind, size)
    requires |h| == HEADER_SIZE && forall i :: 0 <= i < HEADER_SIZE && !(CHKSUM <= i < CHKSUM + 8) ==> h[i] == f[i]
    requires Sub(h, CHKSUM, 8) == Octals(SumTo(f, HEADER_SIZE), 7) + [0]
    ensures Made(h, name, kind, size)
  {
    hide Octals, Padded, Zeros, SumTo;
    forall o: nat, n: nat | o + n <= HEADER_SIZE && (o + n <= CHKSUM || CHKSUM + 8 <= o)
      ensures Sub(h, o, n) == Sub(f, o, n)
    {
      SameSub(f, h, o, n);
    }
    SumIgnoresField(h, f, HEADER_SIZE);
  }

  lemma SameSub(f: seq<Byte>, h: seq<Byte>, o: nat, n: nat)
    requires |f| == |h| == HEADER_SIZE && o + n <= HEADER_SIZE && (o + n <= CHKSUM || CHKSUM + 8 <= o)
    requires forall i :: 0 <= i < HEADER_SIZE && !(CHKSUM <= i < CHKSUM + 8) ==> h[i] == f[i]
    ensures Sub(h, o, n) == Sub(f, o, n)
  {
  }

  /** `ustar_make_header` */
  method MakeHeader(fileName: seq<Byte>, kind: Byte, size: int, h: array<Byte>) returns (ok: bool)
    requires h.Length == HEADER_SIZE && (kind == REGULAR || kind == DIRECTORY) && -0x8000_0000 <= size <= INT_MAX
    modifies h
    ensures ok <==> |Strip(fileName)| <= 99
    ensures ok ==> Made(h[..], Strip(fileName), kind, size)
    ensures !ok ==> h[..] == old(h[..])
  {
    hide Filled, Made, Octals, Sub, SumTo;
    var name := StripPrefixes(fileName);
    if |name| > 99 { return false; }
    FillFields(h, name, kind, size);
    ghost var f := h[..];
    assert |f| == HEADER_SIZE;
    var sum := CalculateChksum(h[..]);
    SumFits(sum);
    StoreOctal(h, CHKSUM, sum, 7);
    SealedHeader(f, h[..], name, kind, size);
    return true;
  }

  /** `ustar_parse_header` on a buffer. */
  method ParseHeader(h: array<Byte>) returns (r: Parsed)
    requires h.Length == HEADER_SIZE
    ensures r == Parse(h[..])
  {
    hide SumTo, ParseFrom, CStr, Strip;
    var zeros := true;
    for i := 0 to HEADER_SIZE
      invariant zeros <==> forall k :: 0 <= k < i ==> h[k] == 0
    {
      if h[i] != 0 { zeros := false; }
    }
    assert zeros <==> h[..] == Zeros(HEADER_SIZE);
    if zeros { return EndOfArchive; }
    if Sub(h[..], MAGIC, 6) != USTAR { return NotUstar; }
    if h[263] != 48 || h[264] != 48 { return BadVersion; }
    var chksum := ParseOctalField(Sub(h[..], CHKSUM, 8));
    if chksum == None { return CorruptChksum; }
    var sum := CalculateChksum(h[..]);
    if chksum.value != sum { return ChksumMismatch; }
    if h[99] != 0 || h[345] != 0 { return NameTooLong; }
    if h[156] != REGULAR && h[156] != DIRECTORY { return BadType; }
    var size := 0;
    if h[156] == REGULAR {
      var s := ParseOctalField(Sub(h[..], 124, 12));
      if s == None { return CorruptSize; }
      if s.value > INT_MAX { return TooLarge; }
      size := s.value;
    }
    var name := StripPrefixes(CStr(Sub(h[..], 0, 100)));
    return File(name, h[156], size);
  }
}
