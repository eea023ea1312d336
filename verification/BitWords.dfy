/** Single bits of a 32-bit word, selected by shifted masks. */
module BitWords {

  const ELEM_BITS: nat := 32

  /** A bit position within a word, as a shift count. */
  type Shift = p: bv6 | p < 32

  function ShiftOf(k: nat): Shift
    requires k < ELEM_BITS
  {
    ShiftBound(k);
    k as bv6
  }

  lemma ShiftBound(k: nat)
    requires k < ELEM_BITS
    ensures k as bv6 < 32
  {
  }

  lemma ShiftInjective(k: nat, j: nat)
    requires k < ELEM_BITS && j < ELEM_BITS
    ensures ShiftOf(k) == ShiftOf(j) ==> k == j
  {
    assert (k as bv6) as nat == k && (j as bv6) as nat == j;
  }

  function Common(a: bv32, b: bv32): bv32 { a & b }

  predicate Meets(a: bv32, b: bv32) { Common(a, b) != 0 }

  function Join(w: bv32, a: bv32): bv32 { w | a }

  function Clear(w: bv32, a: bv32): bv32 { w & !a }

  function MaskAt(p: Shift): bv32 { 1 << p }

  lemma MaskOverlap(p: Shift, q: Shift)
    ensures Meets(MaskAt(p), MaskAt(q)) <==> p == q
  {
  }

  lemma JoinMeets(w: bv32, a: bv32, b: bv32)
    ensures Meets(Join(w, a), b) <==> Meets(a, b) || Meets(w, b)
  {
    hide Common, Join;
    Distribute(w, a, b);
    JoinZero(Common(w, b), Common(a, b));
  }

  lemma Distribute(w: bv32, a: bv32, b: bv32)
    ensures Common(Join(w, a), b) == Join(Common(w, b), Common(a, b))
  {
  }

  lemma JoinZero(x: bv32, y: bv32)
    ensures Join(x, y) == 0 <==> x == 0 && y == 0
  {
  }

  lemma ClearMeets(w: bv32, a: bv32, b: bv32)
    ensures a == b ==> !Meets(Clear(w, a), b)
    ensures !Meets(a, b) ==> (Meets(Clear(w, a), b) <==> Meets(w, b))
  {
  }

  /** `bit_mask` */
  function Mask(k: nat): bv32
    requires k < ELEM_BITS
  {
    MaskAt(ShiftOf(k))
  }

  predicate Bit(w: bv32, k: nat)
    requires k < ELEM_BITS
  {
    Meets(w, Mask(k))
  }

  /** The word with bit `k` set or cleared. */
  function Updated(w: bv32, k: nat, value: bool): bv32
    requires k < ELEM_BITS
  {
    if value then Join(w, Mask(k)) else Clear(w, Mask(k))
  }

  /** Setting or clearing bit `k` changes bit `k` and no other. */
  lemma UpdatedBit(w: bv32, k: nat, value: bool, j: nat)
    requires k < ELEM_BITS && j < ELEM_BITS
    ensures Bit(Updated(w, k, value), j) == if j == k then value else Bit(w, j)
  {
    hide Meets, Join, Clear, MaskAt, ShiftOf;
    ShiftInjective(k, j);
    MaskOverlap(ShiftOf(k), ShiftOf(j));
    JoinMeets(w, Mask(k), Mask(j));
    ClearMeets(w, Mask(k), Mask(j));
  }
}
