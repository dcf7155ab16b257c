/**
 * Bit-level vocabulary of the engine.
 *
 * A digit map is a 128-bit word (`__int128_t` in the C code) whose bit `c`
 * says that a digit cannot go on cell `c`; a candidate mask is a 16-bit word
 * (`uint16_t`) whose bit `v` says that digit `v + 1` is still possible.
 * Bit tests are phrased through the wrappers `BitAt` and `CandAt`, and each
 * word is read back as the set of its set bits (`CellSet`, `DigitSet`), so
 * the rest of the model reasons about sets rather than shifts.
 */
module Bits {

  /** The nine digit bits of a cell: `MASK_HOUSE` in the C code. */
  const MASK_HOUSE: bv16 := 0x1FF

  /** The digits 0..8 (standing for 1..9). */
  function Digits(): set<int>
  {
    {0, 1, 2, 3, 4, 5, 6, 7, 8}
  }

  // ------------------------------------------------------------ bit indices

  /** Bit index `p` as a shift amount, counted up one step at a time. */
  function Idx(p: int): bv7
    requires 0 <= p < 128
    decreases p
  {
    if p == 0 then 0 else Idx(p - 1) + 1
  }

  lemma {:induction false} IdxValue(p: int)
    requires 0 <= p < 128
    ensures Idx(p) as int == p
    decreases p
  {
    if p > 0 {
      IdxValue(p - 1);
    }
  }

  lemma IdxInjective(p: int, q: int)
    requires 0 <= p < 128 && 0 <= q < 128
    ensures Idx(p) == Idx(q) <==> p == q
  {
    IdxValue(p);
    IdxValue(q);
  }

  lemma IdxLess(p: int, n: int)
    requires 0 <= p < 128 && 0 <= n < 128
    ensures (Idx(p) < Idx(n)) == (p < n)
  {
    IdxValue(p);
    IdxValue(n);
  }

  /** Integer bounds carry over to bit indices. */
  lemma IdxRange(p: int, lo: int, hi: int)
    requires 0 <= lo <= p < hi <= 127
    ensures lo as bv7 <= Idx(p) < hi as bv7
  {
    IdxLiteral(lo);
    IdxLiteral(hi);
    IdxLess(p, lo);
    IdxLess(p, hi);
  }

  lemma IdxLiteral(n: int)
    requires 0 <= n < 128
    ensures Idx(n) == n as bv7
  {
    IdxValue(n);
  }

  lemma {:induction false} IdxAdd(a: int, b: int)
    requires 0 <= a && 0 <= b && a + b < 128
    ensures Idx(a + b) == Idx(a) + Idx(b)
    decreases b
  {
    if b > 0 {
      IdxAdd(a, b - 1);
    }
  }

  lemma {:induction false} IdxNine(k: int)
    requires 0 <= k < 9
    ensures Idx(9 * k) == 9 * Idx(k)
    decreases k
  {
    if k > 0 {
      IdxNine(k - 1);
      IdxAdd(9 * (k - 1), 9);
      IdxAdd(k - 1, 1);
    }
  }

  // ------------------------------------------------------ 128-bit digit maps

  predicate BitAt(x: bv128, pb: bv7)
  {
    (x >> pb) & 1 == 1
  }

  function SingleAt(pb: bv7): bv128
  {
    1 << pb
  }

  /** Bit `p` of the digit map `x` is set. */
  predicate Has(x: bv128, p: int)
    requires 0 <= p < 128
  {
    BitAt(x, Idx(p))
  }

  /** `(__int128_t)1 << p`. */
  function Single(p: int): bv128
    requires 0 <= p < 128
  {
    SingleAt(Idx(p))
  }

  /**
   * `x |= m` on a digit map and `x &= m` on a candidate mask, named so that
   * the proofs about the arrays can treat each update as one term.
   */
  function Join(x: bv128, m: bv128): bv128
  {
    x | m
  }

  function Keep(x: bv16, m: bv16): bv16
  {
    x & m
  }

  /**
   * The cells `k`..127 whose bit is set in a digit map, gathered one bit
   * at a time; `CellSetMember` states membership outright.
   */
  function CellSetFrom(x: bv128, k: int): set<int>
    requires 0 <= k <= 128
    decreases 128 - k
  {
    if k == 128 then {} else (if Has(x, k) then {k} else {}) + CellSetFrom(x, k + 1)
  }

  /** The cells whose bit is set in a digit map. */
  function CellSet(x: bv128): set<int>
  {
    CellSetFrom(x, 0)
  }

  lemma {:induction false} CellSetFromMember(x: bv128, k: int, p: int)
    requires 0 <= k <= 128
    ensures p in CellSetFrom(x, k) <==> k <= p < 128 && Has(x, p)
    decreases 128 - k
  {
    if k < 128 {
      CellSetFromMember(x, k + 1, p);
    }
  }

  lemma CellSetMember(x: bv128, p: int)
    ensures p in CellSet(x) <==> 0 <= p < 128 && Has(x, p)
  {
    CellSetFromMember(x, 0, p);
  }

  lemma SetBitAt(x: bv128, pb: bv7, qb: bv7)
    ensures BitAt(x | SingleAt(qb), pb) == (pb == qb || BitAt(x, pb))
  {
  }

  lemma ComplementAt(x: bv128, pb: bv7)
    ensures BitAt(!x, pb) == !BitAt(x, pb)
  {
  }

  lemma ZeroAt(pb: bv7)
    ensures !BitAt(0, pb)
  {
  }

  lemma SetBitHas(x: bv128, c: int, p: int)
    requires 0 <= c < 128 && 0 <= p < 128
    ensures Has(x | Single(c), p) == (p == c || Has(x, p))
  {
    SetBitAt(x, Idx(p), Idx(c));
    IdxInjective(p, c);
  }

  /** Or-ing in `1 << c` adds exactly cell `c` to a digit map. */
  lemma SetBit(x: bv128, c: int)
    requires 0 <= c < 128
    ensures CellSet(Join(x, Single(c))) == CellSet(x) + {c}
  {
    forall p
      ensures p in CellSet(Join(x, Single(c))) <==> p in CellSet(x) + {c}
    {
      CellSetMember(x | Single(c), p);
      CellSetMember(x, p);
      if 0 <= p < 128 {
        SetBitHas(x, c, p);
      }
    }
  }

  /** Bit `p` of `~x` is set exactly when bit `p` of `x` is clear. */
  lemma Complement(x: bv128, p: int)
    requires 0 <= p < 128
    ensures Has(!x, p) == (p !in CellSet(x))
  {
    CellSetMember(x, p);
    ComplementAt(x, Idx(p));
  }

  /** An all-zero digit map blocks no cell. */
  lemma CellSetZero()
    ensures CellSet(0) == {}
  {
    forall p
      ensures p !in CellSet(0)
    {
      CellSetMember(0, p);
      if 0 <= p < 128 {
        ZeroAt(Idx(p));
      }
    }
  }

  // ------------------------------------------------- 16-bit candidate masks

  predicate CandAt(x: bv16, vb: bv7)
  {
    vb < 16 && (x >> vb) & 1 == 1
  }

  function DigitAt(vb: bv7): bv16
  {
    if vb < 16 then 1 << vb else 0
  }

  /** Bit `v` of the candidate mask `x` is set. */
  predicate Cand(x: bv16, v: int)
    requires 0 <= v < 16
  {
    CandAt(x, Idx(v))
  }

  /** `1 << v` on a 16-bit mask. */
  function Digit(v: int): bv16
    requires 0 <= v < 16
  {
    DigitAt(Idx(v))
  }

  /** The bit positions set in a 16-bit mask. */
  function DigitSet(x: bv16): set<int>
  {
    set v | 0 <= v < 16 && Cand(x, v)
  }

  lemma AddDigitAt(x: bv16, vb: bv7, wb: bv7)
    requires wb < 16
    ensures CandAt(x | DigitAt(wb), vb) == (vb == wb || CandAt(x, vb))
  {
  }

  lemma TestDigitAt(x: bv16, vb: bv7)
    requires vb < 16
    ensures (x & DigitAt(vb) != 0) == CandAt(x, vb)
  {
  }

  lemma StrikeAt(x: bv16, vb: bv7, wb: bv7)
    requires wb < 9
    ensures CandAt(x & (MASK_HOUSE ^ DigitAt(wb)), vb) == (CandAt(x, vb) && CandAt(MASK_HOUSE, vb) && vb != wb)
  {
  }

  lemma HouseMaskAt(vb: bv7)
    ensures CandAt(MASK_HOUSE, vb) == (vb < 9)
  {
  }

  lemma ZeroMaskAt(vb: bv7)
    ensures !CandAt(0, vb)
  {
  }

  lemma AddDigitCand(x: bv16, v: int, u: int)
    requires 0 <= v < 16 && 0 <= u < 16
    ensures Cand(x | Digit(v), u) == (u == v || Cand(x, u))
  {
    IdxValue(v);
    AddDigitAt(x, Idx(u), Idx(v));
    IdxInjective(u, v);
  }

  /** Or-ing in `1 << v` adds exactly digit `v`. */
  lemma AddDigit(x: bv16, v: int)
    requires 0 <= v < 16
    ensures DigitSet(x | Digit(v)) == DigitSet(x) + {v}
  {
    forall u | 0 <= u < 16
      ensures Cand(x | Digit(v), u) == (u == v || Cand(x, u))
    {
      AddDigitCand(x, v, u);
    }
  }

  /** `x & (1 << v)` is non-zero exactly when `v` is a member of `x`. */
  lemma TestDigit(x: bv16, v: int)
    requires 0 <= v < 16
    ensures (x & Digit(v) != 0) == (v in DigitSet(x))
  {
    IdxValue(v);
    TestDigitAt(x, Idx(v));
  }

  /** And-ing with `MASK_HOUSE ^ 1 << v` keeps the digits 0..8 other than `v`. */
  lemma Strike(x: bv16, v: int)
    requires 0 <= v < 9
    ensures DigitSet(x & (MASK_HOUSE ^ Digit(v))) == DigitSet(x) * Digits() - {v}
  {
    FullMask();
    forall u | 0 <= u < 16
      ensures Cand(x & (MASK_HOUSE ^ Digit(v)), u) == (Cand(x, u) && Cand(MASK_HOUSE, u) && u != v)
    {
      StrikeCand(x, v, u);
    }
  }

  lemma StrikeCand(x: bv16, v: int, u: int)
    requires 0 <= v < 9 && 0 <= u < 16
    ensures Cand(x & (MASK_HOUSE ^ Digit(v)), u) == (Cand(x, u) && Cand(MASK_HOUSE, u) && u != v)
  {
    IdxValue(v);
    StrikeAt(x, Idx(u), Idx(v));
    IdxInjective(u, v);
  }

  /** A fresh cell, `MASK_HOUSE`, has all nine digits. */
  lemma FullMask()
    ensures DigitSet(MASK_HOUSE) == Digits()
  {
    forall u | 0 <= u < 16
      ensures Cand(MASK_HOUSE, u) == (u < 9)
    {
      IdxValue(u);
      HouseMaskAt(Idx(u));
    }
  }

  lemma ZeroMask()
    ensures DigitSet(0) == {}
  {
    forall u | 0 <= u < 16
      ensures !Cand(0, u)
    {
      ZeroMaskAt(Idx(u));
    }
  }

  // ---------------------------------------------- popcount and lowest bit

  /** `__builtin_popcount` on a 16-bit mask. */
  function PopCount(x: bv16): nat
  {
    |DigitSet(x)|
  }

  /** The least member of `s` in `k..15`, or -1 when there is none. */
  function LowestFrom(s: set<int>, k: int): (r: int)
    requires 0 <= k <= 16
    ensures r == -1 <==> forall j :: k <= j < 16 ==> j !in s
    ensures r != -1 ==> k <= r < 16 && r in s && forall j :: k <= j < r ==> j !in s
    decreases 16 - k
  {
    if k == 16 then -1
    else if k in s then k
    else LowestFrom(s, k + 1)
  }

  function Lowest(s: set<int>): int
  {
    LowestFrom(s, 0)
  }

  /** `ffs`: one plus the index of the lowest set bit, 0 for an empty mask. */
  function Ffs(x: bv16): (r: int)
    ensures r == 0 <==> DigitSet(x) == {}
    ensures r != 0 ==> r - 1 in DigitSet(x) && forall j :: 0 <= j < r - 1 ==> j !in DigitSet(x)
  {
    Lowest(DigitSet(x)) + 1
  }

  /** A set of bit positions with one member is that member's singleton. */
  lemma OnlyMember(s: set<int>)
    requires |s| == 1
    requires forall j :: j in s ==> 0 <= j < 16
    ensures Lowest(s) in s && s == {Lowest(s)}
  {
    var y :| y in s;
    assert Lowest(s) != -1;
    var rest := s - {Lowest(s)};
    assert |rest| == 0;
  }

  /** With exactly one bit set, `ffs - 1` names that bit. */
  lemma SingleBit(x: bv16)
    requires PopCount(x) == 1
    ensures DigitSet(x) == {Ffs(x) - 1}
  {
    OnlyMember(DigitSet(x));
  }

}
