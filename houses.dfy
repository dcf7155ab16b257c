/**
 * The three house extractions of `hidden_single`: from the complement of a
 * digit map they gather the nine bits of one row, one column or one box
 * into the low nine bits of a mask.  Each extraction is proved to read
 * exactly the cells `HouseCell(kind, i, 0..8)`, in that order.
 */
module Houses {
  import opened Bits
  import opened Topology

  /** `(m >> s) & MASK_HOUSE`: nine bits of `m` from bit `s` on. */
  function RowWindow(m: bv128, sb: bv7): bv16
  {
    ((m >> sb) & 0x1FF) as bv16
  }

  /** Bit `ib` of each of the nine 9-bit rows of `m`, row `k` landing on bit `k`. */
  function ColWindow(m: bv128, ib: bv7): bv16
    requires ib < 9
  {
    (((m >> ib) & 1) | ((m >> (9 + ib - 1)) & 2) | ((m >> (18 + ib - 2)) & 4) |
     ((m >> (27 + ib - 3)) & 8) | ((m >> (36 + ib - 4)) & 16) |
     ((m >> (45 + ib - 5)) & 32) | ((m >> (54 + ib - 6)) & 64) |
     ((m >> (63 + ib - 7)) & 128) | ((m >> (72 + ib - 8)) & 256)) as bv16
  }

  /** Three 3-bit runs of `m >> s`, nine bits apart, packed side by side. */
  function BoxWindow(m: bv128, sb: bv7): bv16
  {
    var t := m >> sb;
    ((t & 0x7) | ((t & 0xE00) >> 6) | ((t & 0x1C0000) >> 12)) as bv16
  }

  /** `(~dm[v] >> 9 * i) & MASK_HOUSE`: the row check of `hidden_single`. */
  function RowHouse(m: bv128, i: int): bv16
    requires 0 <= i < 9
  {
    RowWindow(m, Idx(9 * i))
  }

  /** The column check of `hidden_single`: nine single-bit shifts, or-ed together. */
  function ColHouse(m: bv128, i: int): bv16
    requires 0 <= i < 9
  {
    IdxValue(i);
    ColWindow(m, Idx(i))
  }

  /**
   * The box check of `hidden_single`: shift box `i` to bit 0 (by
   * `27 * (i / 3) + i % 3 * 3`, its top-left cell), then fold its rows.
   */
  function BoxHouse(m: bv128, i: int): bv16
    requires 0 <= i < 9
  {
    BoxWindow(m, Idx(BoxOrigin(i)))
  }

  // ------------------------------------------------- bit-level extraction

  lemma RowAt(m: bv128, sb: bv7, kb: bv7, h: bv16, pb: bv7)
    requires sb <= 72 && kb < 9
    requires h == RowWindow(m, sb)
    requires pb == sb + kb
    ensures CandAt(h, kb) == BitAt(m, pb)
  {
  }

  lemma RowHigh(m: bv128, sb: bv7, kb: bv7, h: bv16)
    requires sb <= 72 && 9 <= kb
    requires h == RowWindow(m, sb)
    ensures !CandAt(h, kb)
  {
  }

  lemma ColAt(m: bv128, ib: bv7, kb: bv7, h: bv16, pb: bv7)
    requires ib < 9 && kb < 9
    requires h == ColWindow(m, ib)
    requires pb == 9 * kb + ib
    ensures CandAt(h, kb) == BitAt(m, pb)
  {
    if kb < 3 {
      ColTop(m, ib, kb, h, pb);
    } else if kb < 6 {
      ColMiddle(m, ib, kb, h, pb);
    } else {
      ColBottom(m, ib, kb, h, pb);
    }
  }

  lemma ColTop(m: bv128, ib: bv7, kb: bv7, h: bv16, pb: bv7)
    requires ib < 9 && kb < 3
    requires h == ColWindow(m, ib)
    requires pb == 9 * kb + ib
    ensures CandAt(h, kb) == BitAt(m, pb)
  {
    // One case per position keeps each bit-vector query small.
    if kb == 0 {
    } else if kb == 1 {
    } else {
    }
  }

  lemma ColMiddle(m: bv128, ib: bv7, kb: bv7, h: bv16, pb: bv7)
    requires ib < 9 && 3 <= kb < 6
    requires h == ColWindow(m, ib)
    requires pb == 9 * kb + ib
    ensures CandAt(h, kb) == BitAt(m, pb)
  {
    // One case per position keeps each bit-vector query small.
    if kb == 3 {
    } else if kb == 4 {
    } else {
    }
  }

  lemma ColBottom(m: bv128, ib: bv7, kb: bv7, h: bv16, pb: bv7)
    requires ib < 9 && 6 <= kb < 9
    requires h == ColWindow(m, ib)
    requires pb == 9 * kb + ib
    ensures CandAt(h, kb) == BitAt(m, pb)
  {
    // One case per position keeps each bit-vector query small.
    if kb == 6 {
    } else if kb == 7 {
    } else {
    }
  }

  lemma ColHigh(m: bv128, ib: bv7, kb: bv7, h: bv16)
    requires ib < 9 && 9 <= kb
    requires h == ColWindow(m, ib)
    ensures !CandAt(h, kb)
  {
  }

  /** `SHIFTS[k]` on bit indices. */
  function BoxShift(kb: bv7): bv7
  {
    if kb < 3 then kb else if kb < 6 then kb + 6 else kb + 12
  }

  lemma BoxTop(m: bv128, sb: bv7, kb: bv7, h: bv16, pb: bv7)
    requires sb <= 60 && kb < 3
    requires h == BoxWindow(m, sb)
    requires pb == sb + BoxShift(kb)
    ensures CandAt(h, kb) == BitAt(m, pb)
  {
    // One case per position keeps each bit-vector query small.
    if kb == 0 {
    } else if kb == 1 {
    } else {
    }
  }

  lemma BoxMiddle(m: bv128, sb: bv7, kb: bv7, h: bv16, pb: bv7)
    requires sb <= 60 && 3 <= kb < 6
    requires h == BoxWindow(m, sb)
    requires pb == sb + BoxShift(kb)
    ensures CandAt(h, kb) == BitAt(m, pb)
  {
    // One case per position keeps each bit-vector query small.
    if kb == 3 {
    } else if kb == 4 {
    } else {
    }
  }

  lemma BoxBottom(m: bv128, sb: bv7, kb: bv7, h: bv16, pb: bv7)
    requires sb <= 60 && 6 <= kb < 9
    requires h == BoxWindow(m, sb)
    requires pb == sb + BoxShift(kb)
    ensures CandAt(h, kb) == BitAt(m, pb)
  {
    // One case per position keeps each bit-vector query small.
    if kb == 6 {
    } else if kb == 7 {
    } else {
    }
  }

  lemma BoxHigh(m: bv128, sb: bv7, kb: bv7, h: bv16)
    requires sb <= 60 && 9 <= kb
    requires h == BoxWindow(m, sb)
    ensures !CandAt(h, kb)
  {
  }

  lemma IdxShift(k: int)
    requires 0 <= k < 9
    ensures Idx(SHIFTS[k]) == BoxShift(Idx(k))
  {
    IdxRange(k, 0, 9);
    if k < 3 {
      IdxRange(k, 0, 3);
    } else if k < 6 {
      IdxRange(k, 3, 6);
      IdxAdd(k, 6);
      IdxLiteral(6);
    } else {
      IdxRange(k, 6, 9);
      IdxAdd(k, 12);
      IdxLiteral(12);
    }
  }

  lemma RowIdx(i: int, k: int)
    requires 0 <= i < 9 && 0 <= k < 16
    ensures Idx(9 * i) <= 72
    ensures k < 9 ==> Idx(k) < 9 && Idx(9 * i + k) == Idx(9 * i) + Idx(k)
    ensures 9 <= k ==> 9 <= Idx(k)
  {
    IdxRange(9 * i, 0, 73);
    if k < 9 {
      IdxRange(k, 0, 9);
      IdxAdd(9 * i, k);
    } else {
      IdxRange(k, 9, 16);
    }
  }

  lemma ColIdx(i: int, k: int)
    requires 0 <= i < 9 && 0 <= k < 16
    ensures Idx(i) < 9
    ensures k < 9 ==> Idx(k) < 9 && Idx(9 * k + i) == 9 * Idx(k) + Idx(i)
    ensures 9 <= k ==> 9 <= Idx(k)
  {
    IdxRange(i, 0, 9);
    if k < 9 {
      IdxRange(k, 0, 9);
      IdxAdd(9 * k, i);
      IdxNine(k);
    } else {
      IdxRange(k, 9, 16);
    }
  }

  lemma BoxIdx(i: int, k: int)
    requires 0 <= i < 9 && 0 <= k < 16
    ensures Idx(BoxOrigin(i)) <= 60
    ensures k < 9 ==> Idx(k) < 9 && 0 <= BoxCell(i, k) < 128
    ensures k < 9 ==> Idx(BoxCell(i, k)) == Idx(BoxOrigin(i)) + BoxShift(Idx(k))
    ensures 9 <= k ==> 9 <= Idx(k)
  {
    IdxRange(BoxOrigin(i), 0, 61);
    if k < 9 {
      IdxRange(k, 0, 9);
      BoxCellIdx(i, k);
    } else {
      IdxRange(k, 9, 16);
    }
  }

  lemma BoxCellIdx(i: int, k: int)
    requires 0 <= i < 9 && 0 <= k < 9
    ensures 0 <= BoxCell(i, k) < 128
    ensures Idx(BoxCell(i, k)) == Idx(BoxOrigin(i)) + BoxShift(Idx(k))
  {
    IdxAdd(BoxOrigin(i), SHIFTS[k]);
    IdxShift(k);
  }

  // --------------------------------------------------- cell-level extraction

  /** Bit `k` of the row mask is bit `9 * i + k` of the map. */
  lemma RowBit(m: bv128, i: int, k: int)
    requires 0 <= i < 9 && 0 <= k < 16
    ensures Cand(RowHouse(m, i), k) == (k < 9 && Has(m, 9 * i + k))
  {
    RowIdx(i, k);
    if k < 9 {
      RowAt(m, Idx(9 * i), Idx(k), RowHouse(m, i), Idx(9 * i + k));
    } else {
      RowHigh(m, Idx(9 * i), Idx(k), RowHouse(m, i));
    }
  }

  /** Bit `k` of the column mask is bit `9 * k + i` of the map. */
  lemma ColBit(m: bv128, i: int, k: int)
    requires 0 <= i < 9 && 0 <= k < 16
    ensures Cand(ColHouse(m, i), k) == (k < 9 && Has(m, 9 * k + i))
  {
    ColIdx(i, k);
    if k < 9 {
      ColAt(m, Idx(i), Idx(k), ColHouse(m, i), Idx(9 * k + i));
    } else {
      ColHigh(m, Idx(i), Idx(k), ColHouse(m, i));
    }
  }

  /** Bit `k` of the box mask is the bit of cell `k` of box `i` (`boxi[i][k]`). */
  lemma BoxBit(m: bv128, i: int, k: int)
    requires 0 <= i < 9 && 0 <= k < 16
    ensures Cand(BoxHouse(m, i), k) == (k < 9 && Has(m, BoxCell(i, k)))
  {
    BoxIdx(i, k);
    if k < 3 {
      BoxBitTop(m, i, k);
    } else if k < 6 {
      BoxBitMiddle(m, i, k);
    } else if k < 9 {
      BoxBitBottom(m, i, k);
    } else {
      BoxHigh(m, Idx(BoxOrigin(i)), Idx(k), BoxHouse(m, i));
    }
  }

  lemma BoxBitTop(m: bv128, i: int, k: int)
    requires 0 <= i < 9 && 0 <= k < 3
    ensures Cand(BoxHouse(m, i), k) == Has(m, BoxCell(i, k))
  {
    BoxIdx(i, k);
    IdxRange(k, 0, 3);
    BoxTop(m, Idx(BoxOrigin(i)), Idx(k), BoxHouse(m, i), Idx(BoxCell(i, k)));
  }

  lemma BoxBitMiddle(m: bv128, i: int, k: int)
    requires 0 <= i < 9 && 3 <= k < 6
    ensures Cand(BoxHouse(m, i), k) == Has(m, BoxCell(i, k))
  {
    BoxIdx(i, k);
    IdxRange(k, 3, 6);
    BoxMiddle(m, Idx(BoxOrigin(i)), Idx(k), BoxHouse(m, i), Idx(BoxCell(i, k)));
  }

  lemma BoxBitBottom(m: bv128, i: int, k: int)
    requires 0 <= i < 9 && 6 <= k < 9
    ensures Cand(BoxHouse(m, i), k) == Has(m, BoxCell(i, k))
  {
    BoxIdx(i, k);
    IdxRange(k, 6, 9);
    BoxBottom(m, Idx(BoxOrigin(i)), Idx(k), BoxHouse(m, i), Idx(BoxCell(i, k)));
  }

  // ------------------------------------------------------------- any house

  /** The mask `hidden_single` extracts for house `i` of kind `h`. */
  function HouseMask(m: bv128, h: Kind, i: int): bv16
    requires 0 <= i < 9
  {
    match h
    case RowKind => RowHouse(m, i)
    case ColKind => ColHouse(m, i)
    case BoxKind => BoxHouse(m, i)
  }

  lemma HouseBit(x: bv128, h: Kind, i: int, k: int)
    requires 0 <= i < 9 && 0 <= k < 16
    ensures Cand(HouseMask(!x, h, i), k) == (k < 9 && HouseCell(h, i, k) !in CellSet(x))
  {
    var m := HouseMask(!x, h, i);
    match h
    case RowKind =>
      RowHouseBit(x, i, k);
      assert m == RowHouse(!x, i);
    case ColKind =>
      ColHouseBit(x, i, k);
      assert m == ColHouse(!x, i);
    case BoxKind =>
      BoxHouseBit(x, i, k);
      assert m == BoxHouse(!x, i);
  }

  lemma RowHouseBit(x: bv128, i: int, k: int)
    requires 0 <= i < 9 && 0 <= k < 16
    ensures Cand(RowHouse(!x, i), k) == (k < 9 && 9 * i + k !in CellSet(x))
  {
    RowBit(!x, i, k);
    if k < 9 {
      Complement(x, 9 * i + k);
    }
  }

  lemma ColHouseBit(x: bv128, i: int, k: int)
    requires 0 <= i < 9 && 0 <= k < 16
    ensures Cand(ColHouse(!x, i), k) == (k < 9 && 9 * k + i !in CellSet(x))
  {
    ColBit(!x, i, k);
    if k < 9 {
      Complement(x, 9 * k + i);
    }
  }

  lemma BoxHouseBit(x: bv128, i: int, k: int)
    requires 0 <= i < 9 && 0 <= k < 16
    ensures Cand(BoxHouse(!x, i), k) == (k < 9 && BoxCell(i, k) !in CellSet(x))
  {
    BoxBit(!x, i, k);
    if k < 9 {
      BoxCellInv(i, k);
      Complement(x, BoxCell(i, k));
    }
  }

  /**
   * The extracted mask of `~x` holds exactly the positions of the house's
   * cells that `x` leaves open.
   */
  lemma HouseDigits(x: bv128, h: Kind, i: int)
    requires 0 <= i < 9
    ensures DigitSet(HouseMask(!x, h, i)) == set k | 0 <= k < 9 && HouseCell(h, i, k) !in CellSet(x)
  {
    var open := set k | 0 <= k < 9 && HouseCell(h, i, k) !in CellSet(x);
    forall k
      ensures k in DigitSet(HouseMask(!x, h, i)) <==> k in open
    {
      if 0 <= k < 16 {
        HouseBit(x, h, i, k);
      }
    }
  }
}
