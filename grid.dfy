/**
 * The solver's grid as it is stored: per cell a collapsed digit, a 9-bit
 * candidate mask and a flag byte, and per digit a 128-bit mask with bit
 * `c` set when the digit can no longer go on cell `c`.  Every operation is
 * proved to take the grid's snapshot (`Abs`) exactly where the matching
 * function of module Snapshot says; the properties of those functions are
 * proved there.
 */
module Engine {
  import opened Bits
  import opened Topology
  import opened Houses
  import opened Snapshot
  import opened Strikes

  const FLAG_COLLAPSED: bv8 := 1
  const FLAG_GIVEN: bv8 := 2

  function CandsOf(cells: seq<bv16>): (r: seq<set<int>>)
    ensures |r| == |cells|
  {
    seq(|cells|, c requires 0 <= c < |cells| => DigitSet(cells[c]))
  }

  function ClosedOf(flags: seq<bv8>): (r: seq<bool>)
    ensures |r| == |flags|
  {
    seq(|flags|, c requires 0 <= c < |flags| => flags[c] & FLAG_COLLAPSED != 0)
  }

  function GivenOf(flags: seq<bv8>): (r: seq<bool>)
    ensures |r| == |flags|
  {
    seq(|flags|, c requires 0 <= c < |flags| => flags[c] & FLAG_GIVEN != 0)
  }

  function MasksOf(dm: seq<bv128>): (r: seq<set<int>>)
    ensures |r| == |dm|
  {
    seq(|dm|, v requires 0 <= v < |dm| => CellSet(dm[v]))
  }

  /** Setting the COLLAPSED bit of one flag byte closes that cell and nothing else. */
  lemma MarkCollapsed(flags: seq<bv8>, c: int)
    requires 0 <= c < |flags|
    ensures ClosedOf(flags[c := flags[c] | FLAG_COLLAPSED]) == ClosedOf(flags)[c := true]
    ensures GivenOf(flags[c := flags[c] | FLAG_COLLAPSED]) == GivenOf(flags)
  {
  }

  /** Setting the GIVEN bit of one flag byte marks that cell given and nothing else. */
  lemma MarkGiven(flags: seq<bv8>, c: int)
    requires 0 <= c < |flags|
    ensures ClosedOf(flags[c := flags[c] | FLAG_GIVEN]) == ClosedOf(flags)
    ensures GivenOf(flags[c := flags[c] | FLAG_GIVEN]) == GivenOf(flags)[c := true]
  {
  }

  /** A visit adds `p` to the visited set, unless `p` is the collapsing cell. */
  lemma VisitSet(done: set<int>, p: int, cell: int)
    ensures p == cell ==> done + ({p} - {cell}) == done
    ensures p != cell ==> done + ({p} - {cell}) == done + {p}
  {
  }

  /** The walk's effect on the candidate masks is the snapshot's striking of `value` from the peers. */
  lemma CandsAfterWalk(s: Snap, before: seq<bv16>, cell: int, value: int)
    requires Sized(s) && 0 <= cell < 81 && 0 <= value < 9
    requires |before| == 81 && s.cands == CandsOf(before)
    ensures CandsOf(Struck(before, Walked(cell, 9), MASK_HOUSE ^ Digit(value))) == Collapsed(s, cell, value).cands
  {
    WalkedAll(cell);
    var after := Struck(before, Walked(cell, 9), MASK_HOUSE ^ Digit(value));
    forall p | 0 <= p < 81
      ensures CandsOf(after)[p] == Collapsed(s, cell, value).cands[p]
    {
      if Peer(cell, p) {
        Strike(before[p], value);
      }
    }
  }

  /** One digit map after both halves of `collapse`: the cell, and for the collapsed digit its peers too. */
  lemma MaskAfterWalk(s: Snap, before: seq<bv128>, mid: seq<bv128>, after: seq<bv128>, cell: int, value: int, w: int)
    requires Sized(s) && 0 <= cell < 81 && 0 <= value < 9 && 0 <= w < 9
    requires |before| == 9 && |mid| == 9 && |after| == 9 && s.dm == MasksOf(before)
    requires mid == Ored(before, Single(cell))
    requires after == mid[value := after[value]]
    requires CellSet(after[value]) == CellSet(mid[value]) + Walked(cell, 9)
    ensures CellSet(after[w]) == if w == value then s.dm[w] + {cell} + PeersOf(cell) else s.dm[w] + {cell}
  {
    WalkedAll(cell);
    var x := before[w];
    SetBit(x, cell);
    assert CellSet(mid[w]) == s.dm[w] + {cell};
    if w != value {
      assert after[w] == mid[w];
    }
  }

  /**
   * The two halves of `collapse` on the digit maps: `mid` has the cell
   * marked in every digit, `after` has the walked peers marked too in the
   * collapsed digit; together they are the snapshot's marking.
   */
  lemma MasksAfterWalk(s: Snap, before: seq<bv128>, mid: seq<bv128>, after: seq<bv128>, cell: int, value: int)
    requires Sized(s) && 0 <= cell < 81 && 0 <= value < 9
    requires |before| == 9 && |mid| == 9 && |after| == 9 && s.dm == MasksOf(before)
    requires mid == Ored(before, Single(cell))
    requires after == mid[value := after[value]]
    requires CellSet(after[value]) == CellSet(mid[value]) + Walked(cell, 9)
    ensures MasksOf(after) == Collapsed(s, cell, value).dm
  {
    forall w | 0 <= w < 9
      ensures MasksOf(after)[w] == Collapsed(s, cell, value).dm[w]
    {
      MaskAfterWalk(s, before, mid, after, cell, value, w);
    }
  }

  /** The snapshot after `collapse`, assembled field by field from what each step did to the arrays. */
  lemma CollapseAbs(s: Snap, cell: int, value: int,
                    col0: seq<int>, cells0: seq<bv16>, flags0: seq<bv8>, dm0: seq<bv128>, dmMid: seq<bv128>,
                    col1: seq<int>, cells1: seq<bv16>, flags1: seq<bv8>, dm1: seq<bv128>)
    requires 0 <= cell < 81 && 0 <= value < 9
    requires |col0| == 81 && |cells0| == 81 && |flags0| == 81 && |dm0| == 9 && |dmMid| == 9 && |dm1| == 9
    requires s == Snap(col0, CandsOf(cells0), ClosedOf(flags0), GivenOf(flags0), MasksOf(dm0))
    requires col1 == col0[cell := value]
    requires flags1 == flags0[cell := flags0[cell] | FLAG_COLLAPSED]
    requires cells1 == Struck(cells0, Walked(cell, 9), MASK_HOUSE ^ Digit(value))
    requires dmMid == Ored(dm0, Single(cell))
    requires dm1 == dmMid[value := dm1[value]]
    requires CellSet(dm1[value]) == CellSet(dmMid[value]) + Walked(cell, 9)
    ensures Snap(col1, CandsOf(cells1), ClosedOf(flags1), GivenOf(flags1), MasksOf(dm1)) == Collapsed(s, cell, value)
  {
    MarkCollapsed(flags0, cell);
    CandsAfterWalk(s, cells0, cell, value);
    MasksAfterWalk(s, dm0, dmMid, dm1, cell, value);
  }

  /**
   * The cell each check of `hidden_single` collapses, from the position
   * `pos` of the single bit: `9 * i + pos` in a row, `i + 9 * pos` in a
   * column, `boxi[i][pos]` in a box.
   */
  function Target(h: Kind, i: int, pos: int): (c: int)
    requires 0 <= i < 9 && 0 <= pos < 9
    ensures c == HouseCell(h, i, pos)
  {
    match h
    case RowKind => 9 * i + pos
    case ColKind => i + 9 * pos
    case BoxKind => BoxiFormula(i, pos); BOXI[i][pos]
  }

  /**
   * Reading a hidden single off a digit map `x`: one bit left in the
   * house window of `~x` is a hidden single, and `ffs - 1` names its cell.
   */
  lemma HouseSingle(s: Snap, x: bv128, h: Kind, i: int, v: int)
    requires Sized(s) && 0 <= i < 9 && 0 <= v < 9 && s.dm[v] == CellSet(x)
    ensures (PopCount(HouseMask(!x, h, i)) == 1) == HiddenAt(s, h, i, v)
    ensures PopCount(HouseMask(!x, h, i)) == 1 ==>
      Ffs(HouseMask(!x, h, i)) - 1 < 9 && Target(h, i, Ffs(HouseMask(!x, h, i)) - 1) == HiddenCell(s, h, i, v)
  {
    var house := HouseMask(!x, h, i);
    HouseDigits(x, h, i);
    assert DigitSet(house) == HouseOpen(s, h, i, v);
    if PopCount(house) == 1 {
      SingleBit(house);
    }
  }

  class Grid {
    const collapsed: array<int>
    const cells: array<bv16>
    const flags: array<bv8>
    const dm: array<bv128>

    /** The four arrays are distinct and have the sizes of the source's fixed buffers. */
    predicate Shaped()
    {
      collapsed as object != cells as object && collapsed as object != flags as object &&
      collapsed as object != dm as object && cells as object != flags as object &&
      cells as object != dm as object && flags as object != dm as object &&
      collapsed.Length == 81 && cells.Length == 81 && flags.Length == 81 && dm.Length == 9
    }

    /** The snapshot this grid stores. */
    ghost function Abs(): (s: Snap)
      reads collapsed, cells, flags, dm
      requires Shaped()
      ensures Sized(s)
    {
      Snap(collapsed[..], CandsOf(cells[..]), ClosedOf(flags[..]), GivenOf(flags[..]), MasksOf(dm[..]))
    }

    ghost predicate Valid()
      reads collapsed, cells, flags, dm
    {
      Shaped() && Inv(Abs())
    }

    /** `new`: all cells open with every candidate, all masks clear. */
    constructor ()
      ensures Valid() && Abs() == EmptySnap()
      ensures fresh(collapsed) && fresh(cells) && fresh(flags) && fresh(dm)
    {
      collapsed := new int[81](_ => 0);
      cells := new bv16[81](_ => MASK_HOUSE);
      flags := new bv8[81](_ => 0);
      dm := new bv128[9](_ => 0);
      new;
      FullMask();
      CellSetZero();
      assert collapsed[..] == EmptySnap().collapsed;
      assert CandsOf(cells[..]) == EmptySnap().cands;
      assert ClosedOf(flags[..]) == EmptySnap().closed;
      assert GivenOf(flags[..]) == EmptySnap().given;
      assert MasksOf(dm[..]) == EmptySnap().dm;
    }

    /** `load`'s `flags[i] |= FLAG_GIVEN`: cell `cell` is flagged given, nothing else changes. */
    method Give(cell: int)
      requires Shaped() && 0 <= cell < 81
      modifies flags
      ensures Abs() == old(Abs()).(given := old(Abs()).given[cell := true])
    {
      MarkGiven(flags[..], cell);
      flags[cell] := flags[cell] | FLAG_GIVEN;
    }

    /** `collapse` places the digit and closes the cell. */
    method Place(cell: int, value: int)
      requires Shaped() && 0 <= cell < 81
      modifies collapsed, flags
      ensures collapsed[..] == old(collapsed[..])[cell := value]
      ensures flags[..] == old(flags[..])[cell := old(flags[cell]) | FLAG_COLLAPSED]
    {
      collapsed[cell] := value;
      flags[cell] := flags[cell] | FLAG_COLLAPSED;
    }

    /** The first half of `collapse`: OR `vmask` into the map of every digit. */
    method MarkEverywhere(vmask: bv128)
      requires Shaped()
      modifies dm
      ensures dm[..] == Ored(old(dm[..]), vmask)
    {
      ghost var before := dm[..];
      ghost var done: set<int> := {};
      for v := 0 to 9
        invariant forall q :: q in done <==> 0 <= q < v
        invariant dm[..] == Select(before, Ored(before, vmask), done)
      {
        ghost var pre := dm[..];
        var x := dm[v];
        assert x == before[v];
        dm[v] := Join(x, vmask);
        assert dm[..] == pre[v := Join(x, vmask)];
        SelectAdd(before, Ored(before, vmask), done, v);
        done := done + {v};
      }
      SelectAll(before, Ored(before, vmask), done);
    }

    /**
     * One visit of the walk: unless `p` is `cell` itself, strike `mask`
     * into `p`'s candidates and set bit `p` of `marks`, the mask of the
     * collapsed digit.
     */
    method Visit(p: int, cell: int, mask: bv16, marks: bv128, ghost orig: seq<bv16>, ghost done: set<int>)
      returns (marks': bv128)
      requires Shaped() && 0 <= p < 81 && |orig| == 81
      requires cells[..] == Struck(orig, done, mask)
      modifies cells
      ensures cells[..] == Struck(orig, done + ({p} - {cell}), mask)
      ensures CellSet(marks') == CellSet(marks) + ({p} - {cell})
    {
      VisitSet(done, p, cell);
      marks' := marks;
      if p != cell {
        StruckAdd(orig, done, p, mask);
        cells[p] := Keep(cells[p], mask);
        SetBit(marks, p);
        marks' := Join(marks, Single(p));
      }
    }

    /** Round `i` of the walk: visit the `i`-th cell of the row, of the column and of the box of `cell`. */
    method VisitRound(cell: int, i: int, row: int, col: int, box: int, mask: bv16, marks: bv128, ghost orig: seq<bv16>)
      returns (marks': bv128)
      requires Shaped() && 0 <= cell < 81 && 0 <= i < 9 && |orig| == 81
      requires row == 9 * Row(cell) + i && col == Col(cell) + 9 * i && box == Box(cell)
      requires cells[..] == Struck(orig, Walked(cell, i), mask)
      modifies cells
      ensures cells[..] == Struck(orig, Walked(cell, i + 1), mask)
      ensures CellSet(marks') == CellSet(marks) + WalkRound(cell, i)
    {
      BoxCellOnto(cell);
      BoxiFormula(box, i);
      var b := BOXI[box][i];
      WalkBounds(cell, i, row, col, b);
      WalkedStep(cell, i, row, col, b);
      ghost var s0 := Walked(cell, i);
      var m1 := Visit(row, cell, mask, marks, orig, s0);
      var m2 := Visit(col, cell, mask, m1, orig, s0 + ({row} - {cell}));
      marks' := Visit(b, cell, mask, m2, orig, s0 + ({row} - {cell}) + ({col} - {cell}));
      RoundUnion(s0, row, col, b, cell);
      RoundUnion(CellSet(marks), row, col, b, cell);
    }

    /**
     * The second half of `collapse`: walk the row, the column and the box of
     * `cell` in nine rounds, striking `value` from each peer's candidates and
     * marking the peer in the mask of `value`.
     */
    method WalkPeers(cell: int, value: int)
      requires Shaped() && 0 <= cell < 81 && 0 <= value < 9
      modifies cells, dm
      ensures cells[..] == Struck(old(cells[..]), Walked(cell, 9), MASK_HOUSE ^ Digit(value))
      ensures CellSet(dm[value]) == CellSet(old(dm[value])) + Walked(cell, 9)
      ensures dm[..] == old(dm[..])[value := dm[value]]
    {
      var mask := MASK_HOUSE ^ Digit(value);
      var (r, c, b) := HCord(cell);
      HCordFormula(cell);
      var row, col, box := r * 9, c, b;
      var marks := dm[value];
      for i := 0 to 9
        invariant row == 9 * Row(cell) + i && col == Col(cell) + 9 * i && box == Box(cell)
        invariant cells[..] == Struck(old(cells[..]), Walked(cell, i), mask)
        invariant CellSet(marks) == CellSet(old(dm[value])) + Walked(cell, i)
        modifies cells
      {
        marks := VisitRound(cell, i, row, col, box, mask, marks, old(cells[..]));
        UnionAssoc(CellSet(old(dm[value])), Walked(cell, i), WalkRound(cell, i));
        row, col := row + 1, col + 9;
      }
      dm[value] := marks;
    }

    /**
     * `collapse`: place `value` on `cell`, mark the cell in every digit
     * mask, and walk its row, column and box striking `value` from each
     * peer's candidates and marking the peer in the mask of `value`.
     */
    method Collapse(cell: int, value: int)
      requires Shaped() && 0 <= cell < 81 && 0 <= value < 9
      modifies collapsed, cells, flags, dm
      ensures Abs() == Collapsed(old(Abs()), cell, value)
    {
      Place(cell, value);
      ghost var col1, flags1 := collapsed[..], flags[..];
      MarkEverywhere(Single(cell));
      ghost var dmMid := dm[..];
      WalkPeers(cell, value);
      assert collapsed[..] == col1 && flags[..] == flags1;
      CollapseAbs(old(Abs()), cell, value, old(collapsed[..]), old(cells[..]), old(flags[..]), old(dm[..]), dmMid,
                  collapsed[..], cells[..], flags[..], dm[..]);
    }

    /**
     * `naked_single_c`: an open cell whose mask has exactly one bit left is
     * collapsed to that digit (`ffs - 1`); returns how many cells it closed.
     */
    method NakedSingleC(cell: int) returns (k: int)
      requires Valid() && 0 <= cell < 81
      modifies collapsed, cells, flags, dm
      ensures Valid()
      ensures Abs() == NakedStep(old(Abs()), cell).0 && k == NakedStep(old(Abs()), cell).1
    {
      var x := cells[cell];
      if flags[cell] & FLAG_COLLAPSED == 0 && PopCount(x) == 1 {
        ghost var s := Abs();
        assert NakedAt(s, cell);
        SingleBit(x);
        var value := Ffs(x) - 1;
        OnlyMember(s.cands[cell]);
        Collapse(cell, value);
        CollapseInv(s, cell, value);
        k := 1;
      } else {
        k := 0;
      }
    }

    /** `naked_single`: `naked_single_c` on every cell in order; returns the total it closed. */
    method NakedSingle() returns (k: int)
      requires Valid()
      modifies collapsed, cells, flags, dm
      ensures Valid()
      ensures Abs() == NakedPass(old(Abs()), 0).0 && k == NakedPass(old(Abs()), 0).1
    {
      ghost var s0 := Abs();
      k := 0;
      for c := 0 to 81
        invariant Valid()
        invariant NakedPass(s0, 0).0 == NakedPass(Abs(), c).0
        invariant NakedPass(s0, 0).1 == k + NakedPass(Abs(), c).1
      {
        ghost var s := Abs();
        NakedPassStep(s, c);
        var d := NakedSingleC(c);
        k := k + d;
      }
    }

    /**
     * The test half of one check of `hidden_single`: extract house `i` of
     * kind `h` from the complement of the mask of `v`; it finds a hidden
     * single exactly when one bit is left, and `cell` is then where `v` goes.
     */
    method FindHidden(h: Kind, i: int, v: int) returns (found: bool, cell: int)
      requires Shaped() && 0 <= i < 9 && 0 <= v < 9
      ensures found == HiddenAt(Abs(), h, i, v)
      ensures found ==> cell == HiddenCell(Abs(), h, i, v)
    {
      var m := dm[v];
      HouseSingle(Abs(), m, h, i, v);
      var house := HouseMask(!m, h, i);
      found := PopCount(house) == 1;
      cell := 0;
      if found {
        cell := Target(h, i, Ffs(house) - 1);
      }
    }

    /**
     * One check of `hidden_single`: when digit `v` fits in exactly one
     * cell of house `i` of kind `h`, collapse that cell to `v`.  Returns
     * how many cells it closed.
     */
    method HiddenCheck(h: Kind, i: int, v: int) returns (k: int)
      requires Valid() && 0 <= i < 9 && 0 <= v < 9
      modifies collapsed, cells, flags, dm
      ensures Valid()
      ensures Abs() == HiddenStep(old(Abs()), h, i, v).0 && k == HiddenStep(old(Abs()), h, i, v).1
    {
      ghost var s := Abs();
      HiddenStepCount(s, h, i, v);
      var found, cell := FindHidden(h, i, v);
      if found {
        Collapse(cell, v);
        k := 1;
      } else {
        k := 0;
      }
    }

    /** The three checks of `hidden_single` for house index `i` and digit `v`: row, column, box. */
    method HiddenDigit(i: int, v: int) returns (k: int)
      requires Valid() && 0 <= i < 9 && 0 <= v < 9
      modifies collapsed, cells, flags, dm
      ensures Valid()
      ensures Abs() == DigitChecks(old(Abs()), i, v).0 && k == DigitChecks(old(Abs()), i, v).1
    {
      var a := HiddenCheck(RowKind, i, v);
      var b := HiddenCheck(ColKind, i, v);
      var c := HiddenCheck(BoxKind, i, v);
      k := a + b + c;
    }

    /** The inner loop of `hidden_single` for house index `i`: every digit in turn. */
    method HiddenHouse(i: int) returns (k: int)
      requires Valid() && 0 <= i < 9
      modifies collapsed, cells, flags, dm
      ensures Valid()
      ensures Abs() == HouseChecks(old(Abs()), i, 0).0 && k == HouseChecks(old(Abs()), i, 0).1
    {
      ghost var s0 := Abs();
      k := 0;
      for v := 0 to 9
        invariant Valid()
        invariant HouseChecks(s0, i, 0).0 == HouseChecks(Abs(), i, v).0
        invariant HouseChecks(s0, i, 0).1 == k + HouseChecks(Abs(), i, v).1
      {
        var d := HiddenDigit(i, v);
        k := k + d;
      }
    }

    /** `hidden_single`: every house index, every digit, the three checks; returns the total closed. */
    method HiddenSingle() returns (k: int)
      requires Valid()
      modifies collapsed, cells, flags, dm
      ensures Valid()
      ensures Abs() == HiddenPass(old(Abs())).0 && k == HiddenPass(old(Abs())).1
    {
      ghost var s0 := Abs();
      k := 0;
      for i := 0 to 9
        invariant Valid()
        invariant HiddenPass(s0).0 == HiddenFrom(Abs(), i, 0, 0).0
        invariant HiddenPass(s0).1 == k + HiddenFrom(Abs(), i, 0, 0).1
      {
        HouseChecksFrom(Abs(), i, 0);
        var d := HiddenHouse(i);
        k := k + d;
      }
    }

    /**
     * `solve`: a naked-single pass and a hidden-single pass, repeated until
     * a round closes no cell.
     */
    method Solve()
      requires Valid()
      modifies collapsed, cells, flags, dm
      ensures Valid() && Abs() == Propagate(old(Abs()))
    {
      while true
        invariant Valid() && Propagate(Abs()) == Propagate(old(Abs()))
        decreases |Open(Abs())|
      {
        ghost var s := Abs();
        var ns := NakedSingle();
        var hs := HiddenSingle();
        RoundProgress(s);
        if ns + hs == 0 {
          break;
        }
      }
    }

    /**
     * The body of `check`'s loop for one cell: when it is collapsed, test
     * its digit against the records of its row, column and box (`hcord`
     * names them), and record it in all three unless one already has it.
     */
    method CheckCell(rows: array<bv16>, cols: array<bv16>, boxes: array<bv16>, cell: int, ghost s: Snap)
      returns (twin: bool)
      requires Shaped() && s == Abs() && 0 <= cell < 81
      requires s.closed[cell] ==> 0 <= s.collapsed[cell] < 9
      requires rows.Length == 9 && cols.Length == 9 && boxes.Length == 9
      requires rows != cols && rows != boxes && cols != boxes
      requires CandsOf(rows[..]) == SeenAll(s, RowKind, cell)
      requires CandsOf(cols[..]) == SeenAll(s, ColKind, cell)
      requires CandsOf(boxes[..]) == SeenAll(s, BoxKind, cell)
      modifies rows, cols, boxes
      ensures twin == HasEarlierTwin(s, cell)
      ensures !twin ==> CandsOf(rows[..]) == SeenAll(s, RowKind, cell + 1)
      ensures !twin ==> CandsOf(cols[..]) == SeenAll(s, ColKind, cell + 1)
      ensures !twin ==> CandsOf(boxes[..]) == SeenAll(s, BoxKind, cell + 1)
    {
      SeenNext(s, RowKind, cell);
      SeenNext(s, ColKind, cell);
      SeenNext(s, BoxKind, cell);
      twin := false;
      if flags[cell] & FLAG_COLLAPSED != 0 {
        assert s.closed[cell];
        var (row, col, box) := HCord(cell);
        HCordFormula(cell);
        assert row == HouseOf(RowKind, cell) && col == HouseOf(ColKind, cell) && box == HouseOf(BoxKind, cell);
        var d := collapsed[cell];
        var value := Digit(d);
        TwinSeen(s, cell);
        if Recorded(rows, row, value, d) || Recorded(cols, col, value, d) || Recorded(boxes, box, value, d) {
          twin := true;
        } else {
          Record(rows, row, value, d);
          Record(cols, col, value, d);
          Record(boxes, box, value, d);
          assert CandsOf(rows[..]) == SeenAll(s, RowKind, cell + 1);
          assert CandsOf(cols[..]) == SeenAll(s, ColKind, cell + 1);
        }
      } else {
        assert !s.closed[cell];
      }
    }

    /**
     * `check`: scan the collapsed cells in order, recording each digit per
     * row, column and box; return the first cell whose digit is already
     * recorded for one of its houses, or 0 when there is none.  Cell 0
     * can never be that cell, so 0 is unambiguous.
     */
    method Check() returns (r: int)
      requires Shaped()
      requires forall c :: 0 <= c < 81 && Abs().closed[c] ==> 0 <= Abs().collapsed[c] < 9
      ensures 0 <= r < 81
      ensures r == 0 <==> NoConflict(Abs())
      ensures r != 0 ==> HasEarlierTwin(Abs(), r) && forall c :: 0 <= c < r ==> !HasEarlierTwin(Abs(), c)
    {
      ghost var s := Abs();
      NoConflictNoTwin(s);
      var rows := new bv16[9](_ => 0);
      var cols := new bv16[9](_ => 0);
      var boxes := new bv16[9](_ => 0);
      ZeroMask();
      SeenNone(s, RowKind);
      SeenNone(s, ColKind);
      SeenNone(s, BoxKind);
      for cell := 0 to 81
        invariant CandsOf(rows[..]) == SeenAll(s, RowKind, cell)
        invariant CandsOf(cols[..]) == SeenAll(s, ColKind, cell)
        invariant CandsOf(boxes[..]) == SeenAll(s, BoxKind, cell)
        invariant forall c :: 0 <= c < cell ==> !HasEarlierTwin(s, c)
      {
        var twin := CheckCell(rows, cols, boxes, cell, s);
        if twin {
          return cell;
        }
        NoTwinNext(s, cell);
      }
      return 0;
    }
  }

  /**
   * `load`: a fresh grid with every '1'..'9' of `src` collapsed to that
   * digit less one and flagged given, in cell order.
   */
  method Load(src: seq<char>) returns (g: Grid)
    requires |src| == 81
    ensures fresh(g.collapsed) && fresh(g.cells) && fresh(g.flags) && fresh(g.dm)
    ensures g.Valid() && g.Abs() == Loaded(src)
  {
    g := new Grid();
    for i := 0 to 81
      invariant g.Shaped()
      invariant fresh(g.collapsed) && fresh(g.cells) && fresh(g.flags) && fresh(g.dm)
      invariant LoadFrom(g.Abs(), src, i) == Loaded(src)
    {
      var v := src[i];
      if '1' <= v <= '9' {
        g.Collapse(i, v as int - '1' as int);
        g.Give(i);
      }
    }
    LoadedFacts(src);
  }

  /** Loading a puzzle whose first two cells hold the same digit character gives cell 1 an earlier twin. */
  lemma TwinGivensLoaded(src: seq<char>)
    requires |src| == 81 && IsDigitChar(src[0]) && src[1] == src[0]
    ensures Inv(Loaded(src)) && HasEarlierTwin(Loaded(src), 1)
  {
    LoadedFacts(src);
    assert Peer(1, 0);
    assert TwinOf(Loaded(src), 1, 0);
  }

  /** Two equal givens side by side in the first row, as in "55...": `check` names the second, cell 1. */
  method CheckTwinGivens(src: seq<char>) returns (r: int)
    requires |src| == 81 && IsDigitChar(src[0]) && src[1] == src[0]
    ensures r == 1
  {
    var g := Load(src);
    TwinGivensLoaded(src);
    r := g.Check();
  }

  /** `houses[i] & value`: digit `d` is recorded for house `i`. */
  function Recorded(houses: array<bv16>, i: int, value: bv16, ghost d: int): (b: bool)
    reads houses
    requires houses.Length == 9 && 0 <= i < 9 && 0 <= d < 9 && value == Digit(d)
    ensures b == (d in CandsOf(houses[..])[i])
  {
    TestDigit(houses[i], d);
    houses[i] & value != 0
  }

  /** `houses[i] |= value`: record digit `d` for house `i`. */
  method Record(houses: array<bv16>, i: int, value: bv16, ghost d: int)
    requires houses.Length == 9 && 0 <= i < 9 && 0 <= d < 9 && value == Digit(d)
    modifies houses
    ensures CandsOf(houses[..]) == CandsOf(old(houses[..]))[i := CandsOf(old(houses[..]))[i] + {d}]
  {
    AddDigit(houses[i], d);
    houses[i] := houses[i] | value;
  }
}
