/**
 * The solver's grid as plain values, and the solver's operations as
 * functions on those values.  A snapshot records, for every cell, its
 * collapsed digit, its candidate digits and its two flags, and for every
 * digit the "digit mask": the cells where that digit can no longer go.
 * Digits are 0..8 (the character '1' is digit 0), cells are 0..80 in
 * row-major order.
 *
 * The class in module Engine keeps the same information in bit masks and
 * is proved to move from snapshot to snapshot exactly as these functions
 * say; everything the solver promises is proved here, on the snapshots.
 */
module Snapshot {
  import opened Bits
  import opened Topology

  datatype Snap = Snap(
    collapsed: seq<int>,     // the digit placed on each collapsed cell
    cands: seq<set<int>>,    // the candidate digits of each cell
    closed: seq<bool>,       // the COLLAPSED flag of each cell
    given: seq<bool>,        // the GIVEN flag of each cell
    dm: seq<set<int>>)       // per digit, the cells where it cannot go

  predicate Sized(s: Snap)
  {
    |s.collapsed| == 81 && |s.cands| == 81 && |s.closed| == 81 && |s.given| == 81 && |s.dm| == 9
  }

  /** The cells that are not collapsed yet. */
  function Open(s: Snap): set<int>
    requires Sized(s)
  {
    set c | 0 <= c < 81 && !s.closed[c]
  }

  /**
   * What every grid the solver builds satisfies: candidates are digits;
   * collapsed cells hold digits and are excluded from every digit mask; on
   * an open cell the digit masks mirror the candidates exactly; and no
   * digit mask forgets a peer of a cell already holding that digit.
   */
  predicate Inv(s: Snap)
  {
    Sized(s) &&
    (forall c :: 0 <= c < 81 ==> s.cands[c] <= Digits()) &&
    (forall c :: 0 <= c < 81 && s.closed[c] ==> 0 <= s.collapsed[c] < 9) &&
    (forall v :: 0 <= v < 9 ==> forall c :: c in s.dm[v] ==> 0 <= c < 81) &&
    (forall v, c :: 0 <= v < 9 && 0 <= c < 81 && s.closed[c] ==> c in s.dm[v]) &&
    (forall v, c :: 0 <= v < 9 && 0 <= c < 81 && !s.closed[c] ==>
       (c in s.dm[v] <==> v !in s.cands[c])) &&
    (forall c, p :: 0 <= c < 81 && 0 <= p < 81 && !s.closed[c] && s.closed[p] && Peer(c, p) ==>
       c in s.dm[s.collapsed[p]])
  }

  /** Open cell `c` can still take digit `v`. */
  predicate CanTake(s: Snap, c: int, v: int)
    requires Sized(s)
  {
    0 <= c < 81 && !s.closed[c] && v in s.cands[c]
  }

  /** No two peers hold the same digit. */
  predicate NoConflict(s: Snap)
    requires Sized(s)
  {
    forall c, p :: 0 <= c < 81 && 0 <= p < 81 && s.closed[c] && s.closed[p] && Peer(c, p) ==>
      s.collapsed[c] != s.collapsed[p]
  }

  /**
   * `t` is a later state of `s`: collapsed cells keep their digit, the
   * GIVEN flags stay, candidates only shrink and digit masks only grow.
   */
  predicate Descends(s: Snap, t: Snap)
  {
    Sized(s) && Sized(t) &&
    t.given == s.given &&
    (forall c :: 0 <= c < 81 && s.closed[c] ==> t.closed[c] && t.collapsed[c] == s.collapsed[c]) &&
    (forall c :: 0 <= c < 81 ==> t.cands[c] <= s.cands[c]) &&
    (forall v :: 0 <= v < 9 ==> s.dm[v] <= t.dm[v])
  }

  lemma DescendsTrans(s: Snap, t: Snap, u: Snap)
    requires Descends(s, t) && Descends(t, u)
    ensures Descends(s, u)
  {
  }

  // --------------------------------------------------------------- collapse

  /**
   * Placing `value` on `cell`: the cell is flagged collapsed and leaves
   * every digit mask's complement; every peer loses `value` (and any bit
   * that is not a digit) from its candidates and joins the mask of `value`.
   */
  function Collapsed(s: Snap, cell: int, value: int): (t: Snap)
    requires Sized(s) && 0 <= cell < 81
    ensures Sized(t)
  {
    s.(collapsed := s.collapsed[cell := value],
       cands := seq(81, p requires 0 <= p < 81 =>
                 if Peer(cell, p) then s.cands[p] * Digits() - {value} else s.cands[p]),
       closed := s.closed[cell := true],
       dm := seq(9, w requires 0 <= w < 9 =>
               if w == value then s.dm[w] + {cell} + PeersOf(cell) else s.dm[w] + {cell}))
  }

  lemma CollapseInv(s: Snap, cell: int, value: int)
    requires Inv(s) && 0 <= cell < 81 && 0 <= value < 9
    ensures Inv(Collapsed(s, cell, value))
  {
    var t := Collapsed(s, cell, value);
    forall w | 0 <= w < 9
      ensures t.dm[w] == if w == value then s.dm[w] + {cell} + PeersOf(cell) else s.dm[w] + {cell}
    {
    }
    forall p | 0 <= p < 81
      ensures t.cands[p] == if Peer(cell, p) then s.cands[p] * Digits() - {value} else s.cands[p]
    {
    }
    forall c, p | 0 <= c < 81 && 0 <= p < 81 && !t.closed[c] && t.closed[p] && Peer(c, p)
      ensures c in t.dm[t.collapsed[p]]
    {
      if p == cell {
        assert c in PeersOf(cell);
      }
    }
  }

  lemma CollapseOpen(s: Snap, cell: int, value: int)
    requires Sized(s) && 0 <= cell < 81 && 0 <= value < 9
    ensures Open(Collapsed(s, cell, value)) == Open(s) - {cell}
  {
  }

  /**
   * Collapsing an open cell to a digit its mask still allows keeps peers
   * apart: that digit is on no peer, or the cell would be in its mask.
   */
  lemma CollapseNoConflict(s: Snap, cell: int, value: int)
    requires Inv(s) && 0 <= cell < 81 && 0 <= value < 9
    requires cell !in s.dm[value] && NoConflict(s)
    ensures NoConflict(Collapsed(s, cell, value))
  {
    var t := Collapsed(s, cell, value);
    forall c, p | 0 <= c < 81 && 0 <= p < 81 && t.closed[c] && t.closed[p] && Peer(c, p)
      ensures t.collapsed[c] != t.collapsed[p]
    {
      if c == cell {
        assert Peer(cell, p) && s.closed[p];
      } else if p == cell {
        assert Peer(cell, c) && s.closed[c];
      }
    }
  }

  /**
   * `t` comes from `s` by `n` collapses, each of an open cell to a digit
   * its mask allowed: the invariant holds, `t` descends from `s`, exactly
   * `n` cells closed, and no conflict was introduced.
   */
  predicate Progress(s: Snap, t: Snap, n: int)
  {
    Inv(s) && Inv(t) && Descends(s, t) && 0 <= n && |Open(t)| == |Open(s)| - n &&
    (n == 0 ==> t == s) &&
    (NoConflict(s) ==> NoConflict(t))
  }

  lemma ProgressNone(s: Snap)
    requires Inv(s)
    ensures Progress(s, s, 0)
  {
  }

  lemma ProgressTrans(s: Snap, t: Snap, u: Snap, n: int, m: int)
    requires Progress(s, t, n) && Progress(t, u, m)
    ensures Progress(s, u, n + m)
  {
    DescendsTrans(s, t, u);
  }

  /** A collapse that the digit mask allows is one step of progress. */
  lemma CollapseProgress(s: Snap, cell: int, value: int)
    requires Inv(s) && 0 <= cell < 81 && 0 <= value < 9
    requires cell !in s.dm[value]
    ensures Progress(s, Collapsed(s, cell, value), 1)
  {
    var t := Collapsed(s, cell, value);
    CollapseInv(s, cell, value);
    CollapseOpen(s, cell, value);
    assert cell in Open(s);
    assert Open(s) == Open(t) + {cell};
    if NoConflict(s) {
      CollapseNoConflict(s, cell, value);
    }
  }

  // ---------------------------------------------------------- naked singles

  /** Open cell `c` has exactly one candidate left. */
  predicate NakedAt(s: Snap, c: int)
    requires Sized(s) && 0 <= c < 81
  {
    !s.closed[c] && |s.cands[c]| == 1
  }

  /** `naked_single_c`: collapse `c` to its one candidate when it has one; count it. */
  function NakedStep(s: Snap, c: int): (r: (Snap, nat))
    requires Sized(s) && 0 <= c < 81
    ensures Sized(r.0)
  {
    if NakedAt(s, c) then
      (Collapsed(s, c, Lowest(s.cands[c])), 1)
    else
      (s, 0)
  }

  /** The step counts one exactly at a naked single, and otherwise changes nothing. */
  lemma NakedStepCount(s: Snap, c: int)
    requires Inv(s) && 0 <= c < 81
    ensures Inv(NakedStep(s, c).0)
    ensures NakedStep(s, c).1 == 1 <==> NakedAt(s, c)
    ensures NakedStep(s, c).1 == 0 ==> NakedStep(s, c).0 == s
    ensures NakedStep(s, c).1 <= 1
  {
    if NakedAt(s, c) {
      OnlyMember(s.cands[c]);
      CollapseInv(s, c, Lowest(s.cands[c]));
    }
  }

  /** At a naked single the step places a digit the open cell still allows. */
  lemma NakedStepTarget(s: Snap, c: int)
    requires Inv(s) && 0 <= c < 81
    ensures NakedAt(s, c) ==> CanTake(s, c, NakedStep(s, c).0.collapsed[c])
  {
    if NakedAt(s, c) {
      OnlyMember(s.cands[c]);
    }
  }

  lemma NakedStepProgress(s: Snap, c: int)
    requires Inv(s) && 0 <= c < 81
    ensures Progress(s, NakedStep(s, c).0, NakedStep(s, c).1)
  {
    if NakedAt(s, c) {
      OnlyMember(s.cands[c]);
      CollapseProgress(s, c, Lowest(s.cands[c]));
    }
  }

  /** `naked_single`: the naked-single step on cells `c`..80 in order, summing the counts. */
  function NakedPass(s: Snap, c: int): (r: (Snap, nat))
    requires Sized(s) && 0 <= c <= 81
    ensures Sized(r.0)
    decreases 81 - c
  {
    if c == 81 then
      (s, 0)
    else
      var a := NakedStep(s, c);
      var b := NakedPass(a.0, c + 1);
      (b.0, a.1 + b.1)
  }

  /** A pass from cell `c` is the step at `c` followed by the pass from `c + 1`. */
  lemma NakedPassStep(s: Snap, c: int)
    requires Sized(s) && 0 <= c < 81
    ensures NakedPass(s, c).0 == NakedPass(NakedStep(s, c).0, c + 1).0
    ensures NakedPass(s, c).1 == NakedStep(s, c).1 + NakedPass(NakedStep(s, c).0, c + 1).1
  {
  }

  /**
   * A naked-single pass makes as many collapses as it counts, at most one
   * per cell.
   */
  lemma {:induction false} NakedPassProgress(s: Snap, c: int)
    requires Inv(s) && 0 <= c <= 81
    ensures Progress(s, NakedPass(s, c).0, NakedPass(s, c).1)
    ensures NakedPass(s, c).1 <= 81 - c
    decreases 81 - c
  {
    if c == 81 {
      ProgressNone(s);
    } else {
      var a := NakedStep(s, c);
      NakedStepCount(s, c);
      NakedStepProgress(s, c);
      NakedPassProgress(a.0, c + 1);
      var b := NakedPass(a.0, c + 1);
      ProgressTrans(s, a.0, b.0, a.1, b.1);
    }
  }

  /**
   * A naked-single pass counts none exactly when no cell it visits is a
   * naked single, and then it leaves the grid as it was.
   */
  lemma {:induction false} NakedPassCount(s: Snap, c: int)
    requires Inv(s) && 0 <= c <= 81
    ensures NakedPass(s, c).1 == 0 <==> forall d :: c <= d < 81 ==> !NakedAt(s, d)
    ensures NakedPass(s, c).1 == 0 ==> NakedPass(s, c).0 == s
    decreases 81 - c
  {
    if c < 81 {
      NakedStepCount(s, c);
      NakedPassCount(NakedStep(s, c).0, c + 1);
    }
  }

  predicate NoNakedSingle(s: Snap)
    requires Sized(s)
  {
    forall c :: 0 <= c < 81 ==> !NakedAt(s, c)
  }

  // --------------------------------------------------------- hidden singles

  /**
   * The positions in house `i` of kind `h` whose cell the mask of digit
   * `v` still allows: the bits of the house window of `~dm[v]`.
   */
  function HouseOpen(s: Snap, h: Kind, i: int, v: int): set<int>
    requires Sized(s) && 0 <= i < 9 && 0 <= v < 9
  {
    set k | 0 <= k < 9 && HouseCell(h, i, k) !in s.dm[v]
  }

  /** Digit `v` fits in exactly one place of the house. */
  predicate HiddenAt(s: Snap, h: Kind, i: int, v: int)
    requires Sized(s) && 0 <= i < 9 && 0 <= v < 9
  {
    |HouseOpen(s, h, i, v)| == 1
  }

  /** The one cell of the house where `v` fits. */
  function HiddenCell(s: Snap, h: Kind, i: int, v: int): (c: int)
    requires Sized(s) && 0 <= i < 9 && 0 <= v < 9 && HiddenAt(s, h, i, v)
    ensures 0 <= c < 81 && c !in s.dm[v]
    ensures HouseOf(h, c) == i
  {
    OnlyMember(HouseOpen(s, h, i, v));
    HouseCellInv(h, i, Lowest(HouseOpen(s, h, i, v)));
    HouseCell(h, i, Lowest(HouseOpen(s, h, i, v)))
  }

  /** One house check of `hidden_single`: collapse the cell when `v` fits in exactly one. */
  function HiddenStep(s: Snap, h: Kind, i: int, v: int): (r: (Snap, nat))
    requires Sized(s) && 0 <= i < 9 && 0 <= v < 9
    ensures Sized(r.0)
  {
    if HiddenAt(s, h, i, v) then (Collapsed(s, HiddenCell(s, h, i, v), v), 1) else (s, 0)
  }

  /** The check counts one exactly at a hidden single, and otherwise changes nothing. */
  lemma HiddenStepCount(s: Snap, h: Kind, i: int, v: int)
    requires Inv(s) && 0 <= i < 9 && 0 <= v < 9
    ensures Inv(HiddenStep(s, h, i, v).0)
    ensures HiddenStep(s, h, i, v).1 == 1 <==> HiddenAt(s, h, i, v)
    ensures HiddenStep(s, h, i, v).1 == 0 ==> HiddenStep(s, h, i, v).0 == s
    ensures HiddenStep(s, h, i, v).1 <= 1
  {
    if HiddenAt(s, h, i, v) {
      CollapseInv(s, HiddenCell(s, h, i, v), v);
    }
  }

  /** At a hidden single the check places `v` on an open cell that still has it as a candidate. */
  lemma HiddenStepTarget(s: Snap, h: Kind, i: int, v: int)
    requires Inv(s) && 0 <= i < 9 && 0 <= v < 9
    ensures HiddenAt(s, h, i, v) ==> CanTake(s, HiddenCell(s, h, i, v), v)
  {
  }

  lemma HiddenStepProgress(s: Snap, h: Kind, i: int, v: int)
    requires Inv(s) && 0 <= i < 9 && 0 <= v < 9
    ensures Progress(s, HiddenStep(s, h, i, v).0, HiddenStep(s, h, i, v).1)
  {
    if HiddenAt(s, h, i, v) {
      CollapseProgress(s, HiddenCell(s, h, i, v), v);
    }
  }

  /**
   * The positions the mask leaves open are exactly the open cells of the
   * house that still have `v` as a candidate: a hidden single is a digit
   * with one possible home in the house.
   */
  lemma HouseOpenMeaning(s: Snap, h: Kind, i: int, v: int)
    requires Inv(s) && 0 <= i < 9 && 0 <= v < 9
    ensures HouseOpen(s, h, i, v) == set k | 0 <= k < 9 && CanTake(s, HouseCell(h, i, k), v)
  {
    forall k | 0 <= k < 9
      ensures HouseCell(h, i, k) !in s.dm[v] <==> CanTake(s, HouseCell(h, i, k), v)
    {
      HouseCellInv(h, i, k);
    }
  }

  /** The kind of house the `j`-th check of one (house index, digit) pair looks at: row, column, box. */
  function KindAt(j: int): Kind
  {
    if j == 0 then RowKind else if j == 1 then ColKind else BoxKind
  }

  function KindIndex(h: Kind): int
  {
    match h
    case RowKind => 0
    case ColKind => 1
    case BoxKind => 2
  }

  /**
   * `hidden_single` from loop position (`i`, `v`, `j`) on: house index `i`,
   * digit `v`, check `j` (row, column, box).  The loops run `i` outermost
   * and `j` innermost; each check reads the grid as the checks before it
   * left it.  `v == 9` and `j == 3` are the ends of the inner loops.
   */
  function HiddenFrom(s: Snap, i: int, v: int, j: int): (r: (Snap, nat))
    requires Sized(s) && 0 <= i <= 9 && 0 <= v <= 9 && 0 <= j <= 3
    ensures Sized(r.0)
    decreases 9 - i, 9 - v, 3 - j
  {
    if i == 9 then
      (s, 0)
    else if v == 9 then
      HiddenFrom(s, i + 1, 0, 0)
    else if j == 3 then
      HiddenFrom(s, i, v + 1, 0)
    else
      var a := HiddenStep(s, KindAt(j), i, v);
      var b := HiddenFrom(a.0, i, v, j + 1);
      (b.0, a.1 + b.1)
  }

  /** `hidden_single`: every check from the first. */
  function HiddenPass(s: Snap): (r: (Snap, nat))
    requires Sized(s)
    ensures Sized(r.0)
  {
    HiddenFrom(s, 0, 0, 0)
  }

  /** From check `j` of (`i`, `v`): that check, then the rest. */
  lemma HiddenFromStep(s: Snap, i: int, v: int, j: int)
    requires Sized(s) && 0 <= i < 9 && 0 <= v < 9 && 0 <= j < 3
    ensures HiddenFrom(s, i, v, j).0 == HiddenFrom(HiddenStep(s, KindAt(j), i, v).0, i, v, j + 1).0
    ensures HiddenFrom(s, i, v, j).1 == HiddenStep(s, KindAt(j), i, v).1 + HiddenFrom(HiddenStep(s, KindAt(j), i, v).0, i, v, j + 1).1
  {
  }

  /** The end of the checks of digit `v` is the start of those of digit `v + 1`. */
  lemma HiddenFromNextDigit(s: Snap, i: int, v: int)
    requires Sized(s) && 0 <= i < 9 && 0 <= v < 9
    ensures HiddenFrom(s, i, v, 3).0 == HiddenFrom(s, i, v + 1, 0).0
    ensures HiddenFrom(s, i, v, 3).1 == HiddenFrom(s, i, v + 1, 0).1
  {
  }

  /** The end of the checks of house index `i` is the start of those of `i + 1`. */
  lemma HiddenFromNextHouse(s: Snap, i: int)
    requires Sized(s) && 0 <= i < 9
    ensures HiddenFrom(s, i, 9, 0).0 == HiddenFrom(s, i + 1, 0, 0).0
    ensures HiddenFrom(s, i, 9, 0).1 == HiddenFrom(s, i + 1, 0, 0).1
  {
  }

  /** The three checks of house index `i` and digit `v` in order (row, column, box), their counts summed. */
  function DigitChecks(s: Snap, i: int, v: int): (r: (Snap, nat))
    requires Sized(s) && 0 <= i < 9 && 0 <= v < 9
    ensures Sized(r.0)
  {
    var a := HiddenStep(s, RowKind, i, v);
    var b := HiddenStep(a.0, ColKind, i, v);
    var c := HiddenStep(b.0, BoxKind, i, v);
    (c.0, a.1 + b.1 + c.1)
  }

  /** The checks of house index `i` for digits `v`..8 in order, their counts summed. */
  function HouseChecks(s: Snap, i: int, v: int): (r: (Snap, nat))
    requires Sized(s) && 0 <= i < 9 && 0 <= v <= 9
    ensures Sized(r.0)
    decreases 9 - v
  {
    if v == 9 then
      (s, 0)
    else
      var a := DigitChecks(s, i, v);
      var b := HouseChecks(a.0, i, v + 1);
      (b.0, a.1 + b.1)
  }

  /** The pass from digit `v` of house index `i` is that digit's three checks, then the pass from `v + 1`. */
  lemma DigitChecksFrom(s: Snap, i: int, v: int)
    requires Sized(s) && 0 <= i < 9 && 0 <= v < 9
    ensures HiddenFrom(s, i, v, 0).0 == HiddenFrom(DigitChecks(s, i, v).0, i, v + 1, 0).0
    ensures HiddenFrom(s, i, v, 0).1 == DigitChecks(s, i, v).1 + HiddenFrom(DigitChecks(s, i, v).0, i, v + 1, 0).1
  {
    var a := HiddenStep(s, RowKind, i, v);
    var b := HiddenStep(a.0, ColKind, i, v);
    var c := HiddenStep(b.0, BoxKind, i, v);
    HiddenFromStep(s, i, v, 0);
    HiddenFromStep(a.0, i, v, 1);
    HiddenFromStep(b.0, i, v, 2);
    HiddenFromNextDigit(c.0, i, v);
  }

  /** The pass from digit `v` of house index `i` is the rest of that house index's checks, then the pass from `i + 1`. */
  lemma {:induction false} HouseChecksFrom(s: Snap, i: int, v: int)
    requires Sized(s) && 0 <= i < 9 && 0 <= v <= 9
    ensures HiddenFrom(s, i, v, 0).0 == HiddenFrom(HouseChecks(s, i, v).0, i + 1, 0, 0).0
    ensures HiddenFrom(s, i, v, 0).1 == HouseChecks(s, i, v).1 + HiddenFrom(HouseChecks(s, i, v).0, i + 1, 0, 0).1
    decreases 9 - v
  {
    if v == 9 {
      HiddenFromNextHouse(s, i);
    } else {
      DigitChecksFrom(s, i, v);
      HouseChecksFrom(DigitChecks(s, i, v).0, i, v + 1);
    }
  }

  /** Check `(h, i2, w)` comes at or after loop position (`i`, `v`, `j`). */
  predicate Later(i: int, v: int, j: int, h: Kind, i2: int, w: int)
  {
    i < i2 || (i == i2 && (v < w || (v == w && j <= KindIndex(h))))
  }

  /** A hidden-single pass from any loop position closes as many cells as it counts. */
  lemma {:induction false} HiddenFromProgress(s: Snap, i: int, v: int, j: int)
    requires Inv(s) && 0 <= i <= 9 && 0 <= v <= 9 && 0 <= j <= 3
    ensures Progress(s, HiddenFrom(s, i, v, j).0, HiddenFrom(s, i, v, j).1)
    decreases 9 - i, 9 - v, 3 - j
  {
    if i == 9 {
      ProgressNone(s);
    } else if v == 9 {
      HiddenFromProgress(s, i + 1, 0, 0);
      assert HiddenFrom(s, i, v, j).0 == HiddenFrom(s, i + 1, 0, 0).0;
      assert HiddenFrom(s, i, v, j).1 == HiddenFrom(s, i + 1, 0, 0).1;
    } else if j == 3 {
      HiddenFromProgress(s, i, v + 1, 0);
      assert HiddenFrom(s, i, v, j).0 == HiddenFrom(s, i, v + 1, 0).0;
      assert HiddenFrom(s, i, v, j).1 == HiddenFrom(s, i, v + 1, 0).1;
    } else {
      var a := HiddenStep(s, KindAt(j), i, v);
      HiddenStepProgress(s, KindAt(j), i, v);
      HiddenFromProgress(a.0, i, v, j + 1);
      var b := HiddenFrom(a.0, i, v, j + 1);
      ProgressTrans(s, a.0, b.0, a.1, b.1);
      HiddenFromStep(s, i, v, j);
    }
  }

  /**
   * A hidden-single pass from loop position (`i`, `v`, `j`) counts none
   * exactly when none of the checks still to come finds a hidden single,
   * and then it changes nothing.
   */
  lemma {:induction false} HiddenFromCount(s: Snap, i: int, v: int, j: int)
    requires Inv(s) && 0 <= i <= 9 && 0 <= v <= 9 && 0 <= j <= 3
    ensures HiddenFrom(s, i, v, j).1 == 0 <==>
      forall h, i2, w :: 0 <= i2 < 9 && 0 <= w < 9 && Later(i, v, j, h, i2, w) ==> !HiddenAt(s, h, i2, w)
    ensures HiddenFrom(s, i, v, j).1 == 0 ==> HiddenFrom(s, i, v, j).0 == s
    decreases 9 - i, 9 - v, 3 - j
  {
    if i == 9 {
    } else if v == 9 {
      HiddenFromCount(s, i + 1, 0, 0);
      forall h, i2, w | 0 <= i2 < 9 && 0 <= w < 9
        ensures Later(i, v, j, h, i2, w) == Later(i + 1, 0, 0, h, i2, w)
      {
      }
    } else if j == 3 {
      HiddenFromCount(s, i, v + 1, 0);
      forall h, i2, w | 0 <= i2 < 9 && 0 <= w < 9
        ensures Later(i, v, j, h, i2, w) == Later(i, v + 1, 0, h, i2, w)
      {
      }
    } else {
      HiddenStepCount(s, KindAt(j), i, v);
      HiddenFromStep(s, i, v, j);
      forall h, i2, w | 0 <= i2 < 9 && 0 <= w < 9
        ensures Later(i, v, j, h, i2, w) == ((h == KindAt(j) && i2 == i && w == v) || Later(i, v, j + 1, h, i2, w))
      {
      }
      if HiddenStep(s, KindAt(j), i, v).1 == 0 {
        HiddenFromCount(s, i, v, j + 1);
      } else {
        assert Later(i, v, j, KindAt(j), i, v);
      }
    }
  }

  predicate NoHiddenSingle(s: Snap)
    requires Sized(s)
  {
    forall h, i, v :: 0 <= i < 9 && 0 <= v < 9 ==> !HiddenAt(s, h, i, v)
  }

  /** A hidden-single pass closes as many cells as it counts. */
  lemma HiddenPassProgress(s: Snap)
    requires Inv(s)
    ensures Progress(s, HiddenPass(s).0, HiddenPass(s).1)
  {
    HiddenFromProgress(s, 0, 0, 0);
  }

  /** A hidden-single pass counts nothing exactly when there is no hidden single, and then changes nothing. */
  lemma HiddenPassStalled(s: Snap)
    requires Inv(s)
    ensures HiddenPass(s).1 == 0 <==> NoHiddenSingle(s)
    ensures HiddenPass(s).1 == 0 ==> HiddenPass(s).0 == s
  {
    HiddenFromCount(s, 0, 0, 0);
    forall h, i2, w | 0 <= i2 < 9 && 0 <= w < 9
      ensures Later(0, 0, 0, h, i2, w)
    {
    }
  }

  // -------------------------------------------------------------- solve

  /** One round of `solve`: a naked-single pass, then a hidden-single pass; the summed count. */
  function Round(s: Snap): (r: (Snap, nat))
    requires Sized(s)
    ensures Sized(r.0)
  {
    var a := NakedPass(s, 0);
    var b := HiddenPass(a.0);
    (b.0, a.1 + b.1)
  }

  /** A round closes as many cells as it counts. */
  lemma RoundProgress(s: Snap)
    requires Inv(s)
    ensures Progress(s, Round(s).0, Round(s).1)
  {
    var a := NakedPass(s, 0);
    NakedPassProgress(s, 0);
    var b := HiddenPass(a.0);
    HiddenPassProgress(a.0);
    ProgressTrans(s, a.0, b.0, a.1, b.1);
  }

  /** A round counts nothing exactly when the grid has neither kind of single. */
  lemma RoundCount(s: Snap)
    requires Inv(s)
    ensures Round(s).1 == 0 <==> NoNakedSingle(s) && NoHiddenSingle(s)
  {
    NakedPassCount(s, 0);
    if NakedPass(s, 0).1 == 0 {
      HiddenPassStalled(s);
    }
  }


  /**
   * `solve`: rounds repeated until one collapses nothing.  Every other
   * round closes a cell, so this ends.
   */
  function Propagate(s: Snap): (t: Snap)
    requires Inv(s)
    ensures Inv(t)
    decreases |Open(s)|
  {
    var r := Round(s);
    RoundProgress(s);
    if r.1 == 0 then r.0 else Propagate(r.0)
  }

  /**
   * `solve` leaves a grid with neither a naked nor a hidden single, that
   * descends from the one it started with, and into which it brought no
   * conflict.
   */
  lemma {:induction false} PropagateStalls(s: Snap)
    requires Inv(s)
    ensures Progress(s, Propagate(s), |Open(s)| - |Open(Propagate(s))|)
    ensures NoNakedSingle(Propagate(s)) && NoHiddenSingle(Propagate(s))
    decreases |Open(s)|
  {
    var r := Round(s);
    RoundProgress(s);
    RoundCount(s);
    if r.1 != 0 {
      PropagateStalls(r.0);
      ProgressTrans(s, r.0, Propagate(r.0), r.1, |Open(r.0)| - |Open(Propagate(r.0))|);
    }
  }

  /** A grid with neither kind of single is left alone by `solve`. */
  lemma PropagateFixed(s: Snap)
    requires Inv(s) && NoNakedSingle(s) && NoHiddenSingle(s)
    ensures Propagate(s) == s
  {
    RoundProgress(s);
    RoundCount(s);
  }

  /** Solving twice is solving once. */
  lemma PropagateIdempotent(s: Snap)
    requires Inv(s)
    ensures Inv(Propagate(s)) && Propagate(Propagate(s)) == Propagate(s)
  {
    PropagateStalls(s);
    PropagateFixed(Propagate(s));
  }

  /** A grid with every cell collapsed is left alone by `solve`. */
  lemma SolvedFixed(s: Snap)
    requires Inv(s) && Open(s) == {}
    ensures Propagate(s) == s
  {
    forall c | 0 <= c < 81
      ensures s.closed[c]
    {
      assert c !in Open(s);
    }
    forall h, i, v | 0 <= i < 9 && 0 <= v < 9
      ensures !HiddenAt(s, h, i, v)
    {
      forall k | 0 <= k < 9
        ensures HouseCell(h, i, k) in s.dm[v]
      {
        HouseCellInv(h, i, k);
        var c := HouseCell(h, i, k);
        assert s.closed[c];
      }
      assert HouseOpen(s, h, i, v) == {};
    }
    PropagateFixed(s);
  }

  /** The grid of `new` is left alone by `solve`: every cell has nine candidates and every digit nine places. */
  lemma EmptyFixed()
    ensures Propagate(EmptySnap()) == EmptySnap()
  {
    var s := EmptySnap();
    assert |Digits()| == 9;
    forall h, i, v | 0 <= i < 9 && 0 <= v < 9
      ensures !HiddenAt(s, h, i, v)
    {
      assert HouseOpen(s, h, i, v) == Digits();
    }
    PropagateFixed(s);
  }

  // ---------------------------------------------------------- check

  /**
   * Collapsed cell `c` repeats the digit of an earlier collapsed cell of
   * its row, column or box.
   */
  predicate TwinOf(s: Snap, c: int, q: int)
    requires Sized(s) && 0 <= c < 81
  {
    0 <= q < c && s.closed[q] && Peer(c, q) && s.collapsed[q] == s.collapsed[c]
  }

  predicate HasEarlierTwin(s: Snap, c: int)
    requires Sized(s) && 0 <= c < 81
  {
    s.closed[c] && exists q :: 0 <= q < c && TwinOf(s, c, q)
  }

  /** A scan in cell order that finds no twin at `n` has found none up to `n + 1`. */
  lemma NoTwinNext(s: Snap, n: int)
    requires Sized(s) && 0 <= n < 81
    requires forall c :: 0 <= c < n ==> !HasEarlierTwin(s, c)
    requires !HasEarlierTwin(s, n)
    ensures forall c :: 0 <= c < n + 1 ==> !HasEarlierTwin(s, c)
  {
  }

  /** A grid has no conflict exactly when no collapsed cell has an earlier twin. */
  lemma NoConflictNoTwin(s: Snap)
    requires Sized(s)
    ensures NoConflict(s) <==> forall c :: 0 <= c < 81 ==> !HasEarlierTwin(s, c)
  {
    if forall c :: 0 <= c < 81 ==> !HasEarlierTwin(s, c) {
      forall c, p | 0 <= c < 81 && 0 <= p < 81 && s.closed[c] && s.closed[p] && Peer(c, p)
        ensures s.collapsed[c] != s.collapsed[p]
      {
        if p < c {
          assert !HasEarlierTwin(s, c);
          assert !TwinOf(s, c, p);
        } else {
          assert !HasEarlierTwin(s, p);
          assert !TwinOf(s, p, c);
        }
      }
    }
  }

  /** The digits `check` has recorded for house `i` of kind `h` once it has scanned the cells before `c`. */
  function Seen(s: Snap, h: Kind, i: int, c: int): set<int>
    requires Sized(s) && 0 <= c <= 81
  {
    set q | 0 <= q < c && s.closed[q] && HouseOf(h, q) == i :: s.collapsed[q]
  }

  /** `Seen` for all nine houses of one kind: the `rows`, `cols` or `boxes` array of `check`. */
  function SeenAll(s: Snap, h: Kind, c: int): (r: seq<set<int>>)
    requires Sized(s) && 0 <= c <= 81
    ensures |r| == 9
  {
    seq(9, i requires 0 <= i < 9 => Seen(s, h, i, c))
  }

  /** Scanning cell `c` adds its digit to house `i` when it is collapsed and lies in that house. */
  lemma SeenStep(s: Snap, h: Kind, i: int, c: int)
    requires Sized(s) && 0 <= c < 81
    ensures Seen(s, h, i, c + 1) ==
      Seen(s, h, i, c) + (if s.closed[c] && HouseOf(h, c) == i then {s.collapsed[c]} else {})
  {
    var extra: set<int> := if s.closed[c] && HouseOf(h, c) == i then {s.collapsed[c]} else {};
    forall x | x in Seen(s, h, i, c + 1)
      ensures x in Seen(s, h, i, c) + extra
    {
      var q :| 0 <= q < c + 1 && s.closed[q] && HouseOf(h, q) == i && s.collapsed[q] == x;
      if q < c {
        assert x in Seen(s, h, i, c);
      }
    }
    forall x | x in Seen(s, h, i, c) + extra
      ensures x in Seen(s, h, i, c + 1)
    {
      if x in Seen(s, h, i, c) {
        var q :| 0 <= q < c && s.closed[q] && HouseOf(h, q) == i && s.collapsed[q] == x;
        assert 0 <= q < c + 1;
      }
    }
  }

  /** Scanning cell `c` records its digit in its own house and nowhere else, if it is collapsed. */
  lemma SeenNext(s: Snap, h: Kind, c: int)
    requires Sized(s) && 0 <= c < 81
    ensures 0 <= HouseOf(h, c) < 9
    ensures SeenAll(s, h, c + 1) ==
      if s.closed[c] then SeenAll(s, h, c)[HouseOf(h, c) := Seen(s, h, HouseOf(h, c), c) + {s.collapsed[c]}]
      else SeenAll(s, h, c)
  {
    HouseCellOnto(h, c);
    forall i | 0 <= i < 9
      ensures SeenAll(s, h, c + 1)[i] ==
        if s.closed[c] && HouseOf(h, c) == i then Seen(s, h, i, c) + {s.collapsed[c]} else Seen(s, h, i, c)
    {
      SeenStep(s, h, i, c);
    }
  }

  /** Before the scan nothing is recorded. */
  lemma SeenNone(s: Snap, h: Kind)
    requires Sized(s)
    ensures SeenAll(s, h, 0) == seq(9, _ => {})
  {
    forall i | 0 <= i < 9
      ensures SeenAll(s, h, 0)[i] == {}
    {
      assert Seen(s, h, i, 0) == {};
    }
  }

  /**
   * Collapsed cell `c` has an earlier twin exactly when its digit was
   * already recorded for its row, its column or its box.
   */
  lemma TwinSeen(s: Snap, c: int)
    requires Sized(s) && 0 <= c < 81 && s.closed[c]
    ensures HasEarlierTwin(s, c) <==>
      s.collapsed[c] in Seen(s, RowKind, Row(c), c) ||
      s.collapsed[c] in Seen(s, ColKind, Col(c), c) ||
      s.collapsed[c] in Seen(s, BoxKind, Box(c), c)
  {
    var d := s.collapsed[c];
    if HasEarlierTwin(s, c) {
      var q :| 0 <= q < c && TwinOf(s, c, q);
      if Row(c) == Row(q) {
        assert d in Seen(s, RowKind, Row(c), c);
      } else if Col(c) == Col(q) {
        assert d in Seen(s, ColKind, Col(c), c);
      } else {
        assert d in Seen(s, BoxKind, Box(c), c);
      }
    }
    if d in Seen(s, RowKind, Row(c), c) {
      var q :| 0 <= q < c && s.closed[q] && Row(q) == Row(c) && s.collapsed[q] == d;
      assert TwinOf(s, c, q);
    } else if d in Seen(s, ColKind, Col(c), c) {
      var q :| 0 <= q < c && s.closed[q] && Col(q) == Col(c) && s.collapsed[q] == d;
      assert TwinOf(s, c, q);
    } else if d in Seen(s, BoxKind, Box(c), c) {
      var q :| 0 <= q < c && s.closed[q] && Box(q) == Box(c) && s.collapsed[q] == d;
      assert TwinOf(s, c, q);
    }
  }

  // ----------------------------------------------------------- new, load

  /** `new`: every cell open with all nine candidates, every mask empty. */
  function EmptySnap(): (s: Snap)
    ensures Inv(s)
    ensures forall c :: 0 <= c < 81 ==> !s.closed[c] && s.cands[c] == Digits() && !s.given[c]
    ensures NoConflict(s)
  {
    Snap(seq(81, _ => 0), seq(81, _ => Digits()), seq(81, _ => false), seq(81, _ => false),
         seq(9, _ => {}))
  }

  predicate IsDigitChar(ch: char)
  {
    '1' <= ch <= '9'
  }

  /** `load` from position `i` on: collapse every digit character and flag it given. */
  function LoadFrom(s: Snap, src: seq<char>, i: int): (t: Snap)
    requires Sized(s) && |src| == 81 && 0 <= i <= 81
    ensures Sized(t)
    decreases 81 - i
  {
    if i == 81 then
      s
    else if IsDigitChar(src[i]) then
      var t := Collapsed(s, i, src[i] as int - '1' as int);
      LoadFrom(t.(given := t.given[i := true]), src, i + 1)
    else
      LoadFrom(s, src, i + 1)
  }

  function Loaded(src: seq<char>): Snap
    requires |src| == 81
  {
    LoadFrom(EmptySnap(), src, 0)
  }

  lemma {:induction false} LoadFromInv(s: Snap, src: seq<char>, i: int)
    requires Inv(s) && |src| == 81 && 0 <= i <= 81
    ensures Inv(LoadFrom(s, src, i))
    decreases 81 - i
  {
    if i < 81 {
      if IsDigitChar(src[i]) {
        var t := Collapsed(s, i, src[i] as int - '1' as int);
        CollapseInv(s, i, src[i] as int - '1' as int);
        LoadFromInv(t.(given := t.given[i := true]), src, i + 1);
      } else {
        LoadFromInv(s, src, i + 1);
      }
    }
  }

  lemma {:induction false} LoadFromFlags(s: Snap, src: seq<char>, i: int)
    requires Sized(s) && |src| == 81 && 0 <= i <= 81
    requires forall c :: 0 <= c < i ==>
      s.closed[c] == s.given[c] == IsDigitChar(src[c]) &&
      (IsDigitChar(src[c]) ==> s.collapsed[c] == src[c] as int - '1' as int)
    requires forall c :: i <= c < 81 ==> !s.closed[c] && !s.given[c]
    ensures var t := LoadFrom(s, src, i);
      forall c :: 0 <= c < 81 ==>
        t.closed[c] == t.given[c] == IsDigitChar(src[c]) &&
        (IsDigitChar(src[c]) ==> t.collapsed[c] == src[c] as int - '1' as int)
    decreases 81 - i
  {
    if i < 81 {
      if IsDigitChar(src[i]) {
        var t := Collapsed(s, i, src[i] as int - '1' as int);
        LoadFromFlags(t.(given := t.given[i := true]), src, i + 1);
      } else {
        LoadFromFlags(s, src, i + 1);
      }
    }
  }

  /**
   * `load` collapses exactly the cells holding '1'..'9', to that digit, and
   * flags exactly those cells given.
   */
  lemma LoadedFacts(src: seq<char>)
    requires |src| == 81
    ensures var t := Loaded(src);
      Inv(t) &&
      forall c :: 0 <= c < 81 ==>
        t.closed[c] == t.given[c] == IsDigitChar(src[c]) &&
        (IsDigitChar(src[c]) ==> t.collapsed[c] == src[c] as int - '1' as int)
  {
    LoadFromInv(EmptySnap(), src, 0);
    LoadFromFlags(EmptySnap(), src, 0);
  }
}
