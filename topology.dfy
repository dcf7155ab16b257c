/**
 * The house topology of the 9x9 grid: cells are numbered 0..80 row by row;
 * every cell lies in one row, one column and one 3x3 box.  `HCord` and
 * `BOXI` are the two lookup tables of the C code, entry for entry; the
 * lemmas show that they agree with the formulas that generated them.
 */
module Topology {

  /** Offsets of the nine cells of a box from its top-left cell. */
  const SHIFTS: seq<int> := [0, 1, 2, 9, 10, 11, 18, 19, 20]

  /** `boxi`: box index to its nine cell indices. */
  const BOXI: seq<seq<int>> := [
    [0, 1, 2, 9, 10, 11, 18, 19, 20],
    [3, 4, 5, 12, 13, 14, 21, 22, 23],
    [6, 7, 8, 15, 16, 17, 24, 25, 26],
    [27, 28, 29, 36, 37, 38, 45, 46, 47],
    [30, 31, 32, 39, 40, 41, 48, 49, 50],
    [33, 34, 35, 42, 43, 44, 51, 52, 53],
    [54, 55, 56, 63, 64, 65, 72, 73, 74],
    [57, 58, 59, 66, 67, 68, 75, 76, 77],
    [60, 61, 62, 69, 70, 71, 78, 79, 80]]

  /** `hcord`: cell index to (row, column, box). */
  function HCord(c: int): (int, int, int)
    requires 0 <= c < 81
  {
    match c
    case 0 => (0, 0, 0)
    case 1 => (0, 1, 0)
    case 2 => (0, 2, 0)
    case 3 => (0, 3, 1)
    case 4 => (0, 4, 1)
    case 5 => (0, 5, 1)
    case 6 => (0, 6, 2)
    case 7 => (0, 7, 2)
    case 8 => (0, 8, 2)
    case 9 => (1, 0, 0)
    case 10 => (1, 1, 0)
    case 11 => (1, 2, 0)
    case 12 => (1, 3, 1)
    case 13 => (1, 4, 1)
    case 14 => (1, 5, 1)
    case 15 => (1, 6, 2)
    case 16 => (1, 7, 2)
    case 17 => (1, 8, 2)
    case 18 => (2, 0, 0)
    case 19 => (2, 1, 0)
    case 20 => (2, 2, 0)
    case 21 => (2, 3, 1)
    case 22 => (2, 4, 1)
    case 23 => (2, 5, 1)
    case 24 => (2, 6, 2)
    case 25 => (2, 7, 2)
    case 26 => (2, 8, 2)
    case 27 => (3, 0, 3)
    case 28 => (3, 1, 3)
    case 29 => (3, 2, 3)
    case 30 => (3, 3, 4)
    case 31 => (3, 4, 4)
    case 32 => (3, 5, 4)
    case 33 => (3, 6, 5)
    case 34 => (3, 7, 5)
    case 35 => (3, 8, 5)
    case 36 => (4, 0, 3)
    case 37 => (4, 1, 3)
    case 38 => (4, 2, 3)
    case 39 => (4, 3, 4)
    case 40 => (4, 4, 4)
    case 41 => (4, 5, 4)
    case 42 => (4, 6, 5)
    case 43 => (4, 7, 5)
    case 44 => (4, 8, 5)
    case 45 => (5, 0, 3)
    case 46 => (5, 1, 3)
    case 47 => (5, 2, 3)
    case 48 => (5, 3, 4)
    case 49 => (5, 4, 4)
    case 50 => (5, 5, 4)
    case 51 => (5, 6, 5)
    case 52 => (5, 7, 5)
    case 53 => (5, 8, 5)
    case 54 => (6, 0, 6)
    case 55 => (6, 1, 6)
    case 56 => (6, 2, 6)
    case 57 => (6, 3, 7)
    case 58 => (6, 4, 7)
    case 59 => (6, 5, 7)
    case 60 => (6, 6, 8)
    case 61 => (6, 7, 8)
    case 62 => (6, 8, 8)
    case 63 => (7, 0, 6)
    case 64 => (7, 1, 6)
    case 65 => (7, 2, 6)
    case 66 => (7, 3, 7)
    case 67 => (7, 4, 7)
    case 68 => (7, 5, 7)
    case 69 => (7, 6, 8)
    case 70 => (7, 7, 8)
    case 71 => (7, 8, 8)
    case 72 => (8, 0, 6)
    case 73 => (8, 1, 6)
    case 74 => (8, 2, 6)
    case 75 => (8, 3, 7)
    case 76 => (8, 4, 7)
    case 77 => (8, 5, 7)
    case 78 => (8, 6, 8)
    case 79 => (8, 7, 8)
    case 80 => (8, 8, 8)
    case _ => (0, 0, 0)
  }

  function Row(c: int): int { c / 9 }

  function Col(c: int): int { c % 9 }

  function Box(c: int): int { c / 9 / 3 * 3 + c % 9 / 3 }

  /** Position of a cell inside its box, in reading order. */
  function BoxPos(c: int): int { c / 9 % 3 * 3 + c % 9 % 3 }

  /** Top-left cell of box `b`. */
  function BoxOrigin(b: int): int
  {
    b / 3 * 27 + b % 3 * 3
  }

  /** Cell `k` of box `b`. */
  function BoxCell(b: int, k: int): int
    requires 0 <= k < 9
  {
    BoxOrigin(b) + SHIFTS[k]
  }

  /** Every `hcord` entry is (c / 9, c % 9, box of c). */
  lemma HCordFormula(c: int)
    requires 0 <= c < 81
    ensures HCord(c).0 == Row(c) && HCord(c).1 == Col(c) && HCord(c).2 == Box(c)
  {
    if c < 27 {
      HCordTop(c);
    } else if c < 54 {
      HCordMiddle(c);
    } else {
      HCordBottom(c);
    }
  }

  /** The table entries of rows 0 to 2. */
  lemma HCordTop(c: int)
    requires 0 <= c < 27
    ensures HCord(c).0 == Row(c) && HCord(c).1 == Col(c) && HCord(c).2 == Box(c)
  {
    if c < 9 {
      HCordRow(c, 0);
    } else if c < 18 {
      HCordRow(c, 1);
    } else {
      HCordRow(c, 2);
    }
  }

  /** The table entries of rows 3 to 5. */
  lemma HCordMiddle(c: int)
    requires 27 <= c < 54
    ensures HCord(c).0 == Row(c) && HCord(c).1 == Col(c) && HCord(c).2 == Box(c)
  {
    if c < 36 {
      HCordRow(c, 3);
    } else if c < 45 {
      HCordRow(c, 4);
    } else {
      HCordRow(c, 5);
    }
  }

  /** The table entries of rows 6 to 8. */
  lemma HCordBottom(c: int)
    requires 54 <= c < 81
    ensures HCord(c).0 == Row(c) && HCord(c).1 == Col(c) && HCord(c).2 == Box(c)
  {
    if c < 63 {
      HCordRow(c, 6);
    } else if c < 72 {
      HCordRow(c, 7);
    } else {
      HCordRow(c, 8);
    }
  }

  /** The table entries of row `r`. */
  lemma HCordRow(c: int, r: int)
    requires 0 <= r < 9 && 9 * r <= c < 9 * r + 9
    ensures HCord(c).0 == Row(c) && HCord(c).1 == Col(c) && HCord(c).2 == Box(c)
  {
  }

  /** Every `boxi` entry is the generating formula of its box and offset. */
  lemma BoxiFormula(b: int, k: int)
    requires 0 <= b < 9 && 0 <= k < 9
    ensures |BOXI| == 9 && |BOXI[b]| == 9
    ensures BOXI[b][k] == BoxCell(b, k)
  {
  }

  lemma ShiftsFormula(k: int)
    requires 0 <= k < 9
    ensures SHIFTS[k] == k / 3 * 9 + k % 3
  {
  }

  /** Cell `k` of box `b` is a cell of box `b`, at position `k`. */
  lemma BoxCellInv(b: int, k: int)
    requires 0 <= b < 9 && 0 <= k < 9
    ensures 0 <= BoxCell(b, k) < 81
    ensures Box(BoxCell(b, k)) == b && BoxPos(BoxCell(b, k)) == k
  {
    var a, d, x, y := b / 3, b % 3, k / 3, k % 3;
    ShiftsFormula(k);
    var c := BoxCell(b, k);
    assert c == 9 * (3 * a + x) + (3 * d + y);
    assert Row(c) == 3 * a + x && Col(c) == 3 * d + y;
    assert (3 * a + x) / 3 == a && (3 * a + x) % 3 == x;
    assert (3 * d + y) / 3 == d && (3 * d + y) % 3 == y;
  }

  /** Every cell is reached from its own box and position. */
  lemma BoxCellOnto(c: int)
    requires 0 <= c < 81
    ensures 0 <= Box(c) < 9 && 0 <= BoxPos(c) < 9
    ensures BoxCell(Box(c), BoxPos(c)) == c
  {
    var r, q := c / 9, c % 9;
    var a, x, d, y := r / 3, r % 3, q / 3, q % 3;
    assert Box(c) == 3 * a + d;
    assert BoxPos(c) == 3 * x + y;
    ShiftsFormula(3 * x + y);
    assert (3 * a + d) / 3 == a && (3 * a + d) % 3 == d;
    assert (3 * x + y) / 3 == x && (3 * x + y) % 3 == y;
  }

  /** Each cell occurs in `boxi` exactly once: in the row of its own box. */
  lemma BoxiExactlyOnce(c: int, b: int, k: int)
    requires 0 <= c < 81 && 0 <= b < 9 && 0 <= k < 9
    ensures BOXI[b][k] == c <==> b == Box(c) && k == BoxPos(c)
  {
    BoxiFormula(b, k);
    BoxCellInv(b, k);
    BoxCellOnto(c);
  }

  // ------------------------------------------------------------------ houses

  /** The three kinds of house. */
  datatype Kind = RowKind | ColKind | BoxKind

  /**
   * Cell `k` of house `i` of the given kind: `9 * i + k` for a row,
   * `9 * k + i` for a column, `boxi[i][k]` (see `BoxiFormula`) for a box.
   */
  function HouseCell(h: Kind, i: int, k: int): int
    requires 0 <= i < 9 && 0 <= k < 9
  {
    match h
    case RowKind => 9 * i + k
    case ColKind => 9 * k + i
    case BoxKind => BoxCell(i, k)
  }

  /** The house of the given kind that contains cell `c`. */
  function HouseOf(h: Kind, c: int): int
  {
    match h
    case RowKind => Row(c)
    case ColKind => Col(c)
    case BoxKind => Box(c)
  }

  /** The position of cell `c` inside that house. */
  function PosIn(h: Kind, c: int): int
  {
    match h
    case RowKind => Col(c)
    case ColKind => Row(c)
    case BoxKind => BoxPos(c)
  }

  lemma HouseCellInv(h: Kind, i: int, k: int)
    requires 0 <= i < 9 && 0 <= k < 9
    ensures 0 <= HouseCell(h, i, k) < 81
    ensures HouseOf(h, HouseCell(h, i, k)) == i && PosIn(h, HouseCell(h, i, k)) == k
  {
    if h == BoxKind {
      BoxCellInv(i, k);
    }
  }

  lemma HouseCellOnto(h: Kind, c: int)
    requires 0 <= c < 81
    ensures 0 <= HouseOf(h, c) < 9 && 0 <= PosIn(h, c) < 9
    ensures HouseCell(h, HouseOf(h, c), PosIn(h, c)) == c
  {
    if h == BoxKind {
      BoxCellOnto(c);
    }
  }

  // ------------------------------------------------------------------- peers

  /** Two distinct cells sharing a row, a column or a box. */
  predicate Peer(c: int, p: int)
  {
    c != p && (Row(c) == Row(p) || Col(c) == Col(p) || Box(c) == Box(p))
  }

  /**
   * The peers of `c` that the first `i` rounds of the peer walk in
   * `collapse` have reached: the first `i` cells of its row, of its column
   * and of its box.
   */
  predicate Reached(c: int, i: int, p: int)
  {
    p != c &&
    ((Row(p) == Row(c) && Col(p) < i) ||
     (Col(p) == Col(c) && Row(p) < i) ||
     (Box(p) == Box(c) && BoxPos(p) < i))
  }

  /** Round `i` of the walk reaches the row, column and box cells at position `i`. */
  lemma ReachedStep(c: int, i: int, p: int)
    requires 0 <= c < 81 && 0 <= i < 9 && 0 <= p < 81
    ensures Reached(c, i + 1, p) <==>
      Reached(c, i, p) ||
      (p != c && (p == 9 * Row(c) + i || p == Col(c) + 9 * i || p == BoxCell(Box(c), i)))
  {
    RowReached(c, i, p);
    ColReached(c, i, p);
    BoxReached(c, i, p);
  }

  lemma RowReached(c: int, i: int, p: int)
    requires 0 <= c < 81 && 0 <= i < 9 && 0 <= p < 81
    ensures (Row(p) == Row(c) && Col(p) < i + 1) <==>
      (Row(p) == Row(c) && Col(p) < i) || p == 9 * Row(c) + i
  {
  }

  lemma ColReached(c: int, i: int, p: int)
    requires 0 <= c < 81 && 0 <= i < 9 && 0 <= p < 81
    ensures (Col(p) == Col(c) && Row(p) < i + 1) <==>
      (Col(p) == Col(c) && Row(p) < i) || p == Col(c) + 9 * i
  {
  }

  lemma BoxReached(c: int, i: int, p: int)
    requires 0 <= c < 81 && 0 <= i < 9 && 0 <= p < 81
    ensures (Box(p) == Box(c) && BoxPos(p) < i + 1) <==>
      (Box(p) == Box(c) && BoxPos(p) < i) || p == BoxCell(Box(c), i)
  {
    BoxCellOnto(c);
    BoxCellInv(Box(c), i);
    BoxCellOnto(p);
  }

  /** After nine rounds the walk has reached exactly the peers. */
  lemma ReachedAll(c: int, p: int)
    requires 0 <= c < 81 && 0 <= p < 81
    ensures Reached(c, 9, p) == Peer(c, p)
  {
    BoxCellOnto(p);
  }

  /** The twenty peers of cell `c`. */
  function PeersOf(c: int): set<int>
  {
    set p | 0 <= p < 81 && Peer(c, p)
  }

  /** The cells the first `i` rounds of the peer walk have reached. */
  function ReachedSet(c: int, i: int): set<int>
  {
    set p | 0 <= p < 81 && Reached(c, i, p)
  }

  lemma ReachedSetStep(c: int, i: int)
    requires 0 <= c < 81 && 0 <= i < 9
    ensures 0 <= BoxCell(Box(c), i) < 81
    ensures ReachedSet(c, i + 1) ==
      ReachedSet(c, i) + ({9 * Row(c) + i, Col(c) + 9 * i, BoxCell(Box(c), i)} - {c})
  {
    BoxCellOnto(c);
    BoxCellInv(Box(c), i);
    var walk := {9 * Row(c) + i, Col(c) + 9 * i, BoxCell(Box(c), i)} - {c};
    assert 0 <= Row(c) < 9 && 0 <= Col(c) < 9;
    forall p ensures p in ReachedSet(c, i + 1) <==> p in ReachedSet(c, i) + walk
    {
      if 0 <= p < 81 {
        ReachedStep(c, i, p);
        assert p in walk <==>
          p != c && (p == 9 * Row(c) + i || p == Col(c) + 9 * i || p == BoxCell(Box(c), i));
      } else {
        assert p !in walk;
      }
    }
  }

  lemma ReachedSetNone(c: int)
    ensures ReachedSet(c, 0) == {}
  {
  }

  /** The whole walk reaches exactly the peers. */
  lemma ReachedSetAll(c: int)
    requires 0 <= c < 81
    ensures ReachedSet(c, 9) == PeersOf(c)
  {
    forall p | 0 <= p < 81
      ensures Reached(c, 9, p) == Peer(c, p)
    {
      ReachedAll(c, p);
    }
  }

  /** The peers visited by round `i` of the walk from `c`: its row, column and box cell at position `i`. */
  function WalkRound(c: int, i: int): set<int>
    requires 0 <= i < 9
  {
    {9 * Row(c) + i, Col(c) + 9 * i, BoxCell(Box(c), i)} - {c}
  }

  /** The peers visited by the first `i` rounds of the walk from `c`. */
  function Walked(c: int, i: int): set<int>
    requires 0 <= i <= 9
  {
    if i == 0 then {} else Walked(c, i - 1) + WalkRound(c, i - 1)
  }

  /** One more round of the walk adds the round's row, column and box cell, less `c` itself. */
  lemma WalkedStep(c: int, i: int, row: int, col: int, b: int)
    requires 0 <= c < 81 && 0 <= i < 9
    requires row == 9 * Row(c) + i && col == Col(c) + 9 * i && b == BoxCell(Box(c), i)
    ensures WalkRound(c, i) == {row, col, b} - {c}
    ensures Walked(c, i + 1) == Walked(c, i) + WalkRound(c, i)
  {
    WalkRoundCells(c, i, row, col, b);
  }

  lemma WalkRoundCells(c: int, i: int, row: int, col: int, b: int)
    requires 0 <= i < 9
    requires row == 9 * Row(c) + i && col == Col(c) + 9 * i && b == BoxCell(Box(c), i)
    ensures WalkRound(c, i) == {row, col, b} - {c}
  {
  }

  /** The three cells a round visits are cells of the grid. */
  lemma WalkBounds(c: int, i: int, row: int, col: int, b: int)
    requires 0 <= c < 81 && 0 <= i < 9
    requires row == 9 * Row(c) + i && col == Col(c) + 9 * i && b == BoxCell(Box(c), i)
    ensures 0 <= row < 81 && 0 <= col < 81 && 0 <= b < 81
  {
    RowColRange(c);
    BoxCellOnto(c);
    BoxCellInv(Box(c), i);
  }

  lemma RowColRange(c: int)
    requires 0 <= c < 81
    ensures 0 <= Row(c) < 9 && 0 <= Col(c) < 9 && 9 * Row(c) + Col(c) == c
  {
  }

  /** Visiting the three cells of a round one at a time adds the round to a set. */
  lemma RoundUnion(s: set<int>, row: int, col: int, b: int, c: int)
    ensures s + ({row} - {c}) + ({col} - {c}) + ({b} - {c}) == s + ({row, col, b} - {c})
  {
  }

  lemma UnionAssoc(a: set<int>, b: set<int>, c: set<int>)
    ensures a + b + c == a + (b + c)
  {
  }

  /** The rounds of the walk visit, round by round, the cells `Reached` describes. */
  lemma {:induction false} WalkedReached(c: int, i: int)
    requires 0 <= c < 81 && 0 <= i <= 9
    ensures Walked(c, i) == ReachedSet(c, i)
  {
    if i == 0 {
      ReachedSetNone(c);
    } else {
      WalkedReached(c, i - 1);
      ReachedSetStep(c, i - 1);
    }
  }

  /** The nine rounds of the walk visit exactly the twenty peers. */
  lemma WalkedAll(c: int)
    requires 0 <= c < 81
    ensures Walked(c, 9) == PeersOf(c)
  {
    WalkedReached(c, 9);
    ReachedSetAll(c);
  }
}
