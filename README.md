# calcifer engine, modelled in Dafny

This project models the Sudoku engine of calcifer, the header `src/s.h`. The model covers:

- **The grid** (`grid_t`):
  - a digit per cell;
  - a 9-bit candidate mask per cell;
  - a flag byte per cell (collapsed, given);
  - nine 128-bit digit maps, where bit `c` of `dm[v]` says digit `v` can no longer go on cell `c`.
- **The house tables** `hcord` and `boxi`.
- **`new` and `load`.**
- **`collapse`**: place a digit, then strike it from the candidates of the cell's row, column and box peers.
- **The two detectors:**
  - `naked_single_c`/`naked_single`: a cell with one candidate left;
  - `hidden_single`: a digit with one place left in a row, column or box. It reads the place from `~dm[v]` with shifts and masks.
- **`solve`**: run both detectors until neither closes a cell.
- **`check`**: return the first cell that repeats a digit of an earlier cell of one of its houses.

The model has six modules:

- **Bits.** Bit-level vocabulary. A 128-bit digit map is read as the set of its set bits (`CellSet`), a 16-bit candidate mask as a set of digits (`DigitSet`). `PopCount` and `Ffs` stand for `__builtin_popcount` and `ffs`.
- **Topology.** The literal `hcord` and `boxi` tables, rows, columns and boxes (`HouseCell`, `HouseOf`), the peer relation, and the nine rounds of the walk in `collapse`.
- **Houses.** The three bit extractions of `hidden_single`, each proved to read the right nine cells of `~dm[v]`.
- **Strikes.** Whole-array views of the in-place updates of `collapse`.
- **Snapshot.** A bit-free value `Snap` of the grid: digits, candidate sets, flags, and digit maps as sets of cells. The module defines the specification functions `Collapsed`, `NakedStep`/`NakedPass`, `HiddenStep`/`HiddenFrom`/`HiddenPass`, `Round`, `Propagate`, `Loaded` and `SeenAll`, and the invariant `Inv`. It proves their properties:
  - invariant preservation;
  - `Progress`: n collapses of open cells that keep earlier digits and bring no conflict;
  - the exact conditions under which each pass counts zero;
  - termination and idempotence of `solve`;
  - the meaning of `check`'s result.
- **Engine.** The `Grid` class with the four arrays of `grid_t`. Every operation is a method on those arrays, proved to move the grid's snapshot (`Abs`) exactly as its Snapshot function says.

## Model

| member | source | states |
|---|---|---|
| Topology.HCordFormula | src/s.h:78-96 | every `hcord` entry is (c / 9, c % 9, (c / 9) / 3 * 3 + (c % 9) / 3) |
| Topology.HCordRow | src/s.h:83-96 | the entries of one row of cells match that formula |
| Topology.BoxiFormula | src/s.h:98-109 | every `boxi[b][k]` is b / 3 * 27 + b % 3 * 3 + [0,1,2,9,10,11,18,19,20][k] |
| Topology.BoxiExactlyOnce | src/s.h:98-109 | `boxi[b][k] == c` exactly when b is the box of c and k its position in that box, so each cell occurs once |
| Topology.BoxCellInv | src/s.h:98-109 | the k-th cell of box b is a cell of the grid, lies in box b and sits at position k |
| Topology.BoxCellOnto | src/s.h:98-109 | every cell is the cell of its own box at its own position |
| Topology.HouseCellInv | src/s.h:78-109 | the k-th cell of house i (row, column or box) lies in house i at position k |
| Topology.HouseCellOnto | src/s.h:78-109 | every cell is reached from its house and position, for each kind of house |
| Topology.ReachedStep | src/s.h:137-155 | round i of the walk reaches exactly the row cell 9r+i, the column cell c+9i and the box cell `boxi[b][i]`, other than the cell itself |
| Topology.WalkedStep | src/s.h:137-155 | one round adds its row, column and box cell, less the collapsing cell, to the cells walked so far |
| Topology.WalkedReached | src/s.h:137-155 | the first i rounds visit exactly the peers whose position in their shared house is below i |
| Topology.WalkedAll | src/s.h:137-155 | the nine rounds visit exactly the twenty peers of the cell |
| Bits.SetBit | src/s.h:132-133 | or-ing in `1 << c` adds exactly cell c to a digit map |
| Bits.Complement | src/s.h:180 | bit p of `~x` is set exactly when cell p is not in x |
| Bits.CellSetZero | src/s.h:111 | an all-zero digit map blocks no cell |
| Bits.FullMask | src/s.h:7 | `MASK_HOUSE` holds exactly the digits 0..8 |
| Bits.ZeroMask | src/s.h:231-233 | a zero mask holds no digit |
| Bits.AddDigit | src/s.h:246-248 | or-ing in `1 << v` adds exactly digit v |
| Bits.TestDigit | src/s.h:241-243 | `x & (1 << v)` is non-zero exactly when v is in x |
| Bits.Strike | src/s.h:135-140 | and-ing with `MASK_HOUSE ^ 1 << v` keeps exactly the digits 0..8 of x other than v |
| Bits.LowestFrom | src/s.h:160 | the least member at or above k, or -1 exactly when there is none |
| Bits.Ffs | src/s.h:160 | `ffs` is 0 exactly on an empty mask, else one more than the least set bit |
| Bits.OnlyMember | src/s.h:159-160 | a one-member set is the singleton of its least member |
| Bits.SingleBit | src/s.h:159-160 | with exactly one bit set, `ffs - 1` names that bit |
| Houses.RowBit | src/s.h:180 | bit k of `(m >> 9 * i) & MASK_HOUSE` is bit 9i+k of m for k < 9, and clear above |
| Houses.ColBit | src/s.h:188-192 | bit k of the or-ed column shifts is bit 9k+i of m for k < 9, and clear above |
| Houses.BoxBit | src/s.h:200-202 | bit k of the packed box window is the bit of cell `boxi[i][k]` for k < 9, and clear above |
| Houses.RowHouseBit | src/s.h:180 | bit k of the row extraction of `~x` is set exactly when k < 9 and cell 9i+k is not in x |
| Houses.ColHouseBit | src/s.h:188-192 | bit k of the column extraction of `~x` is set exactly when k < 9 and cell 9k+i is not in x |
| Houses.BoxHouseBit | src/s.h:200-202 | bit k of the box extraction of `~x` is set exactly when k < 9 and cell `boxi[i][k]` is not in x |
| Houses.HouseBit | src/s.h:180-202 | the same for any kind of house |
| Houses.HouseDigits | src/s.h:180-202 | the extracted mask holds exactly the positions of the house's cells that x leaves open |
| Strikes.StruckAdd | src/s.h:140-152 | striking one more cell extends the struck set by that cell, whether or not it was struck before |
| Snapshot.DescendsTrans | src/s.h:125-156 | "collapsed cells keep their digit, candidates only shrink, maps only grow, given flags stay" is transitive |
| Snapshot.CollapseInv | src/s.h:28-38 | `collapse` keeps the invariant: candidates within the nine digits; collapsed cells hold a digit and are in every map; on an open cell map and candidates mirror each other; every open peer of a collapsed cell is in the map of its digit |
| Snapshot.CollapseOpen | src/s.h:125-127 | `collapse` closes exactly its cell |
| Snapshot.CollapseNoConflict | src/s.h:125-156 | collapsing an open cell to a digit its map allows brings no two peers to the same digit |
| Snapshot.CollapseProgress | src/s.h:125-156 | such a collapse is one step of progress: invariant kept, one open cell fewer, earlier digits kept, no conflict introduced |
| Snapshot.ProgressTrans | src/s.h:214-227 | n steps of progress followed by m steps are n + m steps |
| Snapshot.NakedStepCount | src/s.h:158-165 | `naked_single_c` counts 1 exactly when the cell is open with one candidate, and otherwise counts 0 and changes nothing |
| Snapshot.NakedStepProgress | src/s.h:158-165 | the step is one step of progress: an open cell closed, earlier digits kept, no conflict added |
| Snapshot.NakedStepTarget | src/s.h:158-165 | at a naked single the digit placed is one the open cell still allows |
| Snapshot.NakedPassStep | src/s.h:167-171 | a pass from cell c is the step at c, then the pass from c + 1, counts summed |
| Snapshot.NakedPassProgress | src/s.h:167-171 | a pass closes as many cells as it counts, at most one per cell visited, so its result lies in 0..81 |
| Snapshot.NakedPassCount | src/s.h:167-171 | a pass counts 0 exactly when no cell it visits is a naked single, and then changes nothing |
| Snapshot.HiddenCell | src/s.h:183-205 | the one cell where a hidden single goes is open for the digit and lies in that house |
| Snapshot.HiddenStepCount | src/s.h:180-207 | one house check counts 1 exactly when the digit fits in one cell of the house, and otherwise counts 0 and changes nothing |
| Snapshot.HiddenStepProgress | src/s.h:180-207 | the check is one step of progress: an open cell closed, earlier digits kept, no conflict added |
| Snapshot.HiddenStepTarget | src/s.h:180-207 | at a hidden single the cell filled is open and still has the digit as a candidate |
| Snapshot.HouseOpenMeaning | src/s.h:180-202 | the positions the map leaves open are exactly the house's open cells that still have the digit as a candidate |
| Snapshot.HiddenFromStep | src/s.h:177-209 | the remaining checks from check j are check j, then the checks after it, each on the grid the previous one left |
| Snapshot.HiddenFromNextDigit | src/s.h:178 | the end of one digit's checks is the start of the next digit's |
| Snapshot.HiddenFromNextHouse | src/s.h:177 | the end of one house index's checks is the start of the next index's |
| Snapshot.DigitChecksFrom | src/s.h:178-208 | the pass from digit v of a house index is that digit's row, column and box checks followed by the pass from v + 1, counts added |
| Snapshot.HouseChecksFrom | src/s.h:177-209 | the pass from digit v of house index i is the remaining digits' checks of i followed by the pass from i + 1, counts added |
| Snapshot.HiddenFromProgress | src/s.h:173-212 | a pass from any loop position closes as many cells as it counts |
| Snapshot.HiddenFromCount | src/s.h:173-212 | a pass from a loop position counts 0 exactly when no later check finds a hidden single, and then changes nothing |
| Snapshot.HiddenPassProgress | src/s.h:173-212 | `hidden_single` closes as many cells as it counts |
| Snapshot.HiddenPassStalled | src/s.h:173-212 | `hidden_single` returns 0 exactly when no house has a hidden single, and then changes nothing |
| Snapshot.RoundProgress | src/s.h:217-225 | one round of `solve` closes `ns + hs` cells, keeps earlier digits and brings no conflict |
| Snapshot.RoundCount | src/s.h:217-226 | a round counts 0 exactly when the grid has neither a naked nor a hidden single |
| Snapshot.Propagate | src/s.h:214-227 | `solve` ends, because every round that counts closes a cell, and keeps the invariant |
| Snapshot.PropagateStalls | src/s.h:214-227 | after `solve` there is neither a naked nor a hidden single, so another round would return 0; collapsed cells kept their digits; a conflict-free grid stays conflict-free |
| Snapshot.PropagateFixed | src/s.h:214-227 | a grid with neither kind of single is left unchanged by `solve` |
| Snapshot.PropagateIdempotent | src/s.h:214-227 | solving twice is solving once |
| Snapshot.SolvedFixed | src/s.h:214-227 | a grid with every cell collapsed is left unchanged by `solve` |
| Snapshot.EmptyFixed | src/s.h:214-227 | the grid of `new` is left unchanged by `solve` |
| Snapshot.NoTwinNext | src/s.h:235-249 | a scan in cell order that finds no twin at cell n has found none up to n + 1 |
| Snapshot.NoConflictNoTwin | src/s.h:66-70 | no two peers hold the same digit exactly when no collapsed cell repeats the digit of an earlier peer |
| Snapshot.SeenStep | src/s.h:246-248 | scanning cell c adds its digit to house i exactly when c is collapsed and lies in house i |
| Snapshot.SeenNext | src/s.h:237-248 | scanning cell c updates only the record of its own house, and only when c is collapsed |
| Snapshot.SeenNone | src/s.h:231-233 | before the scan nothing is recorded |
| Snapshot.TwinSeen | src/s.h:241-243 | a collapsed cell repeats an earlier peer's digit exactly when its row, column or box record already holds that digit |
| Snapshot.EmptySnap | src/s.h:111 | `new`: every cell open with all nine candidates, not given, the invariant holds and there is no conflict |
| Snapshot.LoadFromInv | src/s.h:116-120 | every load step keeps the invariant |
| Snapshot.LoadFromFlags | src/s.h:116-120 | after the load loop, a cell is collapsed and given exactly when its character is '1'..'9', with that digit less one |
| Snapshot.LoadedFacts | src/s.h:44-46 | `load` satisfies the invariant, collapses and flags given exactly the cells with '1'..'9', each to `src[i] - '1'` |
| Engine.MarkCollapsed | src/s.h:127 | setting `FLAG_COLLAPSED` closes that cell and leaves every given flag alone |
| Engine.MarkGiven | src/s.h:119 | setting `FLAG_GIVEN` marks that cell given and leaves every collapsed flag alone |
| Engine.CandsAfterWalk | src/s.h:135-155 | the masks after the walk are the snapshot's candidates with the digit struck from every peer |
| Engine.MasksAfterWalk | src/s.h:132-155 | the digit maps after both halves of `collapse` are the snapshot's: the cell in every map, its peers in the map of the placed digit |
| Engine.CollapseAbs | src/s.h:125-156 | the four arrays after `collapse` store exactly `Collapsed` of the snapshot before |
| Engine.Target | src/s.h:183-205 | the cell each check collapses (`9 * i + ffs - 1`, `i + 9 * (ffs - 1)`, `boxi[i][ffs - 1]`) is the house's cell at that position |
| Engine.HouseSingle | src/s.h:180-205 | `popcount(house) == 1` exactly at a hidden single, and then the check's target cell is the hidden single's cell |
| Engine.Grid.constructor | src/s.h:111 | `new` stores the empty snapshot and satisfies the invariant |
| Engine.Load | src/s.h:113-123 | `load` returns a fresh grid storing exactly `Loaded(src)` |
| Engine.Grid.Give | src/s.h:119 | or-ing `FLAG_GIVEN` into `flags[i]` flags cell i given and changes nothing else |
| Engine.Grid.Place | src/s.h:126-127 | `collapse` writes the digit and sets the collapsed flag of its cell only |
| Engine.Grid.MarkEverywhere | src/s.h:132-133 | every digit map gets `vmask` or-ed in |
| Engine.Grid.Visit | src/s.h:139-154 | one visit strikes the digit from a peer's mask and marks the peer in the digit's map, and does neither on the cell itself |
| Engine.Grid.VisitRound | src/s.h:137-155 | one round strikes the round's row, column and box cell and marks them |
| Engine.Grid.WalkPeers | src/s.h:135-155 | the walk strikes the digit from every peer, marks every peer in the digit's map, and leaves the other maps alone |
| Engine.Grid.Collapse | src/s.h:125-156 | `collapse` moves the grid to `Collapsed(old, cell, value)` |
| Engine.Grid.NakedSingleC | src/s.h:158-165 | `naked_single_c` moves the grid and returns as `NakedStep` says, keeping the invariant |
| Engine.Grid.NakedSingle | src/s.h:167-171 | `naked_single` moves the grid and returns as `NakedPass` says, keeping the invariant |
| Engine.Grid.FindHidden | src/s.h:180-205 | the popcount test finds exactly a hidden single, and names its cell |
| Engine.Grid.HiddenCheck | src/s.h:180-207 | one check moves the grid and counts as `HiddenStep` says |
| Engine.Grid.HiddenDigit | src/s.h:179-207 | the grid and count are exactly those of the row, column and box checks of (i, v) in order (`DigitChecks`) |
| Engine.Grid.HiddenHouse | src/s.h:178-208 | the grid and count are exactly those of all nine digits' checks for house index i in order (`HouseChecks`) |
| Engine.Grid.HiddenSingle | src/s.h:173-212 | `hidden_single` moves the grid and returns as `HiddenPass` says, keeping the invariant |
| Engine.Grid.Solve | src/s.h:214-227 | `solve` terminates and leaves the grid at `Propagate(old)` |
| Engine.Recorded | src/s.h:241-243 | `houses[i] & value` is non-zero exactly when digit d is recorded for house i |
| Engine.Record | src/s.h:246-248 | or-ing `value` into `houses[i]` records digit d for house i and changes no other house |
| Engine.Grid.CheckCell | src/s.h:236-248 | one cell of the scan answers exactly whether it repeats an earlier peer's digit, and otherwise records it in its row, column and box |
| Engine.Grid.Check | src/s.h:229-252 | `check` returns 0 exactly when there is no conflict; otherwise the least cell that repeats an earlier peer's digit, never 0 |
| Engine.TwinGivensLoaded | src/s.h:113-123 | loading a puzzle whose first two characters are the same digit gives cell 1 an earlier twin |
| Engine.CheckTwinGivens | src/s.h:229-252 | on such a loaded puzzle ("55...") `check` returns 1 |

## Left out

- `src/d.h` (`debug`) is not part of this model: it is `printf` output only.
- `src/calcifer.c` (`main`) is not part of this model: it is a command-line wrapper with hard-coded puzzles.
- Engine.Load: requires exactly 81 characters. The C loop header also reads `src[81]`, one past the end, after the last iteration (s.h:116). That read is not modelled, and a shorter input, which is undefined behaviour in C, is excluded.
- Engine.Grid.Collapse: requires `cell` in 0..80 and `value` in 0..8. The C code performs no checks; other arguments are undefined behaviour or a corrupted grid.
- Engine.Grid.Check: requires every collapsed cell to hold 0..8, which `Inv` guarantees for every grid built by `new`, `load` and the detectors. The C code would also shift by other stored bytes.
- The digit maps are modelled as unsigned `bv128`. The signed `__int128_t` right shift of the negative `~dm[v]`, and bits 81..127, are not modelled. The extractions mask them off, and the model's invariant keeps the maps within cells 0..80.
- Engine.Grid.WalkPeers: or-s the peers into a local copy of `dm[value]` and writes it back once. The C code writes `g->dm[value]` at every visit. Nothing reads `dm` during the walk, so the final grid is the same.
- The widths of `uint8_t`, `uint16_t` and `int` are not modelled. No value in the engine comes near them: digits 0..8, cells 0..80, counts at most 81 per pass.
- `check`'s `int` arrays `rows`, `cols` and `boxes` are modelled as `bv16` masks. Only bits 0..8 are ever set in them.
- Nothing is modelled about which puzzles `solve` completes. The engine has no backtracking, and the code promises no such property.
