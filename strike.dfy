/**
 * Whole-array views of the in-place updates of `collapse`: striking a digit
 * from a run of candidate masks one visited cell at a time, and marking a
 * cell in every digit map one digit at a time.
 */
module Strikes {
  import opened Bits

  /** Every mask of `cells` with `mask` ANDed in. */
  function Masked(cells: seq<bv16>, mask: bv16): (r: seq<bv16>)
    ensures |r| == |cells|
  {
    seq(|cells|, q requires 0 <= q < |cells| => Keep(cells[q], mask))
  }

  /** `b` at the positions in `picked`, `a` elsewhere. */
  function Select<T>(a: seq<T>, b: seq<T>, picked: set<int>): (r: seq<T>)
    requires |a| == |b|
    ensures |r| == |a|
  {
    seq(|a|, q requires 0 <= q < |a| => if q in picked then b[q] else a[q])
  }

  /** Taking position `p` from `b` as well picks one more position. */
  lemma SelectAdd<T>(a: seq<T>, b: seq<T>, picked: set<int>, p: int)
    requires |a| == |b| && 0 <= p < |a|
    ensures Select(a, b, picked)[p := b[p]] == Select(a, b, picked + {p})
  {
  }

  /** Striking the same digits twice strikes them once. */
  lemma StrikeAgain(x: bv16, mask: bv16)
    ensures Keep(Keep(x, mask), mask) == Keep(x, mask)
  {
  }

  /** `cells` with `mask` ANDed into the candidates of every cell of `peers`. */
  function Struck(cells: seq<bv16>, peers: set<int>, mask: bv16): (r: seq<bv16>)
    ensures |r| == |cells|
  {
    Select(cells, Masked(cells, mask), peers)
  }

  /** Striking one more cell `p` extends the struck set by `p`, whether or not `p` was struck already. */
  lemma StruckAdd(cells: seq<bv16>, peers: set<int>, p: int, mask: bv16)
    requires 0 <= p < |cells|
    ensures Struck(cells, peers, mask)[p := Keep(Struck(cells, peers, mask)[p], mask)] == Struck(cells, peers + {p}, mask)
  {
    var masked := Masked(cells, mask);
    SelectAdd(cells, masked, peers, p);
    StrikeAgain(cells[p], mask);
    assert Keep(Struck(cells, peers, mask)[p], mask) == masked[p];
  }

  /** Every digit map of `words` with `bit` ORed in. */
  function Ored(words: seq<bv128>, bit: bv128): (r: seq<bv128>)
    ensures |r| == |words|
  {
    seq(|words|, q requires 0 <= q < |words| => Join(words[q], bit))
  }

  /** Picking every position takes all of `b`. */
  lemma SelectAll<T>(a: seq<T>, b: seq<T>, picked: set<int>)
    requires |a| == |b|
    requires forall q :: 0 <= q < |a| ==> q in picked
    ensures Select(a, b, picked) == b
  {
  }
}
