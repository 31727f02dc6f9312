// Filling the memory of Argon2 (RFC 9106, section 3.4): which block each new
// block refers to, and the order in which blocks are made.  The compression
// function is a parameter.
module Argon2 {
  import opened Bits

  const SYNC_POINTS := 4
  const ADDRESSES_IN_BLOCK := 128
  const W32 := 0x1_0000_0000
  const ARGON2_ID := 2

  type u32 = x: nat | x < 0x1_0000_0000

  type Block = b: seq<u64> | |b| == 128 witness seq(128, _ => 0)

  /** fillXor keeps what the block held before; fill overwrites it. */
  datatype Compression = Compression(fill: (Block, Block) -> Block, fillXor: (Block, Block, Block) -> Block)

  datatype Instance = Instance(passes: u32, segment: u32, lanes: u32, kind: u32) {
    function LaneLength(): nat { 4 * segment }

    /** Where a slice begins in each lane. */
    function Slice(slice: nat): nat {
      if slice == 0 then 0 else if slice == 1 then segment else if slice == 2 then 2 * segment else 3 * segment
    }

    /** Where a lane begins in memory. */
    function Lane(lane: nat): nat {
      if lane == 0 then 0 else Lane(lane - 1) + LaneLength()
    }

    function Blocks(): nat { Lane(lanes) }

    /** At least two blocks a segment, and a block count that fits a word. */
    predicate Valid() { segment >= 2 && lanes >= 1 && Blocks() < W32 }
  }

  datatype Position = Position(pass: u32, lane: u32, slice: nat, index: u32)

  predicate InSegment(inst: Instance, pos: Position) {
    inst.Valid() && pos.lane < inst.lanes && pos.slice < SYNC_POINTS && pos.index < inst.segment
  }

  /** A position at which a block is made: the first two of each lane are not made here. */
  predicate At(inst: Instance, pos: Position) {
    InSegment(inst, pos) && (pos.pass == 0 && pos.slice == 0 ==> pos.index >= 2)
  }

  function Column(inst: Instance, pos: Position): nat { inst.Slice(pos.slice) + pos.index }

  function Previous(inst: Instance, column: nat): nat
    requires inst.Valid()
  {
    if column == 0 then inst.LaneLength() - 1 else column - 1
  }

  // ----- the reference block: the source's arithmetic -----

  /** Unsigned arithmetic wraps around. */
  function Wrap32(x: int): u32 { if 0 <= x < W32 then x else x % W32 }

  function Wrap64(x: int): u64 { if 0 <= x < W64 then x else x % W64 }

  function ReferenceAreaSize(inst: Instance, pos: Position, sameLane: bool): u32 {
    if pos.pass == 0 then
      if pos.slice == 0 then Wrap32(pos.index - 1)
      else if sameLane then Wrap32(pos.slice * inst.segment + pos.index - 1)
      else Wrap32(pos.slice * inst.segment + (if pos.index == 0 then -1 else 0))
    else if sameLane then Wrap32(inst.LaneLength() - inst.segment + pos.index - 1)
    else Wrap32(inst.LaneLength() - inst.segment + (if pos.index == 0 then -1 else 0))
  }

  /** A 32-bit area size times a 64-bit position is a 64-bit product. */
  function RelativePosition(area: u32, pseudoRand: u32): u64 {
    var squared := Wrap64(pseudoRand * pseudoRand) / W32;
    Wrap64(Wrap32(area - 1) - Wrap64(area * squared) / W32)
  }

  function IndexAlpha(inst: Instance, pos: Position, pseudoRand: u32, sameLane: bool): nat
    requires inst.Valid()
  {
    var relative := RelativePosition(ReferenceAreaSize(inst, pos, sameLane), pseudoRand);
    var start := if pos.pass == 0 || pos.slice == SYNC_POINTS - 1 then 0 else Wrap32((pos.slice + 1) * inst.segment);
    Wrap64(start + relative) % inst.LaneLength()
  }

  // ----- the reference block: section 3.4.2 of RFC 9106 -----

  /** The columns of a segment; segments are numbered through all passes. */
  function Segment(inst: Instance, number: int): (columns: seq<nat>)
    ensures |columns| == if number < 0 then 0 else inst.segment
  {
    if number < 0 then [] else seq(inst.segment, (i: nat) => inst.Slice(number % 4) + i)
  }

  /** The last three segments finished, oldest first, and in the same lane the blocks made in this one. */
  function Candidates(inst: Instance, pos: Position, sameLane: bool): (columns: seq<nat>)
    requires pos.index <= inst.segment
  {
    var now := 4 * pos.pass + pos.slice;
    Segment(inst, now - 3) + Segment(inst, now - 2) + Segment(inst, now - 1)
      + (if sameLane then Segment(inst, now)[..pos.index] else [])
  }

  /** Without the newest of them in the same lane, or if this block opens its segment. */
  function Window(inst: Instance, pos: Position, sameLane: bool): seq<nat>
    requires pos.index <= inst.segment
  {
    var all := Candidates(inst, pos, sameLane);
    if (sameLane || pos.index == 0) && all != [] then all[..|all| - 1] else all
  }

  /** Skewed towards the newest. */
  function Pick(size: nat, pseudoRand: u32): int {
    size - 1 - size * (pseudoRand * pseudoRand / W32) / W32
  }

  /** Other lanes are off limits until every lane has its first segment. */
  predicate MayRefer(pos: Position, sameLane: bool) { pos.pass == 0 && pos.slice == 0 ==> sameLane }

  lemma PickInRange(size: nat, pseudoRand: u32)
    requires 0 < size < W32
    ensures pseudoRand * pseudoRand < W64 && 0 <= pseudoRand * pseudoRand / W32 < W32
    ensures size * (pseudoRand * pseudoRand / W32) < W64
    ensures 0 <= Pick(size, pseudoRand) < size
  {
    Products(pseudoRand, pseudoRand);
    var x := pseudoRand * pseudoRand / W32;
    Products(size, x);
    assert size * x <= (size - 1) * W32 + (W32 - 1) || x < W32;
    assert size * x < size * W32 by { MulLess(size, x, W32); }
  }

  lemma Products(a: u32, b: u32)
    ensures 0 <= a * b < W64
  {
    MulLessEqual(a, b, W32 - 1);
    MulLessEqual(W32 - 1, a, W32 - 1);
  }

  lemma MulLessEqual(a: nat, b: nat, c: nat)
    requires b <= c
    ensures 0 <= a * b <= a * c
  {
    assert a * (c - b) >= 0;
  }

  lemma MulLess(a: nat, b: nat, c: nat)
    requires b < c && a > 0
    ensures a * b < a * c
  {
    assert a * (c - b) > 0;
  }

  /** Three segments back, or the beginning of the lane in the first pass. */
  function Oldest(inst: Instance, pos: Position): nat {
    if pos.pass == 0 || pos.slice == 3 then 0 else inst.Slice(pos.slice + 1)
  }

  function Around(inst: Instance, column: nat): nat {
    if column < inst.LaneLength() then column else column - inst.LaneLength()
  }

  function Segments(pos: Position): nat { if pos.pass == 0 then pos.slice else 3 }

  /** The k-th candidate is in the segment so many segments back. */
  lemma ColumnBack(inst: Instance, pos: Position, back: nat, i: nat, k: nat)
    requires InSegment(inst, pos) && back <= Segments(pos) && i < inst.segment
    requires k == inst.Slice(Segments(pos) - back) + i
    ensures Segment(inst, 4 * pos.pass + pos.slice - back)[i] == Around(inst, Oldest(inst, pos) + k)
  {
    SegmentNumbers(pos);
  }

  /** The candidates run from the oldest onwards, once round the lane. */
  lemma CandidateAt(inst: Instance, pos: Position, sameLane: bool, k: nat)
    requires InSegment(inst, pos)
    requires k < inst.Slice(Segments(pos)) + (if sameLane then pos.index else 0)
    ensures |Candidates(inst, pos, sameLane)| == inst.Slice(Segments(pos)) + (if sameLane then pos.index else 0)
    ensures Candidates(inst, pos, sameLane)[k] == Around(inst, Oldest(inst, pos) + k)
  {
    hide Segment, Around, Oldest;
    var now := 4 * pos.pass + pos.slice;
    var a, b, c, d := Segment(inst, now - 3), Segment(inst, now - 2), Segment(inst, now - 1), Segment(inst, now);
    var e := if sameLane then d[..pos.index] else [];
    var target := Around(inst, Oldest(inst, pos) + k);
    assert (a + b + c + e)[k] == target by {
      JoinedAt(a, b, c, e, k);
      if k < |a| {
        ColumnBack(inst, pos, 3, k, k);
      } else if k < |a| + |b| {
        ColumnBack(inst, pos, 2, k - |a|, k);
      } else if k < |a| + |b| + |c| {
        ColumnBack(inst, pos, 1, k - |a| - |b|, k);
      } else {
        ColumnBack(inst, pos, 0, k - |a| - |b| - |c|, k);
      }
    }
  }

  lemma JoinedAt<X>(a: seq<X>, b: seq<X>, c: seq<X>, d: seq<X>, k: nat)
    requires k < |a| + |b| + |c| + |d|
    ensures (a + b + c + d)[k] ==
      if k < |a| then a[k]
      else if k < |a| + |b| then b[k - |a|]
      else if k < |a| + |b| + |c| then c[k - |a| - |b|]
      else d[k - |a| - |b| - |c|]
  {
  }

  lemma SegmentNumbers(pos: Position)
    requires pos.slice < SYNC_POINTS
    ensures var now := 4 * pos.pass + pos.slice;
            && now % 4 == pos.slice
            && (now - 3) % 4 == (if pos.slice == 3 then 0 else pos.slice + 1)
            && (now - 2) % 4 == (if pos.slice >= 2 then pos.slice - 2 else pos.slice + 2)
            && (now - 1) % 4 == (if pos.slice == 0 then 3 else pos.slice - 1)
  {
  }

  lemma SliceProduct(inst: Instance, slice: nat)
    requires slice <= 3
    ensures slice * inst.segment == inst.Slice(slice)
  {
  }

  lemma LaneFits(inst: Instance)
    requires inst.Valid()
    ensures 8 <= inst.LaneLength() < W32
  {
  }

  lemma AreaIsWindow(inst: Instance, pos: Position, sameLane: bool)
    requires At(inst, pos) && MayRefer(pos, sameLane)
    ensures 0 < |Window(inst, pos, sameLane)| == ReferenceAreaSize(inst, pos, sameLane)
  {
    LaneFits(inst);
    SliceProduct(inst, pos.slice);
    CandidateAt(inst, pos, sameLane, 0);
  }

  lemma RelativeIsPick(area: u32, pseudoRand: u32)
    requires area > 0
    ensures RelativePosition(area, pseudoRand) == Pick(area, pseudoRand)
  {
    PickInRange(area, pseudoRand);
  }

  lemma OnceAround(x: nat, n: nat)
    requires n > 0 && x < 2 * n
    ensures x % n == if x < n then x else x - n
  {
  }

  lemma WindowAt(inst: Instance, pos: Position, sameLane: bool, k: nat)
    requires At(inst, pos) && MayRefer(pos, sameLane) && k < |Window(inst, pos, sameLane)|
    ensures Window(inst, pos, sameLane)[k] == Around(inst, Oldest(inst, pos) + k)
    ensures Oldest(inst, pos) + k < 2 * inst.LaneLength()
  {
    AreaIsWindow(inst, pos, sameLane);
    CandidateAt(inst, pos, sameLane, k);
  }

  lemma IndexAlphaIs(inst: Instance, pos: Position, pseudoRand: u32, sameLane: bool)
    requires At(inst, pos) && ReferenceAreaSize(inst, pos, sameLane) > 0
    requires Oldest(inst, pos) + Pick(ReferenceAreaSize(inst, pos, sameLane), pseudoRand) < 2 * inst.LaneLength()
    ensures 0 <= Pick(ReferenceAreaSize(inst, pos, sameLane), pseudoRand) < ReferenceAreaSize(inst, pos, sameLane)
    ensures IndexAlpha(inst, pos, pseudoRand, sameLane)
         == Around(inst, Oldest(inst, pos) + Pick(ReferenceAreaSize(inst, pos, sameLane), pseudoRand))
  {
    var area := ReferenceAreaSize(inst, pos, sameLane);
    RelativeIsPick(area, pseudoRand);
    PickInRange(area, pseudoRand);
    LaneFits(inst);
    if pos.slice < 3 { SliceProduct(inst, pos.slice + 1); }
    OnceAround(Oldest(inst, pos) + Pick(area, pseudoRand), inst.LaneLength());
  }

  /** Whatever the pseudo-random value, the reference is the block of the standard's window that it picks. */
  lemma IndexAlphaPicks(inst: Instance, pos: Position, pseudoRand: u32, sameLane: bool)
    requires At(inst, pos) && MayRefer(pos, sameLane)
    ensures var w := Window(inst, pos, sameLane);
            && 0 <= Pick(|w|, pseudoRand) < |w|
            && IndexAlpha(inst, pos, pseudoRand, sameLane) == w[Pick(|w|, pseudoRand)]
  {
    AreaIsWindow(inst, pos, sameLane);
    var size := ReferenceAreaSize(inst, pos, sameLane);
    PickInRange(size, pseudoRand);
    WindowAt(inst, pos, sameLane, Pick(size, pseudoRand));
    IndexAlphaIs(inst, pos, pseudoRand, sameLane);
  }

  /**
   * A block that has been made and is not about to be replaced, by this lane or,
   * in another lane, by a parallel one.
   */
  predicate Ready(inst: Instance, pos: Position, sameLane: bool, column: nat)
    requires inst.Valid()
  {
    var here, first, end := Column(inst, pos), inst.Slice(pos.slice), inst.Slice(pos.slice) + inst.segment;
    && column < inst.LaneLength()
    && (if sameLane then
          column != Previous(inst, here) && !(here <= column < end) && (pos.pass == 0 ==> column < here)
        else
          !(first <= column < end) && (pos.pass == 0 ==> column < first)
          && (pos.index == 0 ==> column != Previous(inst, here)))
  }

  function Reach(pos: Position, sameLane: bool): int {
    if sameLane then pos.index - 1 else if pos.index == 0 then -1 else 0
  }

  lemma AreaSize(inst: Instance, pos: Position, sameLane: bool)
    requires At(inst, pos) && MayRefer(pos, sameLane)
    ensures ReferenceAreaSize(inst, pos, sameLane) == inst.Slice(Segments(pos)) + Reach(pos, sameLane)
  {
    LaneFits(inst);
    SliceProduct(inst, pos.slice);
  }

  lemma ReadyRange(inst: Instance, pos: Position, sameLane: bool, k: nat)
    requires At(inst, pos) && MayRefer(pos, sameLane) && k < inst.Slice(Segments(pos)) + Reach(pos, sameLane)
    ensures Ready(inst, pos, sameLane, Around(inst, Oldest(inst, pos) + k))
  {
  }

  /** The window holds exactly the blocks that are ready. */
  lemma WindowMembers(inst: Instance, pos: Position, sameLane: bool, column: nat)
    requires At(inst, pos) && MayRefer(pos, sameLane)
    ensures column in Window(inst, pos, sameLane) <==> Ready(inst, pos, sameLane, column)
  {
    hide Window, ReferenceAreaSize;
    var w, oldest := Window(inst, pos, sameLane), Oldest(inst, pos);
    AreaIsWindow(inst, pos, sameLane);
    AreaSize(inst, pos, sameLane);
    if column in w {
      var k :| 0 <= k < |w| && w[k] == column;
      WindowAt(inst, pos, sameLane, k);
      ReadyRange(inst, pos, sameLane, k);
    } else if Ready(inst, pos, sameLane, column) {
      var k := if column >= oldest then column - oldest else column + inst.LaneLength() - oldest;
      WindowAt(inst, pos, sameLane, k);
      assert false;
    }
  }
}
