// The order in which Argon2 makes its blocks: segments of consecutive blocks,
// a slice of all lanes at a time.  In the source one thread does the lanes of
// a slice in turn; the standard lets them run in parallel.
module Argon2Fill {
  import opened Bits
  import opened Argon2

  // ----- memory: lane after lane -----

  function Offset(inst: Instance, lane: nat, column: nat): nat { inst.Lane(lane) + column }

  lemma {:induction false} LaneProduct(inst: Instance, lane: nat)
    ensures inst.Lane(lane) == lane * inst.LaneLength()
  {
    if lane > 0 { LaneProduct(inst, lane - 1); }
  }

  lemma {:induction false} LaneOrder(inst: Instance, lane: nat, later: nat)
    requires lane < later
    ensures inst.Lane(lane) + inst.LaneLength() <= inst.Lane(later)
  {
    if lane + 1 < later { LaneOrder(inst, lane, later - 1); }
  }

  lemma OffsetDistinct(inst: Instance, l1: nat, c1: nat, l2: nat, c2: nat)
    requires c1 < inst.LaneLength() && c2 < inst.LaneLength() && Offset(inst, l1, c1) == Offset(inst, l2, c2)
    ensures l1 == l2 && c1 == c2
  {
    if l1 < l2 { LaneOrder(inst, l1, l2); } else if l2 < l1 { LaneOrder(inst, l2, l1); }
  }

  lemma {:induction false} OffsetColumn(inst: Instance, lane: nat, column: nat)
    requires column < inst.LaneLength()
    ensures Offset(inst, lane, column) % inst.LaneLength() == column
  {
    if lane > 0 {
      OffsetColumn(inst, lane - 1, column);
      NextMultiple(Offset(inst, lane - 1, column), inst.LaneLength());
    }
  }

  lemma NextMultiple(x: nat, n: nat)
    requires n > 0
    ensures (x + n) % n == x % n
  {
    var q, r := x / n, x % n;
    assert x + n == (q + 1) * n + r;
    Remainder(x + n, q + 1, r, n);
  }

  lemma Remainder(x: nat, q: nat, r: nat, n: nat)
    requires x == q * n + r && r < n
    ensures x % n == r
  {
    var q', r' := x / n, x % n;
    assert (q - q') * n == r' - r;
    if q < q' { Larger(q' - q, n); } else if q' < q { Larger(q - q', n); }
  }

  lemma Larger(d: nat, n: nat)
    requires d > 0
    ensures d * n >= n
  {
  }

  lemma {:induction false} OffsetSplit(inst: Instance, x: nat, lanes: nat) returns (lane: nat, column: nat)
    requires x < inst.Lane(lanes)
    ensures lane < lanes && column < inst.LaneLength() && Offset(inst, lane, column) == x
  {
    if x >= inst.Lane(lanes - 1) {
      lane, column := lanes - 1, x - inst.Lane(lanes - 1);
    } else {
      lane, column := OffsetSplit(inst, x, lanes - 1);
    }
  }

  lemma OffsetInRange(inst: Instance, lane: nat, column: nat)
    requires lane < inst.lanes && column < inst.LaneLength()
    ensures Offset(inst, lane, column) < inst.Blocks()
  {
    LaneOrder(inst, lane, inst.lanes);
  }

  // ----- pseudo-random values that do not depend on the memory -----

  function ZeroBlock(): Block { seq(128, _ => 0) }

  /** Seven words that tell what the addresses are for, and zeros (section 3.4.1.2 of RFC 9106). */
  function InputBlock(inst: Instance, pos: Position, counter: u64): Block
    requires InSegment(inst, pos)
  {
    [pos.pass, pos.lane, pos.slice, inst.Blocks(), inst.passes, inst.kind, counter] + seq(121, _ => 0)
  }

  /** No two address blocks are made from the same input. */
  lemma InputsDiffer(inst: Instance, pos1: Position, counter1: u64, pos2: Position, counter2: u64)
    requires InSegment(inst, pos1) && InSegment(inst, pos2)
    requires InputBlock(inst, pos1, counter1) == InputBlock(inst, pos2, counter2)
    ensures pos1.(index := 0) == pos2.(index := 0) && counter1 == counter2
  {
    var b1, b2 := InputBlock(inst, pos1, counter1), InputBlock(inst, pos2, counter2);
    assert b1[0] == b2[0] && b1[1] == b2[1] && b1[2] == b2[2] && b1[6] == b2[6];
  }

  function AddressBlock(g: Compression, inst: Instance, pos: Position, counter: u64): Block
    requires InSegment(inst, pos)
  {
    g.fillXor(ZeroBlock(), g.fillXor(ZeroBlock(), InputBlock(inst, pos, counter), ZeroBlock()), ZeroBlock())
  }

  /** Address blocks are counted from one. */
  function Address(g: Compression, inst: Instance, pos: Position): u64
    requires InSegment(inst, pos)
  {
    AddressBlock(g, inst, pos, pos.index / ADDRESSES_IN_BLOCK + 1)[pos.index % ADDRESSES_IN_BLOCK]
  }

  method GenerateAddresses(g: Compression, inst: Instance, pos: Position, pseudoRands: array<u64>)
    requires InSegment(inst, pos) && pseudoRands.Length == inst.segment
    modifies pseudoRands
    ensures forall i :: 0 <= i < inst.segment ==> pseudoRands[i] == Address(g, inst, pos.(index := i))
  {
    var zero: Block := seq(128, _ => 0);
    var input: Block, address: Block, counter: u64 := zero, zero, 0;
    input := input[0 := pos.pass][1 := pos.lane][2 := pos.slice];
    input := input[3 := inst.Blocks()][4 := inst.passes][5 := inst.kind];
    assert input == InputBlock(inst, pos, 0) && zero == ZeroBlock();
    for i := 0 to inst.segment
      invariant counter == (i + ADDRESSES_IN_BLOCK - 1) / ADDRESSES_IN_BLOCK
      invariant input == InputBlock(inst, pos, counter)
      invariant i > 0 ==> address == AddressBlock(g, inst, pos, counter)
      invariant forall j :: 0 <= j < i ==> pseudoRands[j] == Address(g, inst, pos.(index := j))
    {
      if i % ADDRESSES_IN_BLOCK == 0 {
        counter := counter + 1;
        input := input[6 := counter];
        var tmp := g.fillXor(zero, input, zero);
        address := g.fillXor(zero, tmp, zero);
        assert input == InputBlock(inst, pos, counter);
      }
      assert AddressBlock(g, inst, pos.(index := i), counter) == AddressBlock(g, inst, pos, counter);
      pseudoRands[i] := address[i % ADDRESSES_IN_BLOCK];
    }
  }

  // ----- one block -----

  predicate DataIndependent(inst: Instance, pos: Position) {
    !(inst.kind == ARGON2_ID && (pos.pass != 0 || pos.slice >= SYNC_POINTS / 2))
  }

  function RefLane(inst: Instance, pos: Position, pseudoRand: u64): (lane: nat)
    requires InSegment(inst, pos)
    ensures lane < inst.lanes && MayRefer(pos, lane == pos.lane)
  {
    if pos.pass == 0 && pos.slice == 0 then pos.lane else pseudoRand / W32 % inst.lanes
  }

  /** The column that section 3.4.2 of RFC 9106 maps a pseudo-random value to. */
  function RefColumn(inst: Instance, pos: Position, pseudoRand: u64): (column: nat)
    requires At(inst, pos)
    ensures Ready(inst, pos, RefLane(inst, pos, pseudoRand) == pos.lane, column)
  {
    var sameLane := RefLane(inst, pos, pseudoRand) == pos.lane;
    var w := Window(inst, pos, sameLane);
    IndexAlphaPicks(inst, pos, pseudoRand % W32, sameLane);
    WindowMembers(inst, pos, sameLane, w[Pick(|w|, pseudoRand % W32)]);
    w[Pick(|w|, pseudoRand % W32)]
  }

  function BlockAt(inst: Instance, m: seq<Block>, lane: nat, column: nat): Block
    requires lane < inst.lanes && column < inst.LaneLength() && |m| == inst.Blocks()
  {
    OffsetInRange(inst, lane, column);
    m[Offset(inst, lane, column)]
  }

  function PseudoRand(g: Compression, inst: Instance, pos: Position, m: seq<Block>): u64
    requires At(inst, pos) && |m| == inst.Blocks()
  {
    if DataIndependent(inst, pos) then Address(g, inst, pos)
    else BlockAt(inst, m, pos.lane, Previous(inst, Column(inst, pos)))[0]
  }

  function NewBlock(g: Compression, inst: Instance, pos: Position, m: seq<Block>): Block
    requires At(inst, pos) && |m| == inst.Blocks()
  {
    var previous := BlockAt(inst, m, pos.lane, Previous(inst, Column(inst, pos)));
    var rand := PseudoRand(g, inst, pos, m);
    var reference := BlockAt(inst, m, RefLane(inst, pos, rand), RefColumn(inst, pos, rand));
    if pos.pass != 0 then g.fillXor(previous, reference, BlockAt(inst, m, pos.lane, Column(inst, pos)))
    else g.fill(previous, reference)
  }

  // ----- what a block refers to, and what it does with it -----

  /** Lane and column of the block a new block refers to. */
  function Referred(g: Compression, inst: Instance, pos: Position, m: seq<Block>): (nat, nat)
    requires At(inst, pos) && |m| == inst.Blocks()
  {
    var rand := PseudoRand(g, inst, pos, m);
    (RefLane(inst, pos, rand), RefColumn(inst, pos, rand))
  }

  /** Memory plays no part where addressing is fixed: Argon2i, and the first half of the first pass of Argon2id. */
  lemma FixedReference(g: Compression, inst: Instance, pos: Position, m1: seq<Block>, m2: seq<Block>)
    requires At(inst, pos) && |m1| == inst.Blocks() == |m2|
    requires inst.kind != 2 || (pos.pass == 0 && pos.slice < 2)
    ensures Referred(g, inst, pos, m1) == Referred(g, inst, pos, m2)
  {
  }

  /** Everywhere else the first word of the previous block decides, and nothing else. */
  lemma DependentReference(g1: Compression, g2: Compression, inst: Instance, pos: Position,
                           m1: seq<Block>, m2: seq<Block>)
    requires At(inst, pos) && |m1| == inst.Blocks() == |m2|
    requires inst.kind == 2 && !(pos.pass == 0 && pos.slice < 2)
    requires BlockAt(inst, m1, pos.lane, Previous(inst, Column(inst, pos)))[0]
          == BlockAt(inst, m2, pos.lane, Previous(inst, Column(inst, pos)))[0]
    ensures Referred(g1, inst, pos, m1) == Referred(g2, inst, pos, m2)
  {
  }

  /** Its upper half modulo the lanes is the lane, and its lower half picks from the window of that lane. */
  lemma ReferenceOfWord(g: Compression, inst: Instance, pos: Position, m: seq<Block>)
    requires At(inst, pos) && |m| == inst.Blocks()
    ensures var independent := inst.kind != 2 || (pos.pass == 0 && pos.slice < 2);
            var previous := BlockAt(inst, m, pos.lane, Previous(inst, Column(inst, pos)));
            var word := if independent then Address(g, inst, pos) else previous[0];
            var lane := if pos.pass == 0 && pos.slice == 0 then pos.lane else word / 0x1_0000_0000 % inst.lanes;
            var window := Window(inst, pos, lane == pos.lane);
            var k := Pick(|window|, word % 0x1_0000_0000);
            && 0 <= k < |window| && window[k] < inst.LaneLength()
            && Referred(g, inst, pos, m) == (lane, window[k])
  {
    var rand := PseudoRand(g, inst, pos, m);
    IndexAlphaPicks(inst, pos, rand % W32, RefLane(inst, pos, rand) == pos.lane);
    var column := RefColumn(inst, pos, rand);
  }

  /** The first pass overwrites; later ones mix in what the block held. */
  lemma BlockFromReference(g: Compression, inst: Instance, pos: Position, m: seq<Block>)
    requires At(inst, pos) && |m| == inst.Blocks()
    ensures var (lane, column) := Referred(g, inst, pos, m);
            && lane < inst.lanes && column < inst.LaneLength()
            && var previous, reference := BlockAt(inst, m, pos.lane, Previous(inst, Column(inst, pos))),
                                          BlockAt(inst, m, lane, column);
               NewBlock(g, inst, pos, m)
                 == if pos.pass == 0 then g.fill(previous, reference)
                    else g.fillXor(previous, reference, BlockAt(inst, m, pos.lane, Column(inst, pos)))
  {
  }

  /** The memory with one more block made. */
  function Made(g: Compression, inst: Instance, pos: Position, m: seq<Block>): (r: seq<Block>)
    requires At(inst, pos) && |m| == inst.Blocks()
    ensures |r| == |m|
  {
    OffsetInRange(inst, pos.lane, Column(inst, pos));
    m[Offset(inst, pos.lane, Column(inst, pos)) := NewBlock(g, inst, pos, m)]
  }

  // ----- one segment -----

  function First(pos: Position): nat { if pos.pass == 0 && pos.slice == 0 then 2 else 0 }

  /** The memory once the blocks of a segment below index n are made. */
  function Filled(g: Compression, inst: Instance, pos: Position, m: seq<Block>, n: nat): (r: seq<Block>)
    requires InSegment(inst, pos) && n <= inst.segment && |m| == inst.Blocks()
    ensures |r| == |m|
  {
    if n <= First(pos) then m
    else Made(g, inst, pos.(index := n - 1), Filled(g, inst, pos, m, n - 1))
  }

  /** The loop body, between the two offsets' steps. */
  method MakeBlock(g: Compression, inst: Instance, pos: Position, memory: array<Block>, pseudoRands: array<u64>,
                   independent: bool, curr: nat, prev: nat)
    requires At(inst, pos) && memory.Length == inst.Blocks() && pseudoRands.Length == inst.segment
    requires independent == DataIndependent(inst, pos)
    requires independent ==> pseudoRands[pos.index] == Address(g, inst, pos)
    requires curr == Offset(inst, pos.lane, Column(inst, pos)) < inst.Blocks()
    requires prev == Offset(inst, pos.lane, Previous(inst, Column(inst, pos))) < inst.Blocks()
    modifies memory
    ensures memory[..] == Made(g, inst, pos, old(memory[..]))
  {
    ghost var m := memory[..];
    var rand := if independent then pseudoRands[pos.index] else memory[prev][0];
    assert rand == PseudoRand(g, inst, pos, m);
    var ref := Reference(inst, pos, memory, rand);
    memory[curr] := if pos.pass != 0 then g.fillXor(memory[prev], ref, memory[curr]) else g.fill(memory[prev], ref);
    assert memory[curr] == NewBlock(g, inst, pos, m);
  }

  method Reference(inst: Instance, pos: Position, memory: array<Block>, rand: u64) returns (ref: Block)
    requires At(inst, pos) && memory.Length == inst.Blocks()
    ensures ref == BlockAt(inst, memory[..], RefLane(inst, pos, rand), RefColumn(inst, pos, rand))
  {
    hide IndexAlpha, RefColumn;
    var refLane := rand / W32 % inst.lanes;
    if pos.pass == 0 && pos.slice == 0 {
      refLane := pos.lane;
    }
    var refIndex := IndexAlpha(inst, pos, rand % W32, refLane == pos.lane);
    assert refLane == RefLane(inst, pos, rand);
    hide RefLane;
    RefColumnIs(inst, pos, rand);
    OffsetInRange(inst, refLane, refIndex);
    LaneProduct(inst, refLane);
    assert inst.LaneLength() * refLane + refIndex == Offset(inst, refLane, refIndex);
    ref := memory[inst.LaneLength() * refLane + refIndex];
  }

  lemma RefColumnIs(inst: Instance, pos: Position, rand: u64)
    requires At(inst, pos)
    ensures IndexAlpha(inst, pos, rand % W32, RefLane(inst, pos, rand) == pos.lane) == RefColumn(inst, pos, rand)
  {
    hide RefLane;
    IndexAlphaPicks(inst, pos, rand % W32, RefLane(inst, pos, rand) == pos.lane);
  }

  /** Where the previous block is: stale for the second of a lane, until it is rotated. */
  predicate PrevAt(inst: Instance, lane: nat, column: nat, prev: nat)
    requires inst.Valid()
  {
    column != 1 ==> prev == Offset(inst, lane, Previous(inst, column))
  }

  /** The first block of the segment, the one before it, and no overflow. */
  method StartSegment(inst: Instance, pos: Position, starting: nat) returns (curr: nat, prev: nat)
    requires InSegment(inst, pos) && starting == First(pos)
    ensures curr == Offset(inst, pos.lane, inst.Slice(pos.slice) + starting)
    ensures PrevAt(inst, pos.lane, inst.Slice(pos.slice) + starting, prev)
  {
    ghost var column := inst.Slice(pos.slice) + starting;
    LaneProduct(inst, pos.lane);
    SliceProduct(inst, pos.slice);
    OffsetInRange(inst, pos.lane, column);
    OffsetInRange(inst, pos.lane, inst.LaneLength() - 1);
    OffsetColumn(inst, pos.lane, column);
    curr := Wrap32(pos.lane * inst.LaneLength() + pos.slice * inst.segment + starting);
    prev := if curr % inst.LaneLength() == 0 then Wrap32(curr + inst.LaneLength() - 1) else curr - 1;
  }

  lemma FilledNext(g: Compression, inst: Instance, pos: Position, m: seq<Block>, i: u32)
    requires InSegment(inst, pos) && |m| == inst.Blocks() && First(pos) <= i < inst.segment
    ensures At(inst, pos.(index := i))
    ensures Filled(g, inst, pos, m, i + 1) == Made(g, inst, pos.(index := i), Filled(g, inst, pos, m, i))
  {
  }

  method FillSegment(g: Compression, inst: Instance, pos: Position, memory: array<Block>, pseudoRands: array<u64>)
    requires InSegment(inst, pos) && memory.Length == inst.Blocks() && pseudoRands.Length == inst.segment
    requires memory as object != pseudoRands
    modifies memory, pseudoRands
    ensures memory[..] == Filled(g, inst, pos, old(memory[..]), inst.segment)
  {
    hide Made, NewBlock, Address;
    var independent := true;
    if inst.kind == ARGON2_ID && (pos.pass != 0 || pos.slice >= SYNC_POINTS / 2) {
      independent := false;
    }
    if independent {
      GenerateAddresses(g, inst, pos, pseudoRands);
    }
    var starting: nat := if pos.pass == 0 && pos.slice == 0 then 2 else 0;
    var curr: nat, prev: nat := StartSegment(inst, pos, starting);
    for i := starting to inst.segment
      invariant curr == Offset(inst, pos.lane, inst.Slice(pos.slice) + i)
      invariant PrevAt(inst, pos.lane, inst.Slice(pos.slice) + i, prev)
      invariant memory[..] == Filled(g, inst, pos, old(memory[..]), i)
      invariant independent ==>
        forall j :: 0 <= j < inst.segment ==> pseudoRands[j] == Address(g, inst, pos.(index := j))
    {
      var here := pos.(index := i);
      FilledNext(g, inst, pos, old(memory[..]), i);
      OffsetColumn(inst, pos.lane, Column(inst, here));
      OffsetInRange(inst, pos.lane, Column(inst, here));
      OffsetInRange(inst, pos.lane, Previous(inst, Column(inst, here)));
      if curr % inst.LaneLength() == 1 {
        prev := curr - 1;
      }
      MakeBlock(g, inst, here, memory, pseudoRands, independent, curr, prev);
      curr, prev := curr + 1, prev + 1;
    }
  }

  // ----- slices and passes -----

  predicate Lanes(inst: Instance, order: seq<u32>) {
    forall i :: 0 <= i < |order| ==> order[i] < inst.lanes
  }

  /** The memory once these lanes have had their segment of the slice, one after the other. */
  function FillLanes(g: Compression, inst: Instance, pos: Position, m: seq<Block>, order: seq<u32>): (r: seq<Block>)
    requires inst.Valid() && pos.slice < SYNC_POINTS && |m| == inst.Blocks()
    requires Lanes(inst, order)
    ensures |r| == |m|
  {
    if order == [] then m
    else
      var n := |order| - 1;
      Filled(g, inst, pos.(lane := order[n], index := 0), FillLanes(g, inst, pos, m, order[..n]), inst.segment)
  }

  function Ascending(n: u32): (order: seq<u32>)
    ensures |order| == n && forall i :: 0 <= i < n ==> order[i] == i
  {
    seq(n, (i: nat) requires i < n => i)
  }

  function FillSlices(g: Compression, inst: Instance, pass: u32, m: seq<Block>, slices: nat): (r: seq<Block>)
    requires inst.Valid() && slices <= SYNC_POINTS && |m| == inst.Blocks()
    ensures |r| == |m|
  {
    if slices == 0 then m
    else
      var before := FillSlices(g, inst, pass, m, slices - 1);
      FillLanes(g, inst, Position(pass, 0, slices - 1, 0), before, Ascending(inst.lanes))
  }

  lemma AscendingNext(n: nat, l: nat)
    requires l < n < W32
    ensures Ascending(n)[..l + 1] == Ascending(n)[..l] + [l]
  {
  }

  method FillMemoryBlocks(g: Compression, inst: Instance, pass: u32, memory: array<Block>, pseudoRands: array<u64>)
    requires inst.Valid() && memory.Length == inst.Blocks() && pseudoRands.Length == inst.segment
    requires memory as object != pseudoRands
    modifies memory, pseudoRands
    ensures memory[..] == FillSlices(g, inst, pass, old(memory[..]), SYNC_POINTS)
  {
    hide Filled;
    for s := 0 to SYNC_POINTS
      invariant memory[..] == FillSlices(g, inst, pass, old(memory[..]), s)
    {
      ghost var before := memory[..];
      var pos := Position(pass, 0, s, 0);
      ghost var order := Ascending(inst.lanes);
      for l := 0 to inst.lanes
        invariant memory[..] == FillLanes(g, inst, pos, before, order[..l])
      {
        AscendingNext(inst.lanes, l);
        assert order[..l + 1][..l] == order[..l];
        FillSegment(g, inst, pos.(lane := l), memory, pseudoRands);
      }
      assert order[..inst.lanes] == order;
    }
  }

  /** The first two blocks of every lane come from hashing (number, lane). */
  method FillFirstBlocks(hash: (nat, nat) -> Block, inst: Instance, memory: array<Block>)
    requires inst.Valid() && memory.Length == inst.Blocks()
    modifies memory
    ensures forall lane, column :: 0 <= lane < inst.lanes && 0 <= column < inst.LaneLength() ==>
      BlockAt(inst, memory[..], lane, column)
        == if column < 2 then hash(column, lane) else BlockAt(inst, old(memory[..]), lane, column)
  {
    for l := 0 to inst.lanes
      invariant forall lane, column :: 0 <= lane < inst.lanes && 0 <= column < inst.LaneLength() ==>
        BlockAt(inst, memory[..], lane, column)
          == if column < 2 && lane < l then hash(column, lane) else BlockAt(inst, old(memory[..]), lane, column)
    {
      ghost var m := memory[..];
      LaneProduct(inst, l);
      OffsetInRange(inst, l, 0);
      OffsetInRange(inst, l, 1);
      memory[l * inst.LaneLength() + 0] := hash(0, l);
      memory[l * inst.LaneLength() + 1] := hash(1, l);
      ghost var m1: seq<Block> := m[Offset(inst, l, 0) := hash(0, l)];
      assert memory[..] == m1[Offset(inst, l, 1) := hash(1, l)];
      forall lane, column | 0 <= lane < inst.lanes && 0 <= column < inst.LaneLength()
        ensures BlockAt(inst, memory[..], lane, column)
          == if column < 2 && lane == l then hash(column, lane) else BlockAt(inst, m, lane, column)
      {
        BlockSet(inst, m, l, 0, hash(0, l), lane, column);
        BlockSet(inst, m1, l, 1, hash(1, l), lane, column);
      }
    }
  }

  lemma BlockSet(inst: Instance, m: seq<Block>, l1: nat, c1: nat, b: Block, l2: nat, c2: nat)
    requires |m| == inst.Blocks() && l1 < inst.lanes && l2 < inst.lanes
    requires c1 < inst.LaneLength() && c2 < inst.LaneLength()
    ensures Offset(inst, l1, c1) < |m|
    ensures BlockAt(inst, m[Offset(inst, l1, c1) := b], l2, c2)
         == if l1 == l2 && c1 == c2 then b else BlockAt(inst, m, l2, c2)
  {
    OffsetInRange(inst, l1, c1);
    OffsetInRange(inst, l2, c2);
    if Offset(inst, l1, c1) == Offset(inst, l2, c2) { OffsetDistinct(inst, l1, c1, l2, c2); }
  }

  // ----- the lanes of a slice do not interfere -----

  /** Alike but for this slice in the other lanes. */
  ghost predicate Alike(inst: Instance, lane: nat, slice: nat, m1: seq<Block>, m2: seq<Block>) {
    && |m1| == inst.Blocks() == |m2|
    && forall l, c :: 0 <= l < inst.lanes && 0 <= c < inst.LaneLength() && (l == lane || !InSlice(inst, slice, c)) ==>
         BlockAt(inst, m1, l, c) == BlockAt(inst, m2, l, c)
  }

  predicate InSlice(inst: Instance, slice: nat, column: nat) {
    inst.Slice(slice) <= column < inst.Slice(slice) + inst.segment
  }

  /** A new block reads its own lane and finished slices of the others. */
  lemma NewBlockLocal(g: Compression, inst: Instance, pos: Position, m1: seq<Block>, m2: seq<Block>)
    requires At(inst, pos) && Alike(inst, pos.lane, pos.slice, m1, m2)
    ensures NewBlock(g, inst, pos, m1) == NewBlock(g, inst, pos, m2)
  {
    var column := Column(inst, pos);
    assert BlockAt(inst, m1, pos.lane, Previous(inst, column)) == BlockAt(inst, m2, pos.lane, Previous(inst, column));
    assert BlockAt(inst, m1, pos.lane, column) == BlockAt(inst, m2, pos.lane, column);
    var rand := PseudoRand(g, inst, pos, m1);
    assert rand == PseudoRand(g, inst, pos, m2);
    var l, c := RefLane(inst, pos, rand), RefColumn(inst, pos, rand);
    assert BlockAt(inst, m1, l, c) == BlockAt(inst, m2, l, c);
  }

  lemma {:induction false} SegmentLocal(g: Compression, inst: Instance, pos: Position,
                                        m1: seq<Block>, m2: seq<Block>, n: nat)
    requires InSegment(inst, pos) && n <= inst.segment && Alike(inst, pos.lane, pos.slice, m1, m2)
    ensures Alike(inst, pos.lane, pos.slice, Filled(g, inst, pos, m1, n), Filled(g, inst, pos, m2, n))
  {
    hide Made, NewBlock;
    if n > First(pos) {
      SegmentLocal(g, inst, pos, m1, m2, n - 1);
      MadeLocal(g, inst, pos.(index := n - 1), Filled(g, inst, pos, m1, n - 1), Filled(g, inst, pos, m2, n - 1));
    }
  }

  lemma MadeLocal(g: Compression, inst: Instance, pos: Position, m1: seq<Block>, m2: seq<Block>)
    requires At(inst, pos) && Alike(inst, pos.lane, pos.slice, m1, m2)
    ensures Alike(inst, pos.lane, pos.slice, Made(g, inst, pos, m1), Made(g, inst, pos, m2))
  {
    hide NewBlock;
    NewBlockLocal(g, inst, pos, m1, m2);
    var column, b := Column(inst, pos), NewBlock(g, inst, pos, m1);
    forall l, c | 0 <= l < inst.lanes && 0 <= c < inst.LaneLength() && (l == pos.lane || !InSlice(inst, pos.slice, c))
      ensures BlockAt(inst, Made(g, inst, pos, m1), l, c) == BlockAt(inst, Made(g, inst, pos, m2), l, c)
    {
      BlockSet(inst, m1, pos.lane, column, b, l, c);
      BlockSet(inst, m2, pos.lane, column, b, l, c);
    }
  }

  /** Filling a segment changes nothing outside it. */
  lemma {:induction false} SegmentFrame(g: Compression, inst: Instance, pos: Position, m: seq<Block>,
                                        n: nat, l: nat, c: nat)
    requires InSegment(inst, pos) && n <= inst.segment && |m| == inst.Blocks()
    requires l < inst.lanes && c < inst.LaneLength() && !(l == pos.lane && InSlice(inst, pos.slice, c))
    ensures BlockAt(inst, Filled(g, inst, pos, m, n), l, c) == BlockAt(inst, m, l, c)
  {
    hide NewBlock;
    if n > First(pos) {
      var here, m' := pos.(index := n - 1), Filled(g, inst, pos, m, n - 1);
      SegmentFrame(g, inst, pos, m, n - 1, l, c);
      BlockSet(inst, m', pos.lane, Column(inst, here), NewBlock(g, inst, here, m'), l, c);
    }
  }

  /** After lanes were filled in any order, each holds what it would alone. */
  lemma {:induction false} LanesDoNotInterfere(g: Compression, inst: Instance, pos: Position, m: seq<Block>,
                                               order: seq<u32>, l: u32, c: nat)
    requires inst.Valid() && pos.slice < SYNC_POINTS && |m| == inst.Blocks()
    requires Lanes(inst, order)
    requires forall i, j :: 0 <= i < j < |order| ==> order[i] != order[j]
    requires l < inst.lanes && c < inst.LaneLength()
    ensures BlockAt(inst, FillLanes(g, inst, pos, m, order), l, c)
         == if l in order && InSlice(inst, pos.slice, c)
            then BlockAt(inst, Filled(g, inst, pos.(lane := l, index := 0), m, inst.segment), l, c)
            else BlockAt(inst, m, l, c)
    decreases |order|
  {
    if order != [] {
      var n := |order| - 1;
      var here, before := pos.(lane := order[n], index := 0), FillLanes(g, inst, pos, m, order[..n]);
      assert order == order[..n] + [order[n]];
      LanesDoNotInterfere(g, inst, pos, m, order[..n], l, c);
      if l == order[n] && InSlice(inst, pos.slice, c) {
        forall l', c' |
          0 <= l' < inst.lanes && 0 <= c' < inst.LaneLength() && (l' == l || !InSlice(inst, pos.slice, c'))
          ensures BlockAt(inst, before, l', c') == BlockAt(inst, m, l', c')
        {
          LanesDoNotInterfere(g, inst, pos, m, order[..n], l', c');
        }
        SegmentLocal(g, inst, here, before, m, inst.segment);
      } else {
        SegmentFrame(g, inst, here, before, inst.segment, l, c);
      }
    }
  }

  /** The lanes of a slice may be filled in any order, as if in parallel. */
  lemma AnyOrder(g: Compression, inst: Instance, pos: Position, m: seq<Block>, order1: seq<u32>, order2: seq<u32>)
    requires inst.Valid() && pos.slice < SYNC_POINTS && |m| == inst.Blocks()
    requires forall lane :: lane in order1 <==> lane in order2
    requires Lanes(inst, order1) && Lanes(inst, order2)
    requires forall i, j :: 0 <= i < j < |order1| ==> order1[i] != order1[j]
    requires forall i, j :: 0 <= i < j < |order2| ==> order2[i] != order2[j]
    ensures FillLanes(g, inst, pos, m, order1) == FillLanes(g, inst, pos, m, order2)
  {
    hide Filled;
    var m1, m2 := FillLanes(g, inst, pos, m, order1), FillLanes(g, inst, pos, m, order2);
    forall x | 0 <= x < |m| ensures m1[x] == m2[x] {
      var l, c := OffsetSplit(inst, x, inst.lanes);
      LanesDoNotInterfere(g, inst, pos, m, order1, l, c);
      LanesDoNotInterfere(g, inst, pos, m, order2, l, c);
    }
  }

  // ----- the first pass reads nothing it has not written -----

  /** Alike in the first so many columns of each lane. */
  ghost predicate Known(inst: Instance, bound: seq<nat>, m1: seq<Block>, m2: seq<Block>) {
    && |m1| == inst.Blocks() == |m2| && |bound| == inst.lanes
    && forall l, c :: 0 <= l < inst.lanes && 0 <= c < inst.LaneLength() && c < bound[l] ==>
         BlockAt(inst, m1, l, c) == BlockAt(inst, m2, l, c)
  }

  /** Finished slices are known everywhere, and in its own lane everything before this block. */
  ghost predicate KnownBefore(inst: Instance, pos: Position, bound: seq<nat>) {
    && |bound| == inst.lanes && pos.lane < inst.lanes
    && bound[pos.lane] == Column(inst, pos)
    && (pos.slice > 0 ==> forall l :: 0 <= l < inst.lanes ==> bound[l] >= inst.Slice(pos.slice))
  }

  lemma NewBlockKnown(g: Compression, inst: Instance, pos: Position, bound: seq<nat>, m1: seq<Block>, m2: seq<Block>)
    requires At(inst, pos) && pos.pass == 0 && KnownBefore(inst, pos, bound) && Known(inst, bound, m1, m2)
    requires pos.slice > 0 || pos.index > 0
    ensures NewBlock(g, inst, pos, m1) == NewBlock(g, inst, pos, m2)
  {
    var column := Column(inst, pos);
    assert BlockAt(inst, m1, pos.lane, Previous(inst, column)) == BlockAt(inst, m2, pos.lane, Previous(inst, column));
    var rand := PseudoRand(g, inst, pos, m1);
    assert rand == PseudoRand(g, inst, pos, m2);
    var l, c := RefLane(inst, pos, rand), RefColumn(inst, pos, rand);
    assert BlockAt(inst, m1, l, c) == BlockAt(inst, m2, l, c);
  }

  lemma MadeKnown(g: Compression, inst: Instance, pos: Position, bound: seq<nat>, m1: seq<Block>, m2: seq<Block>)
    requires At(inst, pos) && pos.pass == 0 && KnownBefore(inst, pos, bound) && Known(inst, bound, m1, m2)
    ensures Known(inst, bound[pos.lane := Column(inst, pos) + 1], Made(g, inst, pos, m1), Made(g, inst, pos, m2))
  {
    hide NewBlock;
    NewBlockKnown(g, inst, pos, bound, m1, m2);
    var column, b := Column(inst, pos), NewBlock(g, inst, pos, m1);
    forall l, c | 0 <= l < inst.lanes && 0 <= c < inst.LaneLength() && c < bound[pos.lane := column + 1][l]
      ensures BlockAt(inst, Made(g, inst, pos, m1), l, c) == BlockAt(inst, Made(g, inst, pos, m2), l, c)
    {
      BlockSet(inst, m1, pos.lane, column, b, l, c);
      BlockSet(inst, m2, pos.lane, column, b, l, c);
    }
  }

  lemma {:induction false} SegmentKnown(g: Compression, inst: Instance, pos: Position, bound: seq<nat>,
                                        m1: seq<Block>, m2: seq<Block>, n: nat)
    requires InSegment(inst, pos) && pos.pass == 0 && First(pos) <= n <= inst.segment && Known(inst, bound, m1, m2)
    requires KnownBefore(inst, pos.(index := First(pos)), bound)
    ensures Known(inst, bound[pos.lane := inst.Slice(pos.slice) + n],
                  Filled(g, inst, pos, m1, n), Filled(g, inst, pos, m2, n))
  {
    hide Made, NewBlock;
    if n > First(pos) {
      var here, bound' := pos.(index := n - 1), bound[pos.lane := inst.Slice(pos.slice) + n - 1];
      SegmentKnown(g, inst, pos, bound, m1, m2, n - 1);
      assert KnownBefore(inst, here, bound');
      MadeKnown(g, inst, here, bound', Filled(g, inst, pos, m1, n - 1), Filled(g, inst, pos, m2, n - 1));
      assert bound'[pos.lane := inst.Slice(pos.slice) + n] == bound[pos.lane := inst.Slice(pos.slice) + n];
    } else {
      assert bound[pos.lane := inst.Slice(pos.slice) + n] == bound;
    }
  }

  /** How much of each lane is known once so many lanes of a slice are done. */
  function Bound(inst: Instance, slice: nat, done: nat): (bound: seq<nat>)
    ensures |bound| == inst.lanes
  {
    var before: nat := if slice == 0 then 2 else inst.Slice(slice);
    var after: nat := inst.Slice(slice) + inst.segment;
    seq(inst.lanes, (l: nat) => if l < done then after else before)
  }

  lemma {:induction false} LanesKnown(g: Compression, inst: Instance, pos: Position,
                                      m1: seq<Block>, m2: seq<Block>, done: nat)
    requires inst.Valid() && pos.slice < SYNC_POINTS && pos.pass == 0 && done <= inst.lanes
    requires Known(inst, Bound(inst, pos.slice, 0), m1, m2)
    ensures Known(inst, Bound(inst, pos.slice, done), FillLanes(g, inst, pos, m1, Ascending(inst.lanes)[..done]),
                  FillLanes(g, inst, pos, m2, Ascending(inst.lanes)[..done]))
  {
    hide Filled;
    var order := Ascending(inst.lanes);
    if done > 0 {
      var here, bound := pos.(lane := done - 1, index := 0), Bound(inst, pos.slice, done - 1);
      LanesKnown(g, inst, pos, m1, m2, done - 1);
      assert order[..done][..done - 1] == order[..done - 1];
      SegmentKnown(g, inst, here, bound, FillLanes(g, inst, pos, m1, order[..done - 1]),
                   FillLanes(g, inst, pos, m2, order[..done - 1]), inst.segment);
      assert bound[done - 1 := inst.Slice(pos.slice) + inst.segment] == Bound(inst, pos.slice, done);
    }
  }

  lemma {:induction false} SlicesKnown(g: Compression, inst: Instance, m1: seq<Block>, m2: seq<Block>, slices: nat)
    requires inst.Valid() && slices < SYNC_POINTS
    requires Known(inst, Bound(inst, 0, 0), m1, m2)
    ensures Known(inst, Bound(inst, slices, inst.lanes),
                  FillSlices(g, inst, 0, m1, slices + 1), FillSlices(g, inst, 0, m2, slices + 1))
  {
    hide FillLanes;
    var n1, n2 := FillSlices(g, inst, 0, m1, slices), FillSlices(g, inst, 0, m2, slices);
    if slices > 0 {
      SlicesKnown(g, inst, m1, m2, slices - 1);
      assert Bound(inst, slices - 1, inst.lanes) == Bound(inst, slices, 0);
    }
    LanesKnown(g, inst, Position(0, 0, slices, 0), n1, n2, inst.lanes);
    assert Ascending(inst.lanes)[..inst.lanes] == Ascending(inst.lanes);
  }

  /** After the first pass nothing is left of what the memory held, but the first two blocks of each lane. */
  lemma FirstPassDetermined(g: Compression, inst: Instance, m1: seq<Block>, m2: seq<Block>)
    requires inst.Valid() && |m1| == inst.Blocks() == |m2|
    requires forall l, c :: 0 <= l < inst.lanes && 0 <= c < 2 ==> BlockAt(inst, m1, l, c) == BlockAt(inst, m2, l, c)
    ensures FillSlices(g, inst, 0, m1, SYNC_POINTS) == FillSlices(g, inst, 0, m2, SYNC_POINTS)
  {
    hide FillSlices;
    SlicesKnown(g, inst, m1, m2, 3);
    var n1, n2 := FillSlices(g, inst, 0, m1, SYNC_POINTS), FillSlices(g, inst, 0, m2, SYNC_POINTS);
    forall x | 0 <= x < |n1| ensures n1[x] == n2[x] {
      var l, c := OffsetSplit(inst, x, inst.lanes);
      assert BlockAt(inst, n1, l, c) == BlockAt(inst, n2, l, c);
    }
  }
}
