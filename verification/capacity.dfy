/** The piece-array growth of mix/core/src/buffer.c. The rest of the model
    keeps pieces in a `seq` and never runs out of room; this module looks at
    the capacity arithmetic alone, because the split path of buffer_insert
    asks ensure_piece_capacity for room it will not give. */
module Capacity {
  import opened Optional

  /** INITIAL_PIECE_CAPACITY. */
  const InitialPieceCapacity: nat := 64

  /** ensure_piece_capacity: room for one more piece. A full array doubles;
      one with a free slot is left as it is. The piece count never exceeds
      the capacity, and the capacity starts positive. */
  function EnsurePieceCapacity(count: nat, capacity: nat): (r: nat)
    ensures count <= capacity && capacity > 0 ==> count < r
    ensures count < capacity ==> r == capacity
    ensures capacity <= count ==> r == 2 * capacity
    ensures capacity <= r
  {
    if count < capacity then capacity else capacity * 2
  }

  /** The loop of buffer_insert's split path as written: call
      ensure_piece_capacity while two more pieces do not fit. `None` means
      the loop is still running after `rounds` rounds. */
  function SplitGrowthAsWritten(count: nat, capacity: nat, rounds: nat): (r: Option<nat>)
    ensures r.Some? ==> count + 2 <= r.value
    decreases rounds
  {
    if count + 2 <= capacity then Some(capacity)
    else if rounds == 0 then None
    else SplitGrowthAsWritten(count, EnsurePieceCapacity(count, capacity), rounds - 1)
  }

  /** With exactly one free slot the loop never ends: ensure_piece_capacity
      sees room for one piece and grows nothing, so the loop condition holds
      again. 63 pieces in an array of 64, reachable by 31 splitting inserts
      into a fresh buffer, is such a state. */
  lemma {:induction false} SplitLoopSpins(count: nat, rounds: nat)
    ensures SplitGrowthAsWritten(count, count + 1, rounds) == None
  {
    if rounds > 0 {
      assert EnsurePieceCapacity(count, count + 1) == count + 1;
      SplitLoopSpins(count, rounds - 1);
    }
  }

  /** The loop as evidently intended: double until two more pieces fit. */
  function SplitGrowth(count: nat, capacity: nat): (r: nat)
    requires capacity > 0
    ensures capacity <= r && count + 2 <= r
    ensures count + 2 <= capacity ==> r == capacity
    ensures count + 2 > capacity ==> r < 2 * (count + 2)
    decreases count + 2 - capacity
  {
    if count + 2 <= capacity then capacity else SplitGrowth(count, capacity * 2)
  }

  /** From the stalling state the corrected loop doubles once. */
  lemma SplitGrowthFromOneFreeSlot()
    ensures SplitGrowthAsWritten(InitialPieceCapacity - 1, InitialPieceCapacity, 5) == None
    ensures SplitGrowth(InitialPieceCapacity - 1, InitialPieceCapacity) == 2 * InitialPieceCapacity
  {
    SplitLoopSpins(InitialPieceCapacity - 1, 5);
  }
}
