/** Block heights and timestamps for hard forks. Blocks come every two minutes; the height of
    a timestamp is found by rounding half to even, as Python's round() does. The quotient is
    exact here. */
module HardforkCalc {

  const REFERENCE_BLOCK: int := 641110
  const REFERENCE_TIME: int := 1602469341
  const BLOCK_TIME: int := 120

  /** round(x / d): the nearest integer, ties going to the even one. */
  function RoundDiv(x: int, d: int): int
    requires d > 0
  {
    var q, m := x / d, x % d;
    if 2 * m < d || (2 * m == d && q % 2 == 0) then q else q + 1
  }

  function UnixToBlock(ts: int): int {
    RoundDiv(ts - REFERENCE_TIME, BLOCK_TIME) + REFERENCE_BLOCK
  }

  function BlockToUnix(block: int): int {
    REFERENCE_TIME + (block - REFERENCE_BLOCK) * BLOCK_TIME - 21
  }

  /** What the script takes a number on the command line for: a small one is a block. */
  function Timestamp(arg: nat): int {
    if arg < 1_000_000_000 then BlockToUnix(arg) else arg
  }

  /** The timestamps that round to a given block: half a block time to either side of its
      own, the ends included for even distances from the reference only. */
  predicate Rounds(ts: int, block: int) {
    var off := ts - REFERENCE_TIME - (block - REFERENCE_BLOCK) * BLOCK_TIME;
    if (block - REFERENCE_BLOCK) % 2 == 0 then -60 <= off <= 60 else -60 < off < 60
  }

  lemma RoundDivCharacterised(x: int, b: int)
    ensures RoundDiv(x, 120) == b <==> if b % 2 == 0 then -60 <= x - 120 * b <= 60 else -60 < x - 120 * b < 60
  {
  }

  lemma UnixToBlockExactly(ts: int, block: int)
    ensures UnixToBlock(ts) == block <==> Rounds(ts, block)
  {
    RoundDivCharacterised(ts - REFERENCE_TIME, block - REFERENCE_BLOCK);
  }

  /** A block's own timestamp leads back to the block. */
  lemma BlockRoundTrip(block: int)
    ensures UnixToBlock(BlockToUnix(block)) == block
    ensures BlockToUnix(block) == 120 * block + 1_525_536_120
  {
    UnixToBlockExactly(BlockToUnix(block), block);
  }

  /** A timestamp, turned into a block and back, moves by -81 to +39 seconds; both ends are
      reached for every even block. */
  lemma TimeRoundTrip(ts: int, even: int)
    ensures -81 <= BlockToUnix(UnixToBlock(ts)) - ts <= 39
    ensures even % 2 == 0 ==>
              && (exists t :: UnixToBlock(t) == even && BlockToUnix(even) - t == -81)
              && (exists t :: UnixToBlock(t) == even && BlockToUnix(even) - t == 39)
  {
    UnixToBlockExactly(ts, UnixToBlock(ts));
    if even % 2 == 0 {
      UnixToBlockExactly(BlockToUnix(even) + 81, even);
      UnixToBlockExactly(BlockToUnix(even) - 39, even);
    }
  }

  lemma UnixToBlockMonotone(t: int, u: int)
    requires t <= u
    ensures UnixToBlock(t) <= UnixToBlock(u)
  {
    UnixToBlockExactly(t, UnixToBlock(t));
    UnixToBlockExactly(u, UnixToBlock(u));
  }

  function Seconds(start: int, n: nat): (s: set<int>)
    ensures forall t :: t in s <==> start <= t < start + n
    ensures |s| == n
  {
    if n == 0 then {} else Seconds(start, n - 1) + {start + n - 1}
  }

  /** Rounding half to even gives the even blocks 121 seconds and the odd ones 119. */
  lemma SecondsOfBlock(block: int) returns (seconds: set<int>)
    ensures forall t :: t in seconds <==> UnixToBlock(t) == block
    ensures |seconds| == if block % 2 == 0 then 121 else 119
  {
    var own := BlockToUnix(block) + 21;
    seconds := if block % 2 == 0 then Seconds(own - 60, 121) else Seconds(own - 59, 119);
    forall t ensures t in seconds <==> UnixToBlock(t) == block {
      UnixToBlockExactly(t, block);
    }
  }

  /** A block number on the command line comes out as the same block; a timestamp comes out
      as a block no more than a minute away. */
  lemma ArgumentMeaning(arg: nat)
    ensures arg < 1_000_000_000 ==> UnixToBlock(Timestamp(arg)) == arg
    ensures arg >= 1_000_000_000 ==> -60 <= BlockToUnix(UnixToBlock(Timestamp(arg))) + 21 - arg <= 60
  {
    BlockRoundTrip(arg);
    UnixToBlockExactly(arg, UnixToBlock(arg));
  }
}
