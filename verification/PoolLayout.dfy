/**
 Where the driver places the descriptor rings and the memory pools in the memory of an ACX100 (init.c).
 */
module PoolLayout {
  import opened Words
  import opened Multiples
  import opened BlockChains
  import opened TxPool
  import opened TxProtocol
  import opened TxRing
  import opened RxRing

  const TX_DESC_SIZE: nat := 4 * DESC_WORDS
  const RX_DESC_SIZE: nat := 52
  /** From this many blocks on, the Rx half overflows its 16-bit field. */
  const MAX_BLOCKS: nat := 0x1_ffff

  /** The part of `acx100_ie_memconfigoption_t` that says where the pools lie. */
  datatype Pools = Pools(rxMem: nat, rxBlocks: nat, txMem: nat, txBlocks: nat) {

    function RxEnd(size: nat): nat {
      rxMem + Span(rxBlocks, size)
    }

    function TxEnd(size: nat): nat {
      txMem + Span(txBlocks, size)
    }
  }

  /** `(a + 0x1f) & ~0x1f` in 32 bits */
  function RoundUp(a: nat): (r: nat)
    ensures a + 0x1f < 0x1_0000_0000 ==> r % 32 == 0 && a <= r < a + 32
  {
    (a + 0x1f) % 0x1_0000_0000 / 32 * 32
  }

  lemma RoundUpAdds(a: nat, b: nat)
    requires b % 32 == 0 && a + b + 0x1f < 0x1_0000_0000
    ensures RoundUp(a + b) == RoundUp(a) + b
  {
    assert (a + b + 0x1f) / 32 == (a + 0x1f) / 32 + b / 32;
  }

  /** As many whole blocks as fit. */
  method CountBlocks(room: nat, size: nat) returns (total: nat)
    requires 0 < size
    ensures Span(total, size) + Leftover(room, size) == room
    ensures total < MAX_BLOCKS <==> room < Span(MAX_BLOCKS, size)
  {
    total := room / size;
    WholeAndRest(room, size);
    if MAX_BLOCKS <= total {
      SpanGrows(MAX_BLOCKS, total, size);
    } else {
      SpanGrows(total + 1, MAX_BLOCKS, size);
    }
  }

  /** Where the pools lie, given their sizes. */
  lemma Placed(poolStart: nat, poolEnd: nat, waste: nat, rxMem: nat, txMem: nat, rxSize: nat, txSize: nat)
    requires poolStart <= poolEnd <= ADDRESS_LIMIT && rxSize % 32 == 0
    requires 0 <= poolEnd - poolStart - rxSize - txSize == waste
    requires rxMem == RoundUp(poolStart) && txMem == RoundUp(poolStart + rxSize)
    ensures rxMem % 32 == 0 && txMem % 32 == 0
    ensures poolStart <= rxMem < poolStart + 32 && rxMem + rxSize == txMem
    ensures txMem + txSize - rxMem == poolEnd - poolStart - waste
    ensures txMem + txSize <= poolEnd <==> rxMem - poolStart <= waste
    ensures poolStart % 32 == 0 ==> rxMem == poolStart && txMem + txSize <= poolEnd
  {
    RoundUpAdds(poolStart, rxSize);
  }

  /** Half of the blocks go to each pool, the odd one to Rx. */
  method SplitBlocks(total: nat) returns (rxBlocks: nat, txBlocks: nat)
    ensures txBlocks <= rxBlocks <= txBlocks + 1 && rxBlocks + txBlocks == total
    ensures rxBlocks < 0x1_0000 <==> total < MAX_BLOCKS
  {
    txBlocks := total / 2;
    rxBlocks := total - txBlocks;
  }

  /** A count as a 16-bit field keeps it. */
  function Cut(n: nat): (r: nat)
    ensures r < 0x1_0000 && r <= n && (r == n <==> n < 0x1_0000)
  {
    n % 0x1_0000
  }

  /** The pool is as large as its count says exactly if the count fits its field. */
  lemma CutShrinks(n: nat, size: nat)
    requires 0 < size
    ensures Span(Cut(n), size) <= Span(n, size)
    ensures Span(Cut(n), size) == Span(n, size) <==> n < 0x1_0000
  {
    if Cut(n) < n {
      SpanGrows(Cut(n), n - 1, size);
    }
  }

  /** `TotalRxBlockSize` */
  method BytesIn(n: nat, size: nat) returns (bytes: nat)
    ensures bytes == Span(n, size)
  {
    SpanIsProduct(n, size);
    bytes := n * size;
  }

  /**
   `acx100_init_memory_pools`: the Rx pool starts at the pool start rounded up. The two counts are kept in 16
   bits; the Tx pool lies right behind the Rx pool if and only if they do not overflow. Then the Tx pool stays
   inside if and only if rounding up costs no more than what the blocks leave over.
   */
  method InitMemoryPools(poolStart: nat, poolEnd: nat, size: nat) returns (p: Pools)
    requires poolStart <= poolEnd <= ADDRESS_LIMIT && 0 < size && size % 32 == 0
    ensures p.rxMem % 32 == 0 && p.txMem % 32 == 0
    ensures poolStart <= p.rxMem < poolStart + 32 && p.RxEnd(size) <= p.txMem
    ensures p.RxEnd(size) == p.txMem <==> poolEnd - poolStart < Span(MAX_BLOCKS, size)
    ensures poolEnd - poolStart < Span(MAX_BLOCKS, size) ==>
      && p.txBlocks <= p.rxBlocks <= p.txBlocks + 1
      && p.TxEnd(size) - p.rxMem == poolEnd - poolStart - Leftover(poolEnd - poolStart, size)
      && (p.TxEnd(size) <= poolEnd <==> RoundUp(poolStart) - poolStart <= Leftover(poolEnd - poolStart, size))
    ensures poolStart % 32 == 0 ==> p.rxMem == poolStart && p.TxEnd(size) <= poolEnd
  {
    var room := poolEnd - poolStart;
    var total := CountBlocks(room, size);
    var rxBlocks, txBlocks := SplitBlocks(total);
    var rxSize := BytesIn(rxBlocks, size);
    SpanAdds(rxBlocks, txBlocks, size);
    SpanAligned(rxBlocks, size);
    p := Pools(RoundUp(poolStart), Cut(rxBlocks), RoundUp(poolStart + rxSize), Cut(txBlocks));
    Placed(poolStart, poolEnd, Leftover(room, size), p.rxMem, p.txMem, rxSize, Span(txBlocks, size));
    CutShrinks(rxBlocks, size);
    CutShrinks(txBlocks, size);
  }

  /** Rounding up an unaligned pool start can push the Tx pool past the end of the pool. */
  method UnalignedStartOverruns() returns (poolEnd: nat, p: Pools)
    ensures 0x1001 <= poolEnd < p.TxEnd(256)
  {
    poolEnd := 0x1201;
    SpanIsProduct(MAX_BLOCKS, 256);
    p := InitMemoryPools(0x1001, poolEnd, 256);
    WholeAndRest(poolEnd - 0x1001, 256);
  }

  /** The Tx pool meets what the block allocator relies on just if the pools have two blocks or more. */
  lemma PoolServesAllocator(p: Pools, poolEnd: nat, size: nat, words: nat)
    requires p.txMem % 32 == 0 && 0 < p.txMem && 0 < size && size % 32 == 0
    requires p.txBlocks <= p.rxBlocks <= p.txBlocks + 1
    requires p.TxEnd(size) <= poolEnd <= ADDRESS_LIMIT && poolEnd <= 4 * words
    ensures Geometry(p.txMem, p.txBlocks, size).Ok(words) <==> 2 <= p.rxBlocks + p.txBlocks
  {
  }

  /** Words that `acx_create_desc_queues` clears at the queue indicator, in bytes. */
  const INDICATOR_SIZE: nat := 16

  lemma RoundUpNext(a: nat)
    requires a % 4 == 0 && a + 36 < 0x1_0000_0000
    ensures RoundUp(a + 4) == a - a % 32 + 32
  {
    var q, m := a / 32 * 32, a % 32;
    RoundUpAdds(m + 4, q);
    assert m <= 28;
  }

  lemma IndicatorRoom(queueStart: nat, queueEnd: nat)
    requires queueStart % 4 == 0 && queueEnd + 36 < 0x1_0000_0000
    ensures var indicator, rxMem := queueStart + 1600, RoundUp(queueEnd + 4);
            && (indicator + INDICATOR_SIZE <= queueEnd + 4 ==> indicator + INDICATOR_SIZE <= rxMem)
            && (queueEnd == indicator ==> (indicator + INDICATOR_SIZE <= rxMem <==> queueStart % 32 <= 16))
  {
    if queueEnd == queueStart + 1600 {
      RoundUpAdds(queueStart + 4, 1600);
      RoundUpNext(queueStart);
    }
  }

  /**
   The placements of `acx100_create_dma_regions`, with 16-bit counts that do not overflow: the Rx ring follows
   the Tx ring, and the two pools follow each other. The rings stay clear of the pools if and only if they end
   at the end of the queues that the card reports, rounded up, at the latest; the driver does not compare
   the two. Then the Tx ring and the Tx pool are laid out as the driver's transmit path relies on. The queue
   indicator lies right behind the rings; if the card reports the end of the queues just there, the four words
   that are cleared at the indicator stay clear of the Rx pool exactly for some starts of the queues.
   */
  method CreateDmaRegions(queueStart: nat, queueEnd: nat, poolEnd: nat, size: nat, ghost words: nat)
    returns (rxQueue: nat, indicator: nat, p: Pools)
    requires queueStart % 4 == 0 && 0 < size && size % 32 == 0
    requires queueEnd + 36 <= poolEnd <= ADDRESS_LIMIT && poolEnd <= 4 * words
    ensures rxQueue == DescAddr(queueStart, TX_CNT) && indicator == rxQueue + RX_CNT * RX_DESC_SIZE
    ensures queueEnd + 4 <= p.rxMem < queueEnd + 36 && p.rxMem % 32 == 0 && p.txMem % 32 == 0
    ensures indicator <= queueEnd ==> indicator < p.rxMem
    ensures indicator <= p.rxMem <==> indicator <= RoundUp(queueEnd + 4)
    ensures indicator + INDICATOR_SIZE <= queueEnd + 4 ==> indicator + INDICATOR_SIZE <= p.rxMem
    ensures queueEnd == indicator ==> (indicator + INDICATOR_SIZE <= p.rxMem <==> queueStart % 32 <= 16)
    ensures poolEnd < Span(MAX_BLOCKS, size) ==>
      && p.RxEnd(size) == p.txMem && p.TxEnd(size) <= poolEnd < p.TxEnd(size) + size
      && (Layout(Geometry(p.txMem, p.txBlocks, size), queueStart, words)
          <==> 2 <= p.rxBlocks + p.txBlocks && rxQueue <= p.txMem)
  {
    rxQueue := queueStart + TX_CNT * TX_DESC_SIZE;
    indicator := rxQueue + RX_CNT * RX_DESC_SIZE;
    var poolStart := RoundUp(queueEnd + 4);
    IndicatorRoom(queueStart, queueEnd);
    p := InitMemoryPools(poolStart, poolEnd, size);
    if poolEnd < Span(MAX_BLOCKS, size) {
      PoolServesAllocator(p, poolEnd, size, words);
    }
  }
}
