/**
 Multiples of a block size, counted up block by block so that proofs about them stay linear; SpanIsProduct
 and WholeAndRest tie them to multiplication, division and remainder.
 */
module Multiples {

  /** Bytes in n blocks: n * size. */
  function Span(n: nat, size: nat): nat {
    if n == 0 then 0 else Span(n - 1, size) + size
  }

  /** What whole blocks leave over of room: room % size. */
  function Leftover(room: nat, size: nat): (r: nat)
    requires 0 < size
    ensures r < size
  {
    if room < size then room else Leftover(room - size, size)
  }

  lemma {:induction false} SpanIsProduct(n: nat, size: nat)
    ensures Span(n, size) == n * size
  {
    if n == 0 {
    } else {
      SpanIsProduct(n - 1, size);
    }
  }

  lemma {:induction false} SpanAdds(n: nat, m: nat, size: nat)
    ensures Span(n + m, size) == Span(n, size) + Span(m, size)
  {
    if m == 0 {
    } else {
      SpanAdds(n, m - 1, size);
    }
  }

  lemma {:induction false} SpanGrows(n: nat, m: nat, size: nat)
    requires n <= m
    ensures Span(n, size) <= Span(m, size)
  {
    if n == m {
    } else {
      SpanGrows(n, m - 1, size);
    }
  }

  lemma {:induction false} SpanAligned(n: nat, size: nat)
    requires size % 32 == 0
    ensures Span(n, size) % 32 == 0
  {
    if n == 0 {
    } else {
      SpanAligned(n - 1, size);
    }
  }

  lemma {:induction false} LeftoverOf(n: nat, r: nat, size: nat)
    requires r < size
    ensures Leftover(Span(n, size) + r, size) == r
  {
    if n == 0 {
    } else {
      LeftoverOf(n - 1, r, size);
    }
  }

  /** Division splits room into whole blocks and what is left over. */
  lemma WholeAndRest(room: nat, size: nat)
    requires 0 < size
    ensures Span(room / size, size) + Leftover(room, size) == room && Leftover(room, size) == room % size
  {
    var n, r := room / size, room % size;
    assert room == n * size + r;
    SpanIsProduct(n, size);
    LeftoverOf(n, r, size);
  }
}
