/**
 The transmit descriptor ring of a MEM device as it lies in the card's memory, together with the
 block chains that hang off its descriptors. Everything here is about memory contents as values; the
 class MemTxDevice keeps the invariant `Inv` through every operation.
 */
module TxRing {
  import opened Words
  import opened BlockChains
  import opened SlaveMemory
  import opened TxPool
  import opened TxProtocol

  /** sizeof(txacxdesc_t) of the ACX100, in words. */
  const DESC_WORDS: nat := 12
  /** Word offsets of pNextDesc, AcxMemPtr, total_length, and of Ctl_8/Ctl2_8/error/ack_failures. */
  const NEXT: nat := 0
  const PTR: nat := 2
  const LEN: nat := 4
  const CTL: nat := 9
  /** DESC_CTL_HOSTOWN, DESC_CTL_ACXDONE, DESC_CTL_FIRSTFRAG */
  const HOSTOWN: nat := 0x80
  const ACXDONE: nat := 0x40
  const FIRSTFRAG: nat := 0x02

  /** Word k of descriptor i. */
  function DescWord(base: nat, i: nat, k: nat): nat {
    base / 4 + DESC_WORDS * i + k
  }

  /** `acx_get_txacxdesc` */
  function DescAddr(base: nat, i: nat): nat {
    base + 4 * DESC_WORDS * i
  }

  predicate InSlot(base: nat, s: nat, i: nat) {
    DescWord(base, s, 0) <= i < DescWord(base, s + 1, 0)
  }

  predicate InBlocks(n: nat, bs: seq<nat>, i: nat) {
    exists k :: 0 <= k < |bs| && bs[k] / 4 <= i < bs[k] / 4 + n
  }

  /** The ring lies in front of the pool. */
  predicate Layout(g: Geometry, base: nat, words: nat) {
    g.Ok(words) && base % 4 == 0 && DescWord(base, TX_CNT, 0) <= g.start / 4
  }

  /** The descriptor d places behind the tail. */
  function Slot(tail: nat, d: nat): nat {
    (tail + d) % TX_CNT
  }

  /** `Ctl_8 & DESC_CTL_ACXDONE_HOSTOWN`, shifted down: 2 is HOSTOWN, 1 is ACXDONE. */
  function Owner(w: seq<Word>, base: nat, i: nat): nat
    requires DescWord(base, i, CTL) < |w|
  {
    Ctl8(w, base, i) / 64
  }

  function Ctl8(w: seq<Word>, base: nat, i: nat): Byte
    requires DescWord(base, i, CTL) < |w|
  {
    ByteOf(w[DescWord(base, i, CTL)], 0)
  }

  predicate HasSlots(w: seq<Word>, base: nat) {
    DescWord(base, TX_CNT, 0) <= |w|
  }

  /** Descriptor i is free for the driver and owns no blocks. */
  predicate Idle(w: seq<Word>, base: nat, i: nat)
    requires HasSlots(w, base) && i < TX_CNT
  {
    Owner(w, base, i) == 2 && w[DescWord(base, i, PTR)] == 0
  }

  /** Descriptor i carries the entry e: it points to the chain bs and gives the length of the frame. */
  predicate Occupied(w: seq<Word>, base: nat, i: nat, e: Entry, bs: seq<nat>)
    requires HasSlots(w, base) && i < TX_CNT
  {
    && bs != [] && w[DescWord(base, i, PTR)] == bs[0]
    && HalfOf(w[DescWord(base, i, LEN)], 0) == |e.frame.data|
    && match e.completion
       case Pending => Ctl8(w, base, i) == FIRSTFRAG
       case Done(st) =>
         && Owner(w, base, i) == 3
         && ByteOf(w[DescWord(base, i, CTL)], 2) == st.error
         && ByteOf(w[DescWord(base, i, CTL)], 3) == st.ackFailures
  }

  /** An idle descriptor, byte by byte: of HOSTOWN and ACXDONE it has just HOSTOWN set, and no AcxMemPtr. */
  lemma IdleBytes(w: seq<Word>, base: nat, i: nat)
    requires base % 4 == 0 && HasSlots(w, base) && i < TX_CNT && Idle(w, base, i)
    ensures 0x80 <= ByteAt(w, base + 48 * i + 0x24) < 0xc0
    ensures w[(base + 48 * i) / 4 + 2] == 0
  {
    DescByte(base, i, 0x24);
  }

  /**
   An occupied descriptor, byte by byte: AcxMemPtr, total_length and Ctl_8, which is just FIRSTFRAG until the
   card is done; then HOSTOWN and ACXDONE are set, and error and ack_failures are there.
   */
  lemma OccupiedBytes(w: seq<Word>, base: nat, i: nat, e: Entry, bs: seq<nat>)
    requires base % 4 == 0 && HasSlots(w, base) && i < TX_CNT && Occupied(w, base, i, e, bs)
    ensures var a := base + 48 * i;
            && w[a / 4 + 2] == bs[0]
            && ByteAt(w, a + 0x10) + 0x100 * ByteAt(w, a + 0x11) == |e.frame.data|
            && (e.completion.Pending? ==> ByteAt(w, a + 0x24) == 0x02)
            && (e.completion.Done? ==>
                  && 0xc0 <= ByteAt(w, a + 0x24) && ByteAt(w, a + 0x26) == e.completion.status.error
                  && ByteAt(w, a + 0x27) == e.completion.status.ackFailures)
  {
    DescByte(base, i, 0x10);
    DescByte(base, i, 0x11);
    DescByte(base, i, 0x24);
    DescByte(base, i, 0x26);
    DescByte(base, i, 0x27);
    HalfOfBytes(w[DescWord(base, i, LEN)], 0);
  }

  /** The pNextDesc words form one cycle through all descriptors. */
  predicate NextCycle(w: seq<Word>, base: nat)
    requires HasSlots(w, base)
  {
    forall i :: 0 <= i < TX_CNT ==> w[DescWord(base, i, NEXT)] == DescAddr(base, (i + 1) % TX_CNT)
  }

  /** Byte b of a frame lies in the chain where word b / 4 of the frame does. */
  predicate HoldsByte(w: seq<Word>, n: nat, bs: seq<nat>, data: seq<Byte>, b: nat)
    requires 2 <= n && b < |data|
  {
    && BlockIndex(n, b / 4) < |bs|
    && DataWord(n, bs, b / 4) < |w|
    && ByteOf(w[DataWord(n, bs, b / 4)], b % 4) == data[b]
  }

  /** The bytes of the frame lie in the data portions of the chain. */
  predicate HoldsFrame(w: seq<Word>, n: nat, bs: seq<nat>, data: seq<Byte>)
    requires 2 <= n
  {
    forall b :: 0 <= b < |data| ==> HoldsByte(w, n, bs, data, b)
  }

  /** A well-formed chain that holds the frame, in exactly the blocks needed for it. */
  predicate ChainHolds(g: Geometry, w: seq<Word>, bs: seq<nat>, data: seq<Byte>)
    requires g.Ok(|w|)
  {
    && |bs| == Needed(g.size, |data|)
    && Linked(w, g.N(), bs)
    && HoldsFrame(w, g.N(), bs, data)
  }

  function Owned(chains: seq<seq<nat>>): multiset<nat> {
    if chains == [] then multiset{} else multiset(chains[0]) + Owned(chains[1..])
  }

  /** Free list and chains together are all the blocks of the pool, each once. */
  predicate Partition(g: Geometry, l: seq<nat>, chains: seq<seq<nat>>) {
    multiset(l) + Owned(chains) == multiset(g.All())
  }

  /** The ring part of the invariant: descriptors from the tail on are occupied, the others idle. */
  predicate RingInv(w: seq<Word>, base: nat, tail: nat, flight: seq<Entry>, chains: seq<seq<nat>>) {
    && HasSlots(w, base) && NextCycle(w, base)
    && tail < TX_CNT && |flight| == |chains| <= TX_CNT
    && (forall d :: 0 <= d < |flight| ==> Occupied(w, base, Slot(tail, d), flight[d], chains[d]))
    && (forall d :: |flight| <= d < TX_CNT ==> Idle(w, base, Slot(tail, d)))
  }

  predicate ChainsInv(g: Geometry, w: seq<Word>, flight: seq<Entry>, chains: seq<seq<nat>>)
    requires g.Ok(|w|)
  {
    && |flight| == |chains|
    && forall d :: 0 <= d < |flight| ==> ChainHolds(g, w, chains[d], flight[d].frame.data)
  }

  /** The joint invariant of ring and pool. */
  predicate Inv(g: Geometry, base: nat, w: seq<Word>, tail: nat,
                flight: seq<Entry>, chains: seq<seq<nat>>, l: seq<nat>)
  {
    && Layout(g, base, |w|)
    && RingInv(w, base, tail, flight, chains)
    && ChainsInv(g, w, flight, chains)
    && Linked(w, g.N(), l)
    && Partition(g, l, chains)
  }

  // ---- Ownership of blocks ----

  lemma {:induction false} OwnedHas(chains: seq<seq<nat>>, d: nat)
    requires d < |chains|
    ensures multiset(chains[d]) <= Owned(chains)
  {
    if d == 0 {
    } else {
      OwnedHas(chains[1..], d - 1);
    }
  }

  lemma {:induction false} OwnedHasTwo(chains: seq<seq<nat>>, d: nat, e: nat)
    requires d < e < |chains|
    ensures multiset(chains[d]) + multiset(chains[e]) <= Owned(chains)
  {
    if d == 0 {
      OwnedHas(chains[1..], e - 1);
    } else {
      OwnedHasTwo(chains[1..], d - 1, e - 1);
    }
  }

  lemma {:induction false} OwnedOfAppend(chains: seq<seq<nat>>, c: seq<nat>)
    ensures Owned(chains + [c]) == Owned(chains) + multiset(c)
  {
    if chains == [] {
      assert chains + [c] == [c];
    } else {
      assert (chains + [c])[1..] == chains[1..] + [c];
      OwnedOfAppend(chains[1..], c);
    }
  }

  lemma {:induction false} CountTwice(s: seq<nat>, j: nat, k: nat)
    requires j < k < |s| && s[j] == s[k]
    ensures multiset(s)[s[j]] >= 2
  {
    assert s == s[..j] + [s[j]] + s[j + 1..k] + [s[k]] + s[k + 1..];
  }

  /** A list whose multiset is a part of the pool's blocks consists of different pool blocks. */
  lemma PartOfPool(g: Geometry, w: seq<Word>, s: seq<nat>)
    requires g.Ok(|w|) && multiset(s) <= multiset(g.All())
    ensures FromPool(g, s) && NoDuplicates(s) && Apart(g.N(), s) && AreBlocks(w, g.N(), s)
    ensures forall k :: 0 <= k < |s| ==> g.InRange(s[k]) && g.start <= s[k]
  {
    forall k | 0 <= k < |s|
      ensures s[k] in g.All()
    {
      assert s[k] in multiset(s);
    }
    AllDifferent(g, |w|);
    forall j, k | 0 <= j < k < |s|
      ensures s[j] != s[k]
    {
      if s[j] == s[k] {
        CountTwice(s, j, k);
        CountOnce(g.All(), s[j]);
      }
    }
    PoolBlocks(g, w, s);
  }

  lemma AllDifferent(g: Geometry, w: nat)
    requires g.Ok(w)
    ensures NoDuplicates(g.All())
  {
    forall j, k | 0 <= j < k < g.num
      ensures g.All()[j] != g.All()[k]
    {
      BlocksDisjoint(g, w, j, k);
    }
  }

  lemma {:induction false} CountOnce(s: seq<nat>, x: nat)
    requires NoDuplicates(s)
    ensures multiset(s)[x] <= 1
  {
    if s == [] {
    } else {
      assert s == [s[0]] + s[1..];
      CountOnce(s[1..], x);
      if s[0] == x {
        assert x !in s[1..];
        assert multiset(s[1..])[x] == 0;
      }
    }
  }

  // ---- What an operation on one descriptor and one chain leaves alone ----

  /** Outside descriptor s and the blocks of bs, and in the pNextDesc word of s, nothing has changed. */
  predicate SameExcept(w: seq<Word>, w': seq<Word>, base: nat, s: nat, n: nat, bs: seq<nat>) {
    && |w'| == |w|
    && (forall i :: 0 <= i < |w| && !InSlot(base, s, i) && !InBlocks(n, bs, i) ==> w'[i] == w[i])
    && (DescWord(base, s, NEXT) < |w| ==> w'[DescWord(base, s, NEXT)] == w[DescWord(base, s, NEXT)])
  }

  predicate NoneShared(a: seq<nat>, b: seq<nat>) {
    forall j, k :: 0 <= j < |a| && 0 <= k < |b| ==> a[j] != b[k]
  }

  lemma DescWordKept(g: Geometry, base: nat, w: seq<Word>, w': seq<Word>, s: nat, bs: seq<nat>, i: nat, k: nat)
    requires Layout(g, base, |w|) && s < TX_CNT && i < TX_CNT && k < DESC_WORDS && (i != s || k == NEXT)
    requires forall j :: 0 <= j < |bs| ==> g.start <= bs[j]
    requires SameExcept(w, w', base, s, g.N(), bs)
    ensures DescWord(base, i, k) < |w| && w'[DescWord(base, i, k)] == w[DescWord(base, i, k)]
  {
    DescBelowPool(g, base, |w|, i, k, bs);
    if i != s {
      assert !InSlot(base, s, DescWord(base, i, k));
    }
  }

  /** The descriptors lie in front of all blocks. */
  lemma DescBelowPool(g: Geometry, base: nat, words: nat, i: nat, k: nat, bs: seq<nat>)
    requires Layout(g, base, words) && i < TX_CNT && k < DESC_WORDS
    requires forall j :: 0 <= j < |bs| ==> g.start <= bs[j]
    ensures DescWord(base, i, k) < words && !InBlocks(g.N(), bs, DescWord(base, i, k))
  {
    assert DescWord(base, i, k) < DescWord(base, TX_CNT, 0) <= g.start / 4;
    assert g.start <= g.Block(g.num);
  }

  lemma SlotKept(g: Geometry, base: nat, w: seq<Word>, w': seq<Word>, s: nat, bs: seq<nat>, i: nat)
    requires Layout(g, base, |w|) && s < TX_CNT && i < TX_CNT && i != s && HasSlots(w, base)
    requires forall j :: 0 <= j < |bs| ==> g.start <= bs[j]
    requires SameExcept(w, w', base, s, g.N(), bs)
    ensures Idle(w, base, i) ==> Idle(w', base, i)
    ensures forall e, c :: Occupied(w, base, i, e, c) ==> Occupied(w', base, i, e, c)
  {
    DescWordKept(g, base, w, w', s, bs, i, PTR);
    DescWordKept(g, base, w, w', s, bs, i, LEN);
    DescWordKept(g, base, w, w', s, bs, i, CTL);
  }

  lemma NextCycleKept(g: Geometry, base: nat, w: seq<Word>, w': seq<Word>, s: nat, bs: seq<nat>)
    requires Layout(g, base, |w|) && s < TX_CNT && HasSlots(w, base) && NextCycle(w, base)
    requires forall j :: 0 <= j < |bs| ==> g.start <= bs[j]
    requires SameExcept(w, w', base, s, g.N(), bs)
    ensures NextCycle(w', base)
  {
    forall i | 0 <= i < TX_CNT
      ensures w'[DescWord(base, i, NEXT)] == DescAddr(base, (i + 1) % TX_CNT)
    {
      DescWordKept(g, base, w, w', s, bs, i, NEXT);
    }
  }

  /** Every word of a block that is not one of bs is kept. */
  lemma BlockKept(g: Geometry, base: nat, w: seq<Word>, w': seq<Word>, s: nat, bs: seq<nat>, b: nat)
    requires Layout(g, base, |w|) && s < TX_CNT
    requires FromPool(g, bs) && b in g.All() && b !in bs && g.start <= b
    requires SameExcept(w, w', base, s, g.N(), bs)
    ensures forall i :: b / 4 <= i < b / 4 + g.N() && i < |w| ==> w'[i] == w[i]
  {
    forall k | 0 <= k < |bs|
      ensures Disjoint(g.N(), b, bs[k]) || Disjoint(g.N(), bs[k], b)
    {
      TwoBlocks(g, |w|, b, bs[k]);
    }
    assert DescWord(base, s + 1, 0) <= DescWord(base, TX_CNT, 0) <= g.start / 4 <= b / 4;
  }

  lemma ListKept(g: Geometry, base: nat, w: seq<Word>, w': seq<Word>, s: nat, bs: seq<nat>, l: seq<nat>)
    requires Layout(g, base, |w|) && s < TX_CNT
    requires FromPool(g, bs) && FromPool(g, l) && NoneShared(l, bs) && Linked(w, g.N(), l)
    requires forall k :: 0 <= k < |l| ==> g.start <= l[k]
    requires SameExcept(w, w', base, s, g.N(), bs)
    ensures Linked(w', g.N(), l)
  {
    forall k | 0 <= k < |l|
      ensures w'[l[k] / 4] == w[l[k] / 4]
    {
      assert IsBlock(w, g.N(), l[k]);
      BlockKept(g, base, w, w', s, bs, l[k]);
    }
    LinkedFrame(w, w', g.N(), l);
  }

  /** A word of a frame lies inside its block. */
  lemma DataWordRange(n: nat, c: seq<nat>, j: nat)
    requires 2 <= n && BlockIndex(n, j) < |c|
    ensures var b := c[BlockIndex(n, j)]; b / 4 <= DataWord(n, c, j) < b / 4 + n
  {
  }

  lemma FrameKept(g: Geometry, base: nat, w: seq<Word>, w': seq<Word>, s: nat,
                  bs: seq<nat>, c: seq<nat>, data: seq<Byte>)
    requires Layout(g, base, |w|) && s < TX_CNT
    requires FromPool(g, bs) && FromPool(g, c) && NoneShared(c, bs) && HoldsFrame(w, g.N(), c, data)
    requires forall k :: 0 <= k < |c| ==> g.start <= c[k]
    requires SameExcept(w, w', base, s, g.N(), bs)
    ensures HoldsFrame(w', g.N(), c, data)
  {
    forall b | 0 <= b < |data|
      ensures HoldsByte(w', g.N(), c, data, b)
    {
      assert HoldsByte(w, g.N(), c, data, b);
      DataWordRange(g.N(), c, b / 4);
      BlockKept(g, base, w, w', s, bs, c[BlockIndex(g.N(), b / 4)]);
    }
  }

  lemma ChainKept(g: Geometry, base: nat, w: seq<Word>, w': seq<Word>, s: nat,
                  bs: seq<nat>, c: seq<nat>, data: seq<Byte>)
    requires Layout(g, base, |w|) && s < TX_CNT
    requires FromPool(g, bs) && FromPool(g, c) && NoneShared(c, bs) && ChainHolds(g, w, c, data)
    requires forall k :: 0 <= k < |c| ==> g.start <= c[k]
    requires SameExcept(w, w', base, s, g.N(), bs)
    ensures ChainHolds(g, w', c, data)
  {
    ListKept(g, base, w, w', s, bs, c);
    FrameKept(g, base, w, w', s, bs, c, data);
  }

  // ---- Consequences of the partition ----

  lemma PartsDiffer(a: seq<nat>, b: seq<nat>)
    requires NoDuplicates(a + b)
    ensures NoneShared(a, b)
  {
    forall j, k | 0 <= j < |a| && 0 <= k < |b|
      ensures a[j] != b[k]
    {
      assert (a + b)[j] == a[j] && (a + b)[|a| + k] == b[k];
    }
  }

  lemma ChainAndList(g: Geometry, w: seq<Word>, l: seq<nat>, chains: seq<seq<nat>>, d: nat)
    requires g.Ok(|w|) && Partition(g, l, chains) && d < |chains|
    ensures multiset(chains[d] + l) <= multiset(g.All())
    ensures FromPool(g, chains[d]) && FromPool(g, l) && NoneShared(chains[d], l)
    ensures Apart(g.N(), chains[d] + l) && Apart(g.N(), chains[d])
    ensures forall k :: 0 <= k < |chains[d]| ==> g.InRange(chains[d][k]) && g.start <= chains[d][k]
    ensures forall k :: 0 <= k < |l| ==> g.start <= l[k]
  {
    var c := chains[d];
    OwnedHas(chains, d);
    assert multiset(c + l) == multiset(c) + multiset(l);
    PartOfPool(g, w, c + l);
    PartOfPool(g, w, c);
    PartOfPool(g, w, l);
    PartsDiffer(c, l);
  }

  lemma TwoChains(g: Geometry, w: seq<Word>, l: seq<nat>, chains: seq<seq<nat>>, d: nat, e: nat)
    requires g.Ok(|w|) && Partition(g, l, chains) && d < |chains| && e < |chains| && d != e
    ensures NoneShared(chains[d], chains[e])
  {
    var (i, j) := if d < e then (d, e) else (e, d);
    OwnedHasTwo(chains, i, j);
    var both := chains[i] + chains[j];
    assert multiset(both) == multiset(chains[i]) + multiset(chains[j]);
    PartOfPool(g, w, both);
    PartsDiffer(chains[i], chains[j]);
  }

  lemma SlotsDiffer(tail: nat, d: nat, e: nat)
    requires tail < TX_CNT && d < TX_CNT && e < TX_CNT && d != e
    ensures Slot(tail, d) != Slot(tail, e)
  {
  }

  /** Head and tail coincide exactly if the ring is empty or full: the indices alone cannot tell which. */
  lemma HeadMeetsTail(tail: nat, used: nat)
    requires tail < TX_CNT && used <= TX_CNT
    ensures Slot(tail, used) == tail <==> used == 0 || used == TX_CNT
  {
  }

  /** Places behind the next tail are places behind this one. */
  lemma SlotShift(tail: nat, d: nat)
    requires tail < TX_CNT && d < TX_CNT
    ensures (tail + 1) % TX_CNT < TX_CNT
    ensures Slot((tail + 1) % TX_CNT, d) == if d + 1 < TX_CNT then Slot(tail, d + 1) else tail
    ensures Slot(tail, 0) == tail
  {
  }

  // ---- The steps ----

  /**
   Submitting a frame: the blocks c are cut off the free list l, filled with the frame, and hung into
   the descriptor at the head.
   */
  lemma SubmitKeepsRing(
      g: Geometry, base: nat, w: seq<Word>, tail: nat, flight: seq<Entry>, chains: seq<seq<nat>>,
      c: seq<nat>, w': seq<Word>, e: Entry)
    requires Layout(g, base, |w|) && RingInv(w, base, tail, flight, chains) && |flight| < TX_CNT
    requires forall k :: 0 <= k < |c| ==> g.start <= c[k]
    requires SameExcept(w, w', base, Slot(tail, |flight|), g.N(), c)
    requires Occupied(w', base, Slot(tail, |flight|), e, c)
    ensures RingInv(w', base, tail, flight + [e], chains + [c])
  {
    var s := Slot(tail, |flight|);
    NextCycleKept(g, base, w, w', s, c);
    var flight', chains' := flight + [e], chains + [c];
    forall d | 0 <= d < |flight'|
      ensures Occupied(w', base, Slot(tail, d), flight'[d], chains'[d])
    {
      if d < |flight| {
        SlotsDiffer(tail, d, |flight|);
        assert Occupied(w, base, Slot(tail, d), flight[d], chains[d]);
        SlotKept(g, base, w, w', s, c, Slot(tail, d));
      }
    }
    forall d | |flight'| <= d < TX_CNT
      ensures Idle(w', base, Slot(tail, d))
    {
      SlotsDiffer(tail, d, |flight|);
      SlotKept(g, base, w, w', s, c, Slot(tail, d));
    }
  }

  lemma SubmitKeepsChains(
      g: Geometry, base: nat, w: seq<Word>, flight: seq<Entry>, chains: seq<seq<nat>>, l: seq<nat>,
      c: seq<nat>, s: nat, w': seq<Word>, e: Entry)
    requires Layout(g, base, |w|) && s < TX_CNT
    requires ChainsInv(g, w, flight, chains) && Partition(g, l, chains) && c <= l
    requires SameExcept(w, w', base, s, g.N(), c)
    requires ChainHolds(g, w', c, e.frame.data)
    ensures ChainsInv(g, w', flight + [e], chains + [c])
  {
    var flight', chains' := flight + [e], chains + [c];
    forall d | 0 <= d < |flight'|
      ensures ChainHolds(g, w', chains'[d], flight'[d].frame.data)
    {
      if d < |flight| {
        assert ChainHolds(g, w, chains[d], flight[d].frame.data);
        ChainAndList(g, w, l, chains, d);
        assert forall k :: 0 <= k < |c| ==> c[k] == l[k];
        ChainKept(g, base, w, w', s, c, chains[d], flight[d].frame.data);
      }
    }
  }

  /** Blocks that move from the free list to a new chain are still all there, each once. */
  lemma CutKeepsPartition(g: Geometry, l: seq<nat>, chains: seq<seq<nat>>, k: nat)
    requires Partition(g, l, chains) && k <= |l|
    ensures Partition(g, l[k..], chains + [l[..k]])
  {
    OwnedOfAppend(chains, l[..k]);
    assert l == l[..k] + l[k..];
    assert multiset(l) == multiset(l[..k]) + multiset(l[k..]);
  }

  lemma SubmitKeeps(
      g: Geometry, base: nat, w: seq<Word>, tail: nat, flight: seq<Entry>, chains: seq<seq<nat>>, l: seq<nat>,
      k: nat, w': seq<Word>, e: Entry)
    requires Inv(g, base, w, tail, flight, chains, l) && |flight| < TX_CNT && k <= |l|
    requires SameExcept(w, w', base, Slot(tail, |flight|), g.N(), l[..k])
    requires Occupied(w', base, Slot(tail, |flight|), e, l[..k])
    requires ChainHolds(g, w', l[..k], e.frame.data) && Linked(w', g.N(), l[k..])
    ensures Inv(g, base, w', tail, flight + [e], chains + [l[..k]], l[k..])
  {
    var c := l[..k];
    PartOfPool(g, w, l);
    assert forall i :: 0 <= i < |c| ==> c[i] == l[i];
    SubmitKeepsRing(g, base, w, tail, flight, chains, c, w', e);
    SubmitKeepsChains(g, base, w, flight, chains, l, c, Slot(tail, |flight|), w', e);
    CutKeepsPartition(g, l, chains, k);
  }

  /** Cleaning the descriptor at the tail: its chain is spliced in front of the free list. */
  lemma SettleKeepsRing(
      g: Geometry, base: nat, w: seq<Word>, tail: nat, flight: seq<Entry>, chains: seq<seq<nat>>, w': seq<Word>)
    requires Layout(g, base, |w|) && RingInv(w, base, tail, flight, chains) && flight != []
    requires forall k :: 0 <= k < |chains[0]| ==> g.start <= chains[0][k]
    requires SameExcept(w, w', base, tail, g.N(), chains[0])
    requires Idle(w', base, tail)
    ensures RingInv(w', base, (tail + 1) % TX_CNT, flight[1..], chains[1..])
  {
    NextCycleKept(g, base, w, w', tail, chains[0]);
    var tail' := (tail + 1) % TX_CNT;
    forall d | 0 <= d < |flight[1..]|
      ensures Occupied(w', base, Slot(tail', d), flight[1..][d], chains[1..][d])
    {
      SlotShift(tail, d);
      assert Occupied(w, base, Slot(tail, d + 1), flight[d + 1], chains[d + 1]);
      SlotsDiffer(tail, 0, d + 1);
      SlotKept(g, base, w, w', tail, chains[0], Slot(tail, d + 1));
    }
    forall d | |flight[1..]| <= d < TX_CNT
      ensures Idle(w', base, Slot(tail', d))
    {
      SlotShift(tail, d);
      if d + 1 < TX_CNT {
        assert Idle(w, base, Slot(tail, d + 1));
        SlotsDiffer(tail, 0, d + 1);
        SlotKept(g, base, w, w', tail, chains[0], Slot(tail, d + 1));
      }
    }
  }

  lemma SettleKeepsChains(
      g: Geometry, base: nat, w: seq<Word>, s: nat,
      flight: seq<Entry>, chains: seq<seq<nat>>, l: seq<nat>, w': seq<Word>)
    requires Layout(g, base, |w|) && s < TX_CNT && flight != []
    requires ChainsInv(g, w, flight, chains) && Partition(g, l, chains)
    requires SameExcept(w, w', base, s, g.N(), chains[0])
    ensures ChainsInv(g, w', flight[1..], chains[1..])
  {
    ChainAndList(g, w, l, chains, 0);
    forall d | 0 <= d < |flight[1..]|
      ensures ChainHolds(g, w', chains[1..][d], flight[1..][d].frame.data)
    {
      assert ChainHolds(g, w, chains[d + 1], flight[d + 1].frame.data);
      ChainAndList(g, w, l, chains, d + 1);
      TwoChains(g, w, l, chains, d + 1, 0);
      ChainKept(g, base, w, w', s, chains[0], chains[d + 1], flight[d + 1].frame.data);
    }
  }

  lemma SettleKeeps(
      g: Geometry, base: nat, w: seq<Word>, tail: nat, flight: seq<Entry>, chains: seq<seq<nat>>, l: seq<nat>,
      w': seq<Word>)
    requires Inv(g, base, w, tail, flight, chains, l) && flight != []
    requires SameExcept(w, w', base, tail, g.N(), chains[0])
    requires Idle(w', base, tail) && Linked(w', g.N(), chains[0] + l)
    ensures Inv(g, base, w', (tail + 1) % TX_CNT, flight[1..], chains[1..], chains[0] + l)
  {
    assert forall k :: 0 <= k < |chains[0]| ==> g.start <= chains[0][k] by {
      ChainAndList(g, w, l, chains, 0);
    }
    SettleKeepsRing(g, base, w, tail, flight, chains, w');
    SettleKeepsChains(g, base, w, tail, flight, chains, l, w');
    assert multiset(chains[0] + l) == multiset(chains[0]) + multiset(l);
  }

  /** The card finishing the descriptor d places behind the tail. */
  lemma FinishKeeps(
      g: Geometry, base: nat, w: seq<Word>, tail: nat, flight: seq<Entry>, chains: seq<seq<nat>>, l: seq<nat>,
      d: nat, w': seq<Word>, e: Entry)
    requires Inv(g, base, w, tail, flight, chains, l) && d < |flight| && e.frame == flight[d].frame
    requires SameExcept(w, w', base, Slot(tail, d), g.N(), [])
    requires Occupied(w', base, Slot(tail, d), e, chains[d])
    ensures Inv(g, base, w', tail, flight[d := e], chains, l)
  {
    var s := Slot(tail, d);
    NextCycleKept(g, base, w, w', s, []);
    var flight' := flight[d := e];
    forall i | 0 <= i < |flight'|
      ensures Occupied(w', base, Slot(tail, i), flight'[i], chains[i])
    {
      if i != d {
        SlotsDiffer(tail, i, d);
        assert Occupied(w, base, Slot(tail, i), flight[i], chains[i]);
        SlotKept(g, base, w, w', s, [], Slot(tail, i));
      }
    }
    forall i | |flight'| <= i < TX_CNT
      ensures Idle(w', base, Slot(tail, i))
    {
      SlotsDiffer(tail, i, d);
      SlotKept(g, base, w, w', s, [], Slot(tail, i));
    }
    forall i | 0 <= i < |flight'|
      ensures ChainHolds(g, w', chains[i], flight'[i].frame.data)
    {
      assert ChainHolds(g, w, chains[i], flight[i].frame.data);
      ChainAndList(g, w, l, chains, i);
      ChainKept(g, base, w, w', s, [], chains[i], flight[i].frame.data);
    }
    PartOfPool(g, w, l);
    ListKept(g, base, w, w', s, [], l);
  }

  /** A store inside descriptor s, not to its pNextDesc. */
  lemma SlotStore(w: seq<Word>, w': seq<Word>, base: nat, s: nat, n: nat, bs: seq<nat>, k: nat, v: Word)
    requires SameExcept(w, w', base, s, n, bs) && 0 < k < DESC_WORDS && DescWord(base, s, k) < |w|
    ensures SameExcept(w, w'[DescWord(base, s, k) := v], base, s, n, bs)
  {
  }

  /** Byte off of descriptor s lies in its word off / 4. */
  lemma DescByte(base: nat, s: nat, off: nat)
    requires base % 4 == 0
    ensures (DescAddr(base, s) + off) / 4 == DescWord(base, s, off / 4)
    ensures (DescAddr(base, s) + off) % 4 == off % 4
    ensures DescAddr(base, s) == base + 48 * s
  {
  }

  /** A chain that carries the words of a buffer holds the frame at the start of the buffer. */
  lemma CarriesHolds(w: seq<Word>, n: nat, bs: seq<nat>, data: seq<Byte>, rest: seq<Byte>)
    requires 2 <= n && 4 * WordCount(|data|) <= |data + rest|
    requires AreBlocks(w, n, bs) && Fits(n, bs, WordCount(|data|))
    requires Carries(w, n, bs, WordsOf(data + rest, WordCount(|data|)))
    ensures HoldsFrame(w, n, bs, data)
  {
    var src := data + rest;
    var ws := WordsOf(src, WordCount(|data|));
    forall b | 0 <= b < |data|
      ensures HoldsByte(w, n, bs, data, b)
    {
      var j := b / 4;
      assert w[DataWord(n, bs, j)] == ws[j] == SourceWord(src, j);
      BytesPack(src[4 * j], src[4 * j + 1], src[4 * j + 2], src[4 * j + 3]);
      assert src[b] == data[b];
    }
  }

  /** Data word j of a chain. */
  function ChainWord(w: seq<Word>, n: nat, bs: seq<nat>, j: nat): Word
    requires 2 <= n && BlockIndex(n, j) < |bs|
  {
    if DataWord(n, bs, j) < |w| then w[DataWord(n, bs, j)] else 0
  }

  /** The first k data words of a chain. */
  function ChainWords(w: seq<Word>, n: nat, bs: seq<nat>, k: nat): (ws: seq<Word>)
    requires 2 <= n && Fits(n, bs, k)
    ensures |ws| == k
  {
    seq<Word>(k, j requires 0 <= j < k && BlockIndex(n, j) < |bs| => ChainWord(w, n, bs, j))
  }

  /** What lies in a chain that holds a frame begins with the frame. */
  lemma HoldsReadsBack(w: seq<Word>, n: nat, bs: seq<nat>, data: seq<Byte>)
    requires 2 <= n && AreBlocks(w, n, bs) && Fits(n, bs, WordCount(|data|)) && HoldsFrame(w, n, bs, data)
    ensures var ws := ChainWords(w, n, bs, WordCount(|data|));
            Carries(w, n, bs, ws) && BytesOf(ws)[..|data|] == data
  {
    var ws := ChainWords(w, n, bs, WordCount(|data|));
    forall j: nat | j < |ws|
      ensures DataWord(n, bs, j) < |w|
    {
      assert IsBlock(w, n, bs[BlockIndex(n, j)]);
    }
    forall b | 0 <= b < |data|
      ensures BytesOf(ws)[b] == data[b]
    {
      assert HoldsByte(w, n, bs, data, b);
      assert ws[b / 4] == w[DataWord(n, bs, b / 4)];
    }
  }

  lemma SameThen(w: seq<Word>, w1: seq<Word>, w2: seq<Word>, base: nat, s: nat, n: nat, bs: seq<nat>)
    requires SameExcept(w, w1, base, s, n, []) && SameExcept(w1, w2, base, s, n, bs)
    ensures SameExcept(w, w2, base, s, n, bs)
  {
  }

  /** The head index after one more descriptor is taken, and the places it is different from. */
  lemma HeadMoves(tail: nat, n: nat)
    requires tail < TX_CNT && n < TX_CNT
    ensures Slot(Slot(tail, n), 1) == Slot(tail, n + 1)
    ensures forall d :: 0 <= d < n ==> Slot(tail, d) != Slot(tail, n)
  {
  }

  /** The first k descriptors are idle and the ring is still linked. */
  predicate ResetUpTo(w: seq<Word>, base: nat, k: nat)
    requires k <= TX_CNT
  {
    HasSlots(w, base) && NextCycle(w, base) && forall i :: 0 <= i < k ==> Idle(w, base, i)
  }

  lemma ResetOneMore(g: Geometry, base: nat, w: seq<Word>, w': seq<Word>, i: nat)
    requires Layout(g, base, |w|) && i < TX_CNT && ResetUpTo(w, base, i)
    requires SameExcept(w, w', base, i, g.N(), []) && Idle(w', base, i)
    ensures ResetUpTo(w', base, i + 1)
  {
    NextCycleKept(g, base, w, w', i, []);
    forall j | 0 <= j < i
      ensures Idle(w', base, j)
    {
      SlotKept(g, base, w, w', i, [], j);
    }
  }

  /** A freshly linked pool behind a ring of idle descriptors: nothing is outstanding. */
  lemma EmptyRing(g: Geometry, base: nat, w: seq<Word>, w': seq<Word>, tail: nat, l: seq<nat>)
    requires Layout(g, base, |w|) && ResetUpTo(w, base, TX_CNT) && |w'| == |w| && tail < TX_CNT
    requires forall k :: 0 <= k < g.start / 4 && k < |w| ==> w'[k] == w[k]
    requires l == g.All() && Linked(w', g.N(), l)
    ensures Inv(g, base, w', tail, [], [], l)
  {
    forall i | 0 <= i < TX_CNT
      ensures Idle(w', base, i) && w'[DescWord(base, i, NEXT)] == DescAddr(base, (i + 1) % TX_CNT)
    {
      assert Idle(w, base, i);
      assert DescWord(base, i, CTL) < g.start / 4 && DescWord(base, i, PTR) < g.start / 4;
      assert DescWord(base, i, NEXT) < g.start / 4;
    }
    assert multiset(l) + Owned([]) == multiset(g.All());
  }

  /** The template for a cleaned descriptor behind its pNextDesc: Ctl_8 and the 1 Mbit rate are set. */
  function Template(): (t: seq<Byte>)
    ensures |t| == 4 * (DESC_WORDS - 1)
  {
    seq(4 * (DESC_WORDS - 1), i requires 0 <= i => TemplateByte(i))
  }

  function TemplateByte(i: nat): Byte {
    if i == 0x20 then 0x82 else if i == 0x26 then 0x0a else 0
  }

  lemma DescWordAddr(base: nat, s: nat, k: nat)
    requires base % 4 == 0
    ensures 4 * DescWord(base, s, k) == DescAddr(base, s) + 4 * k
  {
  }

  /** Words whose bytes a copy does not reach are kept. */
  lemma CopiedElsewhere(w: seq<Word>, w': seq<Word>, d: nat, src: seq<Byte>, i: nat)
    requires Copied(w, w', d, src) && i < |w| && (4 * i + 4 <= d || d + |src| <= 4 * i)
    ensures w'[i] == w[i]
  {
    forall k | 0 <= k < 4
      ensures ByteOf(w'[i], k) == ByteOf(w[i], k)
    {
      assert (4 * i + k) / 4 == i && (4 * i + k) % 4 == k;
      assert ByteAt(w', 4 * i + k) == ByteAt(w, 4 * i + k);
    }
    PackBytes(w'[i]);
    PackBytes(w[i]);
  }

  lemma CopiedThere(w: seq<Word>, w': seq<Word>, d: nat, src: seq<Byte>, i: nat, k: nat)
    requires Copied(w, w', d, src) && i < |w| && k < 4 && d <= 4 * i + k < d + |src|
    ensures ByteOf(w'[i], k) == src[4 * i + k - d]
  {
    assert (4 * i + k) / 4 == i && (4 * i + k) % 4 == k;
    assert ByteAt(w', 4 * i + k) == src[4 * i + k - d];
  }

  lemma TemplateFrame(base: nat, w: seq<Word>, w': seq<Word>, s: nat, n: nat)
    requires base % 4 == 0 && Copied(w, w', DescAddr(base, s) + 4, Template())
    ensures SameExcept(w, w', base, s, n, [])
  {
    var next := DescWord(base, s, NEXT);
    DescWordAddr(base, s, NEXT);
    forall i | 0 <= i < |w| && (i <= next || next + DESC_WORDS <= i)
      ensures w'[i] == w[i]
    {
      CopiedElsewhere(w, w', DescAddr(base, s) + 4, Template(), i);
    }
  }

  lemma TemplateIdle(base: nat, w: seq<Word>, w': seq<Word>, s: nat)
    requires base % 4 == 0 && HasSlots(w, base) && s < TX_CNT
    requires Copied(w, w', DescAddr(base, s) + 4, Template())
    ensures HasSlots(w', base) && Idle(w', base, s)
  {
    var d := DescAddr(base, s) + 4;
    var ctl, ptr := DescWord(base, s, CTL), DescWord(base, s, PTR);
    DescWordAddr(base, s, CTL);
    DescWordAddr(base, s, PTR);
    CopiedThere(w, w', d, Template(), ctl, 0);
    forall k | 0 <= k < 4
      ensures ByteOf(w'[ptr], k) == 0
    {
      CopiedThere(w, w', d, Template(), ptr, k);
    }
    PackBytes(w'[ptr]);
  }

  /**
   Copying the template over a descriptor from HostMemPtr on leaves it idle, keeps its pNextDesc word
   and changes no other descriptor.
   */
  lemma TemplateCopied(g: Geometry, base: nat, w: seq<Word>, w': seq<Word>, s: nat)
    requires Layout(g, base, |w|) && HasSlots(w, base) && s < TX_CNT
    requires Copied(w, w', DescAddr(base, s) + 4, Template())
    ensures HasSlots(w', base) && Idle(w', base, s) && SameExcept(w, w', base, s, g.N(), [])
  {
    TemplateFrame(base, w, w', s, g.N());
    TemplateIdle(base, w, w', s);
  }

  /** Splicing a chain changes a word of one of its blocks only. */
  lemma SpliceKept(g: Geometry, base: nat, w: seq<Word>, w': seq<Word>, s: nat, c: seq<nat>, l: seq<nat>)
    requires Layout(g, base, |w|) && s < TX_CNT && c != [] && (forall k :: 0 <= k < |c| ==> g.start <= c[k])
    requires c[|c| - 1] / 4 < |w| && Head(l) < ADDRESS_LIMIT && w' == SpliceMemory(w, c, l)
    ensures SameExcept(w, w', base, s, g.N(), c)
  {
    var last := c[|c| - 1];
    assert InBlocks(g.N(), c, last / 4);
    assert DescWord(base, s, NEXT) < DescWord(base, TX_CNT, 0) <= g.start / 4 <= last / 4;
  }

  lemma SpliceThenReset(w: seq<Word>, w1: seq<Word>, w2: seq<Word>, base: nat, s: nat, n: nat, bs: seq<nat>)
    requires SameExcept(w, w1, base, s, n, bs) && SameExcept(w1, w2, base, s, n, [])
    ensures SameExcept(w, w2, base, s, n, bs)
  {
  }

  // ---- Setup ----

  /** Words i up to the end of the ring have been cleared, and nothing outside the ring has changed. */
  predicate ClearedUpTo(w0: seq<Word>, w: seq<Word>, base: nat, i: nat) {
    && |w| == |w0| && HasSlots(w, base)
    && (forall k :: DescWord(base, 0, 0) <= k < i && k < |w| ==> w[k] == 0)
    && (forall k :: 0 <= k < |w| && !(DescWord(base, 0, 0) <= k < DescWord(base, TX_CNT, 0)) ==> w[k] == w0[k])
  }

  /** Descriptor j is idle and links to the address behind it. */
  predicate Built(w: seq<Word>, base: nat, j: nat)
    requires HasSlots(w, base) && j < TX_CNT
  {
    Idle(w, base, j) && Ctl8(w, base, j) == 0x82 && w[DescWord(base, j, NEXT)] == DescAddr(base, j + 1)
  }

  /** The first i descriptors are built; the others own no blocks. */
  predicate BuiltUpTo(w0: seq<Word>, w: seq<Word>, base: nat, i: nat)
    requires i <= TX_CNT
  {
    && |w| == |w0| && HasSlots(w, base)
    && (forall j :: 0 <= j < i ==> Built(w, base, j))
    && (forall j :: i <= j < TX_CNT ==> w[DescWord(base, j, PTR)] == 0)
    && (forall k :: 0 <= k < |w| && !(DescWord(base, 0, 0) <= k < DescWord(base, TX_CNT, 0)) ==> w[k] == w0[k])
  }

  lemma ClearedIsUnbuilt(w0: seq<Word>, w: seq<Word>, base: nat)
    requires ClearedUpTo(w0, w, base, DescWord(base, TX_CNT, 0))
    ensures BuiltUpTo(w0, w, base, 0)
  {
  }

  lemma BuildNext(w0: seq<Word>, w: seq<Word>, base: nat, i: nat)
    requires i < TX_CNT && BuiltUpTo(w0, w, base, i) && DescAddr(base, i + 1) < 0x1_0000_0000
    ensures var c, n := DescWord(base, i, CTL), DescWord(base, i, NEXT);
            BuiltUpTo(w0, w[c := SetByte(w[c], 0, HOSTOWN + FIRSTFRAG)][n := DescAddr(base, i + 1)], base, i + 1)
  {
    var c, n := DescWord(base, i, CTL), DescWord(base, i, NEXT);
    var w' := w[c := SetByte(w[c], 0, HOSTOWN + FIRSTFRAG)][n := DescAddr(base, i + 1)];
    SetByteBytes(w[c], 0, HOSTOWN + FIRSTFRAG);
    forall j | 0 <= j < i + 1
      ensures Built(w', base, j)
    {
      if j < i {
        assert Built(w, base, j);
      }
    }
  }

  /** Pointing the last descriptor to the first makes the ring. */
  lemma CloseRing(w0: seq<Word>, w: seq<Word>, base: nat)
    requires BuiltUpTo(w0, w, base, TX_CNT) && base < 0x1_0000_0000
    ensures var w' := w[DescWord(base, TX_CNT - 1, NEXT) := base];
            ResetUpTo(w', base, TX_CNT) && forall i :: 0 <= i < TX_CNT ==> Ctl8(w', base, i) == 0x82
  {
    var w' := w[DescWord(base, TX_CNT - 1, NEXT) := base];
    forall i | 0 <= i < TX_CNT
      ensures Idle(w', base, i) && Ctl8(w', base, i) == 0x82
      ensures w'[DescWord(base, i, NEXT)] == DescAddr(base, (i + 1) % TX_CNT)
    {
      assert Built(w, base, i);
    }
  }

  // ---- Addresses and indices ----

  /** `acx_get_txhostdesc`: the host descriptor pair of a descriptor address, if it is one. */
  function HostDesc(base: nat, addr: nat): (r: int) {
    var offset := addr - base;
    if offset < 0 || offset % (4 * DESC_WORDS) != 0 || offset / (4 * DESC_WORDS) >= TX_CNT then -1
    else offset / (4 * DESC_WORDS) * 2
  }

  /** Looking up the host descriptor inverts the address computation, and rejects every other address. */
  lemma HostDescInverts(base: nat, addr: nat, i: nat)
    requires i < TX_CNT
    ensures HostDesc(base, addr) == 2 * i <==> addr == DescAddr(base, i)
    ensures HostDesc(base, addr) == -1 || (exists j :: 0 <= j < TX_CNT && addr == DescAddr(base, j))
  {
    if HostDesc(base, addr) != -1 {
      assert addr == DescAddr(base, (addr - base) / 48);
    }
  }

  /** Following pNextDesc k times from descriptor i. */
  function FollowNext(w: seq<Word>, base: nat, addr: nat, k: nat): nat {
    if k == 0 then addr
    else
      var a := FollowNext(w, base, addr, k - 1);
      if a / 4 < |w| then w[a / 4] else 0
  }

  lemma NextIndex(m: nat)
    ensures (m % TX_CNT + 1) % TX_CNT == (m + 1) % TX_CNT
  {
  }

  /** The links form one cycle through all descriptors that agrees with the driver's indexing. */
  lemma {:induction false} NextIsCycle(w: seq<Word>, base: nat, i: nat, k: nat)
    requires base % 4 == 0 && HasSlots(w, base) && NextCycle(w, base) && i < TX_CNT
    ensures FollowNext(w, base, DescAddr(base, i), k) == DescAddr(base, (i + k) % TX_CNT)
  {
    if k == 0 {
    } else {
      NextIsCycle(w, base, i, k - 1);
      var j := (i + (k - 1)) % TX_CNT;
      NextIndex(i + (k - 1));
      DescByte(base, j, 0);
      assert w[DescWord(base, j, NEXT)] == DescAddr(base, (j + 1) % TX_CNT);
    }
  }
}
