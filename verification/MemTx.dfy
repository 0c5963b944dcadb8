/**
 The transmit path of a MEM device (mem.c, merge.c, tx.c, main.c): every method works on the card's
 memory and the host's ring indices the way the driver does, and is proved to do one step of the
 protocol in TxProtocol while keeping the joint invariant of ring and block pool.
 */
module MemTx {
  import opened Words
  import opened BlockChains
  import opened SlaveMemory
  import opened TxPool
  import opened TxProtocol
  import opened TxRing
  import opened TxTheorems

  datatype Skb = NoSkb | Skb(frame: Frame)

  /** What mac80211 hands over: not empty, and not longer than the transmit buffers. */
  predicate FrameOk(f: Frame) {
    0 < |f.data| <= MAX_FRAME
  }

  /**
   Allocates the blocks for a frame and copies it into their data portions. `rest` is what the host's
   transmit buffer holds behind the frame; the copy is rounded up to whole words.
   */
  method StoreFrame(pool: TxBufPool, data: seq<Byte>, rest: seq<Byte>) returns (addr: nat)
    requires pool.Valid() && 0 < |data| <= MAX_FRAME && 3 <= |rest|
    requires Needed(pool.g.size, |data|) <= |pool.freeList|
    modifies pool, pool.mem, pool.mem.words
    ensures pool.Valid()
    ensures var k := Needed(pool.g.size, |data|);
            && 0 < k && addr == old(pool.freeList)[0] && addr != 0
            && pool.freeList == old(pool.freeList)[k..]
            && ChainHolds(pool.g, pool.mem.words[..], old(pool.freeList)[..k], data)
    ensures var c := old(pool.freeList)[..Needed(pool.g.size, |data|)];
            forall i :: 0 <= i < pool.mem.words.Length && !InBlocks(pool.g.N(), c, i) ==>
              pool.mem.words[i] == old(pool.mem.words[i])
  {
    ghost var g, l := pool.g, pool.freeList;
    ghost var k := Needed(g.size, |data|);
    ghost var c := l[..k];
    NeededPositive(g.size, |data|);
    Parts(g, l, k);
    addr := pool.Allocate(|data|);
    NeededHolds(g, pool.mem.words.Length, c, |data|);
    ghost var w1 := pool.mem.words[..];
    pool.mem.ChainCopyTo(addr, data + rest, |data|, c);
    CopyKeepsList(g, w1, pool.mem.words[..], c, l[k..], l);
    CarriesHolds(pool.mem.words[..], g.N(), c, data, rest);
    assert IsBlock(w1, g.N(), c[0]);
  }

  /** Reads a frame of len bytes back out of its chain, rounded up to whole words. */
  method FetchFrame(pool: TxBufPool, addr: nat, len: nat, buffer: array<Byte>, ghost c: seq<nat>, ghost data: seq<Byte>)
    requires pool.Configured() && ChainHolds(pool.g, pool.mem.words[..], c, data) && Apart(pool.g.N(), c)
    requires len == |data| && c != [] && addr == c[0] && 4 * WordCount(len) <= buffer.Length
    modifies pool.mem, buffer
    ensures buffer[..len] == data
  {
    ghost var w, n := pool.mem.words[..], pool.g.N();
    NeededHolds(pool.g, |w|, c, len);
    HoldsReadsBack(w, n, c, data);
    ghost var ws := ChainWords(w, n, c, WordCount(len));
    pool.mem.ChainCopyFrom(buffer, addr, len, c, ws);
    assert buffer[..len] == buffer[..4 * |ws|][..len];
  }

  /** A frame that goes into the pool comes out byte for byte, however its blocks are scattered. */
  method StoreThenFetch(pool: TxBufPool, data: seq<Byte>, rest: seq<Byte>, buffer: array<Byte>)
    requires pool.Valid() && 0 < |data| <= MAX_FRAME && 3 <= |rest|
    requires Needed(pool.g.size, |data|) <= |pool.freeList| && 4 * WordCount(|data|) <= buffer.Length
    modifies pool, pool.mem, pool.mem.words, buffer
    ensures pool.Valid() && buffer[..|data|] == data
  {
    ghost var l := pool.freeList;
    ghost var c := l[..Needed(pool.g.size, |data|)];
    var addr := StoreFrame(pool, data, rest);
    FetchFrame(pool, addr, |data|, buffer, c, data);
  }

  /** Writing into the blocks of a chain leaves the rest of the free list linked. */
  lemma CopyKeepsList(g: Geometry, w: seq<Word>, w': seq<Word>, c: seq<nat>, l': seq<nat>, l: seq<nat>)
    requires g.Ok(|w|) && |w| == |w'| && l == c + l' && Apart(g.N(), l) && Linked(w, g.N(), l')
    requires forall i :: 0 <= i < |w| && !InData(g.N(), c, i) ==> w'[i] == w[i]
    ensures Linked(w', g.N(), l')
  {
    forall k | 0 <= k < |l'|
      ensures w'[l'[k] / 4] == w[l'[k] / 4]
    {
      assert IsBlock(w, g.N(), l'[k]);
      forall j | 0 <= j < |c|
        ensures Disjoint(g.N(), c[j], l'[k])
      {
        assert l[j] == c[j] && l[|c| + k] == l'[k];
      }
      LinkNotInData(g.N(), c, l'[k]);
    }
    LinkedFrame(w, w', g.N(), l');
  }

  /** `SET_BIT(Ctl_8, DESC_CTL_FIRSTFRAG)` */
  function WithFirstFrag(ctl8: nat): (r: nat)
    ensures r / 2 % 2 == 1 && (r == ctl8 || r == ctl8 + 2)
  {
    if ctl8 / FIRSTFRAG % 2 == 0 then ctl8 + FIRSTFRAG else ctl8
  }

  /** `CLEAR_BIT(Ctl_8, DESC_CTL_ACXDONE_HOSTOWN)` */
  function ForCard(ctl8: nat): (r: nat)
    requires ctl8 < 0x100
    ensures r < 0x40 && ctl8 - r in {0, 0x40, 0x80, 0xc0}
  {
    ctl8 % 64
  }

  /** Whatever a transmit buffer holds behind the frame. */
  method StaleBytes() returns (rest: seq<Byte>)
    ensures 3 <= |rest|
  {
    var some: seq<Byte> := *;
    rest := some + [0, 0, 0];
  }

  /** What a successful transmission does to the protocol state of a MEM device. */
  lemma SentBy(c: Config, p: Pipe, f: Frame)
    requires WellFormed(c, p) && c.isMem && |p.flight[0]| < TX_CNT && Needed(c.blockSize, |f.data|) <= p.blocksFree
    requires !c.encrypt
    ensures TxProtocol.TxFrame(c, p, f) ==
      (p.(flight := [p.flight[0] + [Entry(f, Pending)]],
          blocksFree := p.blocksFree - Needed(c.blockSize, |f.data|)), true)
  {
    var es := p.flight[0] + [Entry(f, Pending)];
    assert p.flight[0 := es] == [es];
  }

  /** What a failed transmission does to the protocol state of a MEM device: on a full ring, and without room. */
  lemma BusyBy(c: Config, p: Pipe, f: Frame)
    requires WellFormed(c, p) && c.isMem && !c.encrypt
    ensures |p.flight[0]| == TX_CNT ==>
      TxProtocol.TxFrame(c, p, f) ==
        (if p.attempts < WAKE_ATTEMPTS then p.(attempts := p.attempts + 1) else Emergency(c, p.(attempts := 0)), false)
    ensures |p.flight[0]| < TX_CNT && Needed(c.blockSize, |f.data|) > p.blocksFree ==>
      TxProtocol.TxFrame(c, p, f) == (p.(stopped := true), false)
  {
  }

  /** What cleaning the tail does to the protocol state of a MEM device. */
  lemma SettledBy(c: Config, p: Pipe)
    requires WellFormed(c, p) && c.isMem && TailDone(c, p, 0)
    ensures var e := p.flight[0][0];
            SettleTail(c, p, 0) ==
              p.(flight := [p.flight[0][1..]],
                 settled := [p.settled[0] + [ReportOf(e.frame, e.completion.status)]],
                 blocksFree := p.blocksFree + Needed(c.blockSize, |e.frame.data|))
  {
    var e := p.flight[0][0];
    var es, os := p.flight[0][1..], p.settled[0] + [ReportOf(e.frame, e.completion.status)];
    assert p.flight[0 := es] == [es] && p.settled[0 := os] == [os];
  }

  /** What a completion does to the protocol state of a MEM device. */
  lemma FinishedBy(c: Config, p: Pipe, d: nat, status: TxStatus)
    requires WellFormed(c, p) && c.isMem && d < |p.flight[0]| && p.flight[0][d].completion.Pending?
    ensures Happen(c, p, Completed(0, d, status)) ==
      p.(flight := [p.flight[0][d := p.flight[0][d].(completion := Done(status))]])
  {
    var es := p.flight[0][d := p.flight[0][d].(completion := Done(status))];
    assert p.flight[0 := es] == [es];
  }

  /** What the emergency clean does to the protocol state of a MEM device. */
  lemma EmergencyBy(c: Config, p: Pipe)
    requires WellFormed(c, p) && c.isMem
    ensures var r := Emergency(c, p);
            r.flight == [[]] && r.blocksFree == c.blocks && r.waiting == p.waiting && r.attempts == p.attempts
            && r.stopped == p.stopped && r.scheduled == p.scheduled
  {
    assert p.flight[0 := []] == [[]];
  }

  /** The head index, counted from the next tail. */
  lemma HeadShift(t: nat, n: nat)
    requires t < TX_CNT && 0 < n < TX_CNT
    ensures Slot((t + 1) % TX_CNT, n - 1) == Slot(t, n)
  {
  }

  /** The host descriptors of the outstanding entries point to their frames. */
  predicate SkbsOf(skbs: seq<Skb>, t: nat, flight: seq<Entry>) {
    && |skbs| == TX_CNT && |flight| <= TX_CNT
    && forall d :: 0 <= d < |flight| ==> skbs[Slot(t, d)] == Skb(flight[d].frame)
  }

  lemma SkbAdded(skbs: seq<Skb>, t: nat, flight: seq<Entry>, f: Frame)
    requires SkbsOf(skbs, t, flight) && |flight| < TX_CNT && t < TX_CNT
    ensures SkbsOf(skbs[Slot(t, |flight|) := Skb(f)], t, flight + [Entry(f, Pending)])
  {
    HeadMoves(t, |flight|);
  }

  lemma SkbTaken(skbs: seq<Skb>, t: nat, flight: seq<Entry>)
    requires SkbsOf(skbs, t, flight) && flight != [] && t < TX_CNT
    ensures skbs[t] == Skb(flight[0].frame)
    ensures SkbsOf(skbs, (t + 1) % TX_CNT, flight[1..])
  {
    SlotShift(t, 0);
    forall d | 0 <= d < |flight[1..]|
      ensures skbs[Slot((t + 1) % TX_CNT, d)] == Skb(flight[1..][d].frame)
    {
      SlotShift(t, d);
      assert skbs[Slot(t, d + 1)] == Skb(flight[d + 1].frame);
    }
  }

  class MemTxDevice {
    const mem: SlaveMem
    const pool: TxBufPool
    /** Address of the descriptor ring in the card's memory. */
    const base: nat
    /** hostdesc[2i].skb */
    const skb: array<Skb>
    /** Whether mac80211 keeps quiet while its queues are stopped. */
    const polite: bool
    var head: nat
    var tail: nat
    var free: nat
    /** txattempts */
    var attempts: nat
    var txQueue: seq<Frame>
    /** Whether the mac80211 queues are stopped, and whether tx_work is scheduled. */
    var stopped: bool
    var scheduled: bool
    /** The protocol state, and the block chain of every outstanding descriptor. */
    ghost var p: Pipe
    ghost var chains: seq<seq<nat>>

    constructor (mem: SlaveMem, pool: TxBufPool, base: nat, skb: array<Skb>, polite: bool)
      ensures this.mem == mem && this.pool == pool && this.base == base && this.skb == skb && this.polite == polite
    {
      this.mem, this.pool, this.base, this.skb, this.polite := mem, pool, base, skb, polite;
      head, tail, free, attempts := 0, 0, 0, 0;
      txQueue, stopped, scheduled := [], false, false;
      p, chains := Pipe([], [], [], [], 0, 0, false, false), [];
    }

    ghost function Cfg(): (c: Config)
      ensures 4 < pool.g.size ==> c.Ok()
    {
      Config(true, 1, false, pool.g.size, pool.g.num, polite)
    }

    /** The outstanding entries, from the tail on. */
    ghost function Flight(): seq<Entry>
      requires |p.flight| == 1
      reads this
    {
      p.flight[0]
    }

    /** The driver's own variables agree with the protocol state, for the tail index t. */
    ghost predicate HostInv(t: nat)
      requires |p.flight| == 1
      reads this, skb
    {
      && t < TX_CNT && |Flight()| <= TX_CNT
      && head == Slot(t, |Flight()|) && free == TX_CNT - |Flight()|
      && txQueue == p.waiting && attempts == p.attempts
      && stopped == p.stopped && scheduled == p.scheduled
      && (forall i :: 0 <= i < |txQueue| ==> FrameOk(txQueue[i]))
      && SkbsOf(skb[..], t, Flight())
    }

    /** The device is consistent if the ring starts at t. */
    ghost predicate ValidAt(t: nat)
      reads this, pool, mem.words, skb
    {
      && pool.mem == mem && pool.Valid()
      && WellFormed(Cfg(), p) && p.blocksFree == pool.blocksFree
      && HostInv(t)
      && Inv(pool.g, base, mem.words[..], t, Flight(), chains, pool.freeList)
    }

    ghost predicate Valid()
      reads this, pool, mem.words, skb
    {
      ValidAt(tail)
    }

    /** A store to a descriptor of the ring keeps the free list of the pool. */
    lemma PoolKept(w: seq<Word>, w': seq<Word>, s: nat)
      requires pool.g.Ok(|w|) && Layout(pool.g, base, |w|) && s < TX_CNT
      requires FromPool(pool.g, pool.freeList) && Apart(pool.g.N(), pool.freeList)
      requires Linked(w, pool.g.N(), pool.freeList)
      requires SameExcept(w, w', base, s, pool.g.N(), [])
      ensures Linked(w', pool.g.N(), pool.freeList)
    {
      forall k | 0 <= k < |pool.freeList|
        ensures pool.g.start <= pool.freeList[k]
      {
        assert pool.freeList[k] in pool.g.All();
        var i :| 0 <= i < |pool.g.All()| && pool.freeList[k] == pool.g.All()[i];
        BlockOk(pool.g, w, i);
      }
      ListKept(pool.g, base, w, w', s, [], pool.freeList);
    }

    /** The ring and the pool lie in the card's memory, and slot is one of the descriptors. */
    ghost predicate SlotOk(slot: nat)
      reads this, pool, mem.words
    {
      && pool.mem == mem && pool.Valid() && slot < TX_CNT
      && Layout(pool.g, base, mem.words.Length) && HasSlots(mem.words[..], base)
    }

    /** A byte store into descriptor slot, not to its pNextDesc word. */
    method StoreDesc8(slot: nat, off: nat, val: Byte, ghost w0: seq<Word>, ghost c: seq<nat>)
      requires SlotOk(slot) && 4 <= off < 4 * DESC_WORDS
      requires SameExcept(w0, mem.words[..], base, slot, pool.g.N(), c)
      modifies mem, mem.words
      ensures SlotOk(slot)
      ensures var k := DescWord(base, slot, off / 4);
              mem.words[..] == old(mem.words[..])[k := SetByte(old(mem.words[k]), off % 4, val)]
      ensures SameExcept(w0, mem.words[..], base, slot, pool.g.N(), c)
    {
      ghost var w := mem.words[..];
      ghost var k := DescWord(base, slot, off / 4);
      DescByte(base, slot, off);
      SlotStore(w, w, base, slot, pool.g.N(), [], off / 4, SetByte(w[k], off % 4, val));
      PoolKept(w, w[k := SetByte(w[k], off % 4, val)], slot);
      SlotStore(w0, w, base, slot, pool.g.N(), c, off / 4, SetByte(w[k], off % 4, val));
      mem.Write8(DescAddr(base, slot) + off, val);
    }

    /**
     The end of `acxmem_alloc_tx`: takes the descriptor at the head, if the driver owns it and the card has
     not marked it done; else nothing changes. Under the invariant the descriptor at the head always is idle.
     */
    method ClaimDescriptor() returns (ok: bool, slot: nat)
      requires SlotOk(head) && free > 0
      modifies this`head, this`free, mem, mem.words
      ensures slot == old(head) && ok == (Owner(old(mem.words[..]), base, slot) == HOSTOWN / 64)
      ensures !ok ==> head == slot && free == old(free) && mem.words[..] == old(mem.words[..])
      ensures ok ==> head == Slot(slot, 1) && free == old(free) - 1
      ensures ok ==> SlotOk(slot) && Ctl8(mem.words[..], base, slot) == HOSTOWN + ACXDONE
      ensures SameExcept(old(mem.words[..]), mem.words[..], base, slot, pool.g.N(), [])
    {
      slot := head;
      DescByte(base, slot, 0x24);
      var ctl8 := mem.Read8(DescAddr(base, slot) + 0x24);
      if ctl8 / 64 != HOSTOWN / 64 {
        return false, slot;
      }
      SetByteBytes(mem.words[DescWord(base, slot, CTL)], 0, ACXDONE + HOSTOWN);
      StoreDesc8(slot, 0x24, ACXDONE + HOSTOWN, mem.words[..], []);
      free := free - 1;
      head := (slot + 1) % TX_CNT;
      ok := true;
    }

    /** The same for a half-word and for a word. */
    method StoreDesc16(slot: nat, off: nat, val: Half, ghost w0: seq<Word>, ghost c: seq<nat>)
      requires SlotOk(slot) && 4 <= off < 4 * DESC_WORDS
      requires SameExcept(w0, mem.words[..], base, slot, pool.g.N(), c)
      modifies mem, mem.words
      ensures SlotOk(slot)
      ensures var k := DescWord(base, slot, off / 4);
              mem.words[..] == old(mem.words[..])[k := SetHalf(old(mem.words[k]), off % 4, val)]
      ensures SameExcept(w0, mem.words[..], base, slot, pool.g.N(), c)
    {
      ghost var w := mem.words[..];
      ghost var k := DescWord(base, slot, off / 4);
      DescByte(base, slot, off);
      SlotStore(w, w, base, slot, pool.g.N(), [], off / 4, SetHalf(w[k], off % 4, val));
      PoolKept(w, w[k := SetHalf(w[k], off % 4, val)], slot);
      SlotStore(w0, w, base, slot, pool.g.N(), c, off / 4, SetHalf(w[k], off % 4, val));
      mem.Write16(DescAddr(base, slot) + off, val);
    }

    method StoreDesc32(slot: nat, off: nat, val: Word, ghost w0: seq<Word>, ghost c: seq<nat>)
      requires SlotOk(slot) && 4 <= off < 4 * DESC_WORDS
      requires SameExcept(w0, mem.words[..], base, slot, pool.g.N(), c)
      modifies mem, mem.words
      ensures SlotOk(slot)
      ensures mem.words[..] == old(mem.words[..])[DescWord(base, slot, off / 4) := val]
      ensures SameExcept(w0, mem.words[..], base, slot, pool.g.N(), c)
    {
      ghost var w := mem.words[..];
      DescByte(base, slot, off);
      SlotStore(w, w, base, slot, pool.g.N(), [], off / 4, val);
      PoolKept(w, w[DescWord(base, slot, off / 4) := val], slot);
      SlotStore(w0, w, base, slot, pool.g.N(), c, off / 4, val);
      mem.Write32(DescAddr(base, slot) + off, val);
    }

    /** Length and rate of the frame; the control byte to be written back last. */
    method FillHeader(slot: nat, len: Half, rate: Byte) returns (ctl8: nat)
      requires SlotOk(slot) && Ctl8(mem.words[..], base, slot) == HOSTOWN + ACXDONE
      modifies mem, mem.words
      ensures SlotOk(slot) && SameExcept(old(mem.words[..]), mem.words[..], base, slot, pool.g.N(), [])
      ensures HalfOf(mem.words[DescWord(base, slot, LEN)], 0) == len
      ensures ctl8 == HOSTOWN + ACXDONE + FIRSTFRAG
    {
      ghost var w := mem.words[..];
      DescByte(base, slot, 0x24);
      DescByte(base, slot, 0x10);
      HalfRoundTripIff(w[DescWord(base, slot, LEN)], 0, len);
      ctl8 := mem.Read8(DescAddr(base, slot) + 0x24);
      StoreDesc16(slot, 0x10, len, w, []);
      StoreDesc8(slot, 0x2a, rate, w, []);
      ctl8 := WithFirstFrag(ctl8);
    }

    /**
     `_acx_tx_data`: fills descriptor slot, stores the frame in blocks of the pool and hands the
     descriptor to the card. The invariant makes the branch without blocks superfluous.
     */
    method TxData(slot: nat, f: Frame, rate: Byte, rest: seq<Byte>)
      requires SlotOk(slot) && skb.Length == TX_CNT && FrameOk(f) && 3 <= |rest|
      requires Ctl8(mem.words[..], base, slot) == HOSTOWN + ACXDONE
      requires Needed(pool.g.size, |f.data|) <= |pool.freeList|
      modifies pool, mem, mem.words, skb
      ensures SlotOk(slot)
      ensures var k := Needed(pool.g.size, |f.data|);
              var c := old(pool.freeList)[..k];
              && pool.freeList == old(pool.freeList)[k..]
              && SameExcept(old(mem.words[..]), mem.words[..], base, slot, pool.g.N(), c)
              && Occupied(mem.words[..], base, slot, Entry(f, Pending), c)
              && ChainHolds(pool.g, mem.words[..], c, f.data)
      ensures skb[..] == old(skb[..])[slot := Skb(f)]
    {
      ghost var w, l := mem.words[..], pool.freeList;
      ghost var c := l[..Needed(pool.g.size, |f.data|)];
      var ctl8 := FillHeader(slot, |f.data|, rate);
      assert SameExcept(w, mem.words[..], base, slot, pool.g.N(), []);
      var addr := StoreFrame(pool, f.data, rest);
      if addr == 0 {
        assert false;
      }
      DescBelowPool(pool.g, base, |w|, slot, LEN, c);
      assert SameExcept(w, mem.words[..], base, slot, pool.g.N(), c);
      HandOver(slot, addr, ctl8, f, w, c);
      skb[slot] := Skb(f);
    }

    /** The end of `_acx_tx_data`: AcxMemPtr, Ctl2_8, and Ctl_8 last. */
    method HandOver(slot: nat, addr: nat, ctl8: nat, f: Frame, ghost w0: seq<Word>, ghost c: seq<nat>)
      requires SlotOk(slot) && ctl8 == HOSTOWN + ACXDONE + FIRSTFRAG && c != [] && c[0] == addr && addr < ADDRESS_LIMIT
      requires FromPool(pool.g, c) && (forall k :: 0 <= k < |c| ==> pool.g.start <= c[k])
      requires SameExcept(w0, mem.words[..], base, slot, pool.g.N(), c)
      requires ChainHolds(pool.g, mem.words[..], c, f.data)
      requires HalfOf(mem.words[DescWord(base, slot, LEN)], 0) == |f.data|
      modifies mem, mem.words
      ensures SlotOk(slot)
      ensures SameExcept(w0, mem.words[..], base, slot, pool.g.N(), c)
      ensures Occupied(mem.words[..], base, slot, Entry(f, Pending), c)
      ensures ChainHolds(pool.g, mem.words[..], c, f.data)
    {
      ghost var w := mem.words[..];
      StoreDesc32(slot, 8, addr, w0, c);
      StoreDesc8(slot, 0x25, 0, w0, c);
      SetByteBytes(mem.words[DescWord(base, slot, CTL)], 0, ForCard(ctl8));
      StoreDesc8(slot, 0x24, ForCard(ctl8), w0, c);
      assert SameExcept(w, mem.words[..], base, slot, pool.g.N(), []);
      ChainKept(pool.g, base, w, mem.words[..], slot, [], c, f.data);
    }

    /** `acxmem_alloc_tx` on a full ring: try to wake the card up, and in the end forget everything outstanding. */
    method RingIsFull()
      requires Valid() && free == 0
      modifies this, pool, mem, mem.words
      ensures Valid()
      ensures p == if old(attempts) < WAKE_ATTEMPTS then old(p).(attempts := old(attempts) + 1)
                   else Emergency(Cfg(), old(p).(attempts := 0))
    {
      if attempts < WAKE_ATTEMPTS {
        attempts := attempts + 1;
        p := p.(attempts := attempts);
      } else {
        attempts := 0;
        p := p.(attempts := 0);
        CleanEmergency();
      }
    }

    /** `acxmem_alloc_tx` without enough blocks: stop the queues. */
    method NoRoom()
      requires Valid()
      modifies this`stopped, this`p
      ensures Valid() && p == old(p).(stopped := true)
    {
      stopped := true;
      p := p.(stopped := true);
    }

    /** `acx_tx_frame` with `acxmem_alloc_tx`: submits the frame, or fails with EBUSY. */
    method TxFrame(f: Frame) returns (sent: bool)
      requires Valid() && FrameOk(f)
      modifies this, pool, mem, mem.words, skb
      ensures Valid() && (p, sent) == TxProtocol.TxFrame(Cfg(), old(p), f)
      ensures sent ==> free < old(free)
    {
      BusyBy(Cfg(), p, f);
      if free == 0 {
        RingIsFull();
        sent := false;
      } else if Needed(pool.g.size, |f.data|) > pool.blocksFree {
        NoRoom();
        sent := false;
      } else {
        Submit(f);
        sent := true;
      }
    }

    /** A successful transmission up to the bookkeeping: claim the descriptor at the head and fill it. */
    method ClaimAndFill(f: Frame, ghost c: seq<nat>) returns (slot: nat)
      requires SlotOk(head) && free > 0 && Idle(mem.words[..], base, head)
      requires skb.Length == TX_CNT && FrameOk(f)
      requires Needed(pool.g.size, |f.data|) <= |pool.freeList| && c == pool.freeList[..Needed(pool.g.size, |f.data|)]
      modifies this`head, this`free, pool, mem, mem.words, skb
      ensures slot == old(head) && head == Slot(slot, 1) && free == old(free) - 1
      ensures SlotOk(slot) && pool.freeList == old(pool.freeList)[|c|..]
      ensures SameExcept(old(mem.words[..]), mem.words[..], base, slot, pool.g.N(), c)
      ensures Occupied(mem.words[..], base, slot, Entry(f, Pending), c)
      ensures ChainHolds(pool.g, mem.words[..], c, f.data)
      ensures skb[..] == old(skb[..])[slot := Skb(f)]
    {
      var ok;
      ok, slot := ClaimDescriptor();
      if !ok {
        assert false;
      }
      ghost var w1 := mem.words[..];
      var rate: Byte := *;
      var rest := StaleBytes();
      TxData(slot, f, rate, rest);
      SameThen(old(mem.words[..]), w1, mem.words[..], base, slot, pool.g.N(), c);
    }

    /** The effect of a successful transmission on the card's memory. */
    method FillNext(f: Frame, ghost t: nat, ghost flight: seq<Entry>)
      requires pool.mem == mem && pool.Valid() && Inv(pool.g, base, mem.words[..], t, flight, chains, pool.freeList)
      requires |flight| < TX_CNT && head == Slot(t, |flight|) && free > 0
      requires skb.Length == TX_CNT && FrameOk(f) && Needed(pool.g.size, |f.data|) <= pool.blocksFree
      modifies this`head, this`free, this`chains, pool, mem, mem.words, skb
      ensures pool.Valid() && pool.blocksFree == old(pool.blocksFree) - Needed(pool.g.size, |f.data|)
      ensures Inv(pool.g, base, mem.words[..], t, flight + [Entry(f, Pending)], chains, pool.freeList)
      ensures head == Slot(t, |flight| + 1) && free == old(free) - 1
      ensures skb[..] == old(skb[..])[Slot(t, |flight|) := Skb(f)]
    {
      ghost var w, l := mem.words[..], pool.freeList;
      ghost var k := Needed(pool.g.size, |f.data|);
      assert Idle(w, base, Slot(t, |flight|));
      var slot := ClaimAndFill(f, l[..k]);
      SubmitKeeps(pool.g, base, w, t, flight, chains, l, k, mem.words[..], Entry(f, Pending));
      HeadMoves(t, |flight|);
      chains := chains + [l[..k]];
    }

    /** A successful transmission. */
    method Submit(f: Frame)
      requires Valid() && FrameOk(f) && free > 0 && Needed(pool.g.size, |f.data|) <= pool.blocksFree
      modifies this`head, this`free, this`p, this`chains, pool, mem, mem.words, skb
      ensures Valid() && (p, true) == TxProtocol.TxFrame(Cfg(), old(p), f) && free == old(free) - 1
    {
      ghost var flight := Flight();
      SentBy(Cfg(), p, f);
      SkbAdded(skb[..], tail, flight, f);
      FillNext(f, tail, flight);
      CountSubmitted(f, flight);
    }

    /** The protocol state after a frame that has been put into card memory. */
    ghost method CountSubmitted(f: Frame, flight: seq<Entry>)
      requires WellFormed(Cfg(), p) && pool.mem == mem && pool.Valid() && |p.flight| == 1 && flight == Flight()
      requires |flight| < TX_CNT && tail < TX_CNT
      requires head == Slot(tail, |flight| + 1) && free == TX_CNT - |flight| - 1
      requires txQueue == p.waiting && attempts == p.attempts && stopped == p.stopped && scheduled == p.scheduled
      requires forall i :: 0 <= i < |txQueue| ==> FrameOk(txQueue[i])
      requires SkbsOf(skb[..], tail, flight + [Entry(f, Pending)])
      requires Inv(pool.g, base, mem.words[..], tail, flight + [Entry(f, Pending)], chains, pool.freeList)
      modifies this`p
      ensures Valid()
      ensures p == old(p).(flight := [flight + [Entry(f, Pending)]], blocksFree := pool.blocksFree)
    {
      p := p.(flight := [flight + [Entry(f, Pending)]], blocksFree := pool.blocksFree);
    }

    /**
     One round of the loop of `acx_clean_txdesc_emergency`: clears the counters, gives descriptor i to
     the host and forgets its blocks.
     */
    method ResetDescriptor(i: nat)
      requires SlotOk(i)
      modifies mem, mem.words
      ensures SlotOk(i) && Idle(mem.words[..], base, i) && Ctl8(mem.words[..], base, i) == 0x80
      ensures SameExcept(old(mem.words[..]), mem.words[..], base, i, pool.g.N(), [])
    {
      ghost var w := mem.words[..];
      StoreDesc8(i, 0x27, 0, w, []);
      StoreDesc8(i, 0x28, 0, w, []);
      StoreDesc8(i, 0x29, 0, w, []);
      StoreDesc8(i, 0x26, 0, w, []);
      SetByteBytes(mem.words[DescWord(base, i, CTL)], 0, HOSTOWN);
      StoreDesc8(i, 0x24, HOSTOWN, w, []);
      StoreDesc32(i, 8, 0, w, []);
    }

    method ResetRing()
      requires SlotOk(0) && NextCycle(mem.words[..], base)
      modifies mem, mem.words
      ensures SlotOk(0) && ResetUpTo(mem.words[..], base, TX_CNT)
    {
      var i := 0;
      while i < TX_CNT
        invariant 0 <= i <= TX_CNT
        invariant SlotOk(0) && ResetUpTo(mem.words[..], base, i)
      {
        ghost var w := mem.words[..];
        ResetDescriptor(i);
        ResetOneMore(pool.g, base, w, mem.words[..], i);
        i := i + 1;
      }
    }

    /** The effect of the emergency clean on the card's memory. */
    method ResetAll(ghost t: nat)
      requires SlotOk(0) && NextCycle(mem.words[..], base) && t < TX_CNT
      modifies pool, mem, mem.words
      ensures pool.Valid() && pool.blocksFree == pool.g.num
      ensures Inv(pool.g, base, mem.words[..], t, [], [], pool.freeList)
    {
      ResetRing();
      ghost var w := mem.words[..];
      pool.Init();
      NoLinkInFront(pool.g);
      EmptyRing(pool.g, base, w, mem.words[..], t, pool.freeList);
    }

    /**
     `acx_clean_txdesc_emergency`: all descriptors and all blocks become free, and head and tail stay.
     Its only caller finds the ring full; then head equals tail, as an empty ring wants it.
     */
    method CleanEmergency()
      requires Valid() && free == 0
      modifies this`free, this`chains, this`p, pool, mem, mem.words
      ensures Valid() && p == Emergency(Cfg(), old(p))
    {
      EmergencyBy(Cfg(), p);
      HeadMeetsTail(tail, TX_CNT);
      HeadMeetsTail(tail, 0);
      assert head == tail == Slot(tail, 0);
      ResetAll(tail);
      free := TX_CNT;
      chains := [];
      p := Emergency(Cfg(), p);
    }

    /** Gives the chain c of descriptor t back to the pool. */
    method GiveBack(t: nat, ghost c: seq<nat>)
      requires SlotOk(t) && c != [] && mem.words[DescWord(base, t, PTR)] == c[0]
      requires Linked(mem.words[..], pool.g.N(), c) && FromPool(pool.g, c) && Apart(pool.g.N(), c + pool.freeList)
      requires forall k :: 0 <= k < |c| ==> pool.g.InRange(c[k]) && pool.g.start <= c[k]
      modifies pool, mem, mem.words
      ensures SlotOk(t) && pool.freeList == c + old(pool.freeList)
      ensures SameExcept(old(mem.words[..]), mem.words[..], base, t, pool.g.N(), c)
    {
      DescByte(base, t, 8);
      var acxmem := mem.Read32(DescAddr(base, t) + 8);
      if acxmem != 0 {
        pool.Reclaim(acxmem, c);
      }
      SpliceKept(pool.g, base, old(mem.words[..]), mem.words[..], t, c, old(pool.freeList));
    }

    /** Resets descriptor t, except for its pNextDesc word. */
    method ResetSlot(t: nat)
      requires SlotOk(t)
      modifies mem, mem.words
      ensures SlotOk(t) && Idle(mem.words[..], base, t)
      ensures SameExcept(old(mem.words[..]), mem.words[..], base, t, pool.g.N(), [])
      ensures forall a :: base + 48 * t + 4 <= a < base + 48 * t + 48 ==>
        ByteAt(mem.words[..], a)
          == if a == base + 48 * t + 0x24 then 0x82 else if a == base + 48 * t + 0x2a then 0x0a else 0
    {
      DescWordAddr(base, t, 1);
      mem.CopyTo(DescAddr(base, t) + 4, Template(), |Template()|);
      TemplateCopied(pool.g, base, old(mem.words[..]), mem.words[..], t);
      PoolKept(old(mem.words[..]), mem.words[..], t);
    }

    /** The effect of cleaning the descriptor at t on the card's memory. */
    method FreeTail(ghost t: nat, slot: nat, ghost flight: seq<Entry>)
      requires pool.mem == mem && pool.Valid() && Inv(pool.g, base, mem.words[..], t, flight, chains, pool.freeList)
      requires flight != [] && slot == t
      modifies this`chains, pool, mem, mem.words
      ensures pool.Valid() && pool.blocksFree == old(pool.blocksFree) + Needed(pool.g.size, |flight[0].frame.data|)
      ensures Inv(pool.g, base, mem.words[..], (t + 1) % TX_CNT, flight[1..], chains, pool.freeList)
    {
      ghost var w, l, c := mem.words[..], pool.freeList, chains[0];
      SlotShift(t, 0);
      assert Occupied(w, base, Slot(t, 0), flight[0], c);
      assert ChainHolds(pool.g, w, c, flight[0].frame.data);
      ChainAndList(pool.g, w, l, chains, 0);
      GiveBack(slot, c);
      ghost var w1 := mem.words[..];
      ResetSlot(slot);
      SpliceThenReset(w, w1, mem.words[..], base, t, pool.g.N(), c);
      SettleKeeps(pool.g, base, w, t, flight, chains, l, mem.words[..]);
      chains := chains[1..];
    }

    /** What is reported upward for the descriptor at t, out of the card's status bytes and the host descriptor. */
    method ReadReport(t: nat, ghost e: Entry, ghost c: seq<nat>) returns (report: Outcome)
      requires SlotOk(t) && Occupied(mem.words[..], base, t, e, c) && e.completion.Done?
      requires t < skb.Length && skb[t] == Skb(e.frame)
      modifies mem
      ensures report == ReportOf(e.frame, e.completion.status)
    {
      DescByte(base, t, 0x26);
      DescByte(base, t, 0x27);
      var error := mem.Read8(DescAddr(base, t) + 0x26);
      var ackFailures: int := mem.Read8(DescAddr(base, t) + 0x27);
      var f := skb[t].frame;
      report := Reported(f, !f.noAck && error / 16 % 4 == 0, ackFailures + 1);
    }

    /** Reports the frame of the descriptor at t, with the effect on memory and host descriptors of cleaning it. */
    method SettleAt(t: nat, ghost flight: seq<Entry>) returns (report: Outcome)
      requires pool.mem == mem && pool.Valid() && Inv(pool.g, base, mem.words[..], t, flight, chains, pool.freeList)
      requires flight != [] && flight[0].completion.Done? && SkbsOf(skb[..], t, flight)
      modifies this`chains, pool, mem, mem.words
      ensures pool.Valid() && pool.blocksFree == old(pool.blocksFree) + Needed(pool.g.size, |flight[0].frame.data|)
      ensures Inv(pool.g, base, mem.words[..], (t + 1) % TX_CNT, flight[1..], chains, pool.freeList)
      ensures report == ReportOf(flight[0].frame, flight[0].completion.status)
      ensures SkbsOf(skb[..], (t + 1) % TX_CNT, flight[1..])
    {
      SlotShift(t, 0);
      SkbTaken(skb[..], t, flight);
      assert Occupied(mem.words[..], base, Slot(t, 0), flight[0], chains[0]);
      report := ReadReport(t, flight[0], chains[0]);
      FreeTail(t, t, flight);
    }

    /** The driver's own bookkeeping for a tail that has been settled in memory. */
    method CountSettled(t: nat, report: Outcome, ghost flight: seq<Entry>)
      requires |p.flight| == 1 && HostInv(t) && WellFormed(Cfg(), p) && pool.mem == mem && pool.Valid()
      requires flight == Flight() && |flight| < TX_CNT && TailDone(Cfg(), p, 0)
      requires report == ReportOf(flight[0].frame, flight[0].completion.status)
      requires pool.blocksFree == p.blocksFree + Needed(pool.g.size, |flight[0].frame.data|)
      requires Inv(pool.g, base, mem.words[..], (t + 1) % TX_CNT, flight[1..], chains, pool.freeList)
      requires SkbsOf(skb[..], (t + 1) % TX_CNT, flight[1..])
      modifies this`free, this`p
      ensures ValidAt((t + 1) % TX_CNT) && p == SettleTail(Cfg(), old(p), 0)
    {
      SettledBy(Cfg(), p);
      HeadShift(t, |flight|);
      free := free + 1;
      p := p.(flight := [flight[1..]], settled := [p.settled[0] + [report]], blocksFree := pool.blocksFree);
    }

    /** One round of the clean loop: reports the frame of the descriptor at t and frees it. */
    method CleanOne(t: nat)
      requires ValidAt(t) && |Flight()| < TX_CNT && TailDone(Cfg(), p, 0)
      modifies this`p, this`chains, this`free, pool, mem, mem.words
      ensures ValidAt((t + 1) % TX_CNT) && p == SettleTail(Cfg(), old(p), 0)
    {
      ghost var flight := Flight();
      var report := SettleAt(t, flight);
      CountSettled(t, report, flight);
    }

    /** One round of the clean loop: stops at a descriptor that is not finished. */
    method CleanRound(finger: nat) returns (cleaned: bool)
      requires ValidAt(finger) && finger != head
      modifies this`p, this`chains, this`free, pool, mem, mem.words
      ensures cleaned == TailDone(Cfg(), old(p), 0) && 0 < |old(p.flight[0])| < TX_CNT
      ensures if cleaned then ValidAt((finger + 1) % TX_CNT) && p == SettleTail(Cfg(), old(p), 0)
              else ValidAt(finger) && p == old(p)
    {
      HeadMeetsTail(finger, |Flight()|);
      cleaned := TailFinished(finger);
      if cleaned {
        CleanOne(finger);
      }
    }

    /** The clean loop; finger is where it stops. */
    method CleanLoop() returns (finger: nat)
      requires Valid()
      modifies this`p, this`chains, this`free, pool, mem, mem.words
      ensures ValidAt(finger) && p == CleanQueue(Cfg(), old(p), 0)
    {
      ghost var goal := CleanQueue(Cfg(), p, 0);
      finger := tail;
      while finger != head
        invariant ValidAt(finger) && CleanQueue(Cfg(), p, 0) == goal
        decreases |p.flight[0]|
      {
        TxProtocol.CleanRound(Cfg(), p, 0);
        var cleaned := CleanRound(finger);
        if !cleaned {
          return;
        }
        finger := (finger + 1) % TX_CNT;
      }
      HeadMeetsTail(finger, |Flight()|);
      TxProtocol.CleanRound(Cfg(), p, 0);
    }

    method CleanRing()
      requires Valid()
      modifies this`p, this`chains, this`free, this`tail, pool, mem, mem.words
      ensures Valid() && p == CleanQueue(Cfg(), old(p), 0)
    {
      tail := CleanLoop();
    }

    /** `acx_tx_clean_txdesc` */
    method CleanTxdesc()
      requires Valid()
      modifies this`p, this`chains, this`free, this`tail, pool, mem, mem.words
      ensures Valid() && p == CleanQueue(Cfg(), old(p), 0)
      ensures QueueCleaned(old(p), p, 0)
    {
      JustCleaned(Cfg(), p, 0);
      CleanRing();
    }

    /** `(Ctl_8 & DESC_CTL_ACXDONE_HOSTOWN) == DESC_CTL_ACXDONE_HOSTOWN` */
    method IsFinished(t: nat, ghost e: Entry, ghost c: seq<nat>) returns (finished: bool)
      requires SlotOk(t) && Occupied(mem.words[..], base, t, e, c)
      modifies mem
      ensures finished == e.completion.Done?
    {
      DescByte(base, t, 0x24);
      var ctl8 := mem.Read8(DescAddr(base, t) + 0x24);
      finished := ctl8 / 64 == (HOSTOWN + ACXDONE) / 64;
    }

    method TailFinished(t: nat) returns (finished: bool)
      requires ValidAt(t) && Flight() != []
      modifies mem
      ensures finished == TailDone(Cfg(), p, 0)
    {
      SlotShift(t, 0);
      assert Occupied(mem.words[..], base, Slot(t, 0), Flight()[0], chains[0]);
      finished := IsFinished(t, Flight()[0], chains[0]);
    }

    /** The Tx part of `acx_irq_work` */
    method IrqTx()
      requires Valid()
      modifies this, pool, mem, mem.words
      ensures Valid() && p == Irq(Cfg(), old(p)) && QueueCleaned(old(p), p, 0)
      ensures stopped == (old(stopped) && free < 5) && scheduled == (old(scheduled) || (old(stopped) && !stopped))
    {
      OneQueueIrq(Cfg(), p);
      CleanTxdesc();
      if free >= TX_START_QUEUE && stopped {
        WakeQueues();
      }
    }

    /** `acx_wake_queue` and `ieee80211_queue_work` */
    method WakeQueues()
      requires Valid()
      modifies this`stopped, this`scheduled, this`p
      ensures Valid() && p == old(p).(stopped := false, scheduled := true)
    {
      stopped, scheduled := false, true;
      p := p.(stopped := false, scheduled := true);
    }

    /** `acx_op_tx` */
    method OpTx(f: Frame)
      requires Valid() && FrameOk(f) && !(polite && stopped)
      modifies this
      ensures Valid() && p == Happen(Cfg(), old(p), Arrival(f))
      ensures txQueue == old(txQueue) + [f] && scheduled && stopped == (old(stopped) || |txQueue| >= 20)
    {
      txQueue := txQueue + [f];
      scheduled := true;
      if |txQueue| >= ACX_TX_QUEUE_MAX_LENGTH {
        stopped := true;
      }
      p := Happen(Cfg(), p, Arrival(f));
    }

    /**
     The card finishes the descriptor d places behind the tail, if it has been submitted to it: it
     writes its status bytes and gives the descriptor back.
     */
    method CardFinishes(d: nat, status: TxStatus)
      requires Valid()
      modifies this`p, mem.words
      ensures Valid() && p == Happen(Cfg(), old(p), Completed(0, d, status))
    {
      if d < TX_CNT - free {
        ghost var flight := Flight();
        var slot := (tail + d) % TX_CNT;
        var k := base / 4 + DESC_WORDS * slot + CTL;
        assert Occupied(mem.words[..], base, Slot(tail, d), flight[d], chains[d]);
        if ByteOf(mem.words[k], 0) / 64 == 0 {
          FinishSubmitted(slot, d, status);
        }
      }
    }

    method FinishSubmitted(slot: nat, ghost d: nat, status: TxStatus)
      requires Valid() && d < |Flight()| && slot == Slot(tail, d) && Flight()[d].completion.Pending?
      modifies this`p, mem.words
      ensures Valid() && p == Happen(Cfg(), old(p), Completed(0, d, status))
    {
      ghost var flight := Flight();
      FinishedBy(Cfg(), p, d, status);
      Finish(slot, d, status, flight);
      p := p.(flight := [flight[d := flight[d].(completion := Done(status))]]);
    }

    /** The card's access to a descriptor. */
    method Finish(slot: nat, ghost d: nat, status: TxStatus, ghost flight: seq<Entry>)
      requires pool.mem == mem && pool.Valid() && tail < TX_CNT
      requires Inv(pool.g, base, mem.words[..], tail, flight, chains, pool.freeList)
      requires d < |flight| && slot == Slot(tail, d)
      modifies mem.words
      ensures pool.Valid()
      ensures Inv(pool.g, base, mem.words[..], tail, flight[d := flight[d].(completion := Done(status))],
                  chains, pool.freeList)
    {
      ghost var w := mem.words[..];
      var k := base / 4 + DESC_WORDS * slot + CTL;
      assert Occupied(w, base, Slot(tail, d), flight[d], chains[d]);
      var ctl8 := HOSTOWN + ACXDONE + FIRSTFRAG;
      BytesPack(ctl8, ByteOf(w[k], 1), status.error, status.ackFailures);
      SlotStore(w, w, base, slot, pool.g.N(), [], CTL, Pack(ctl8, ByteOf(w[k], 1), status.error, status.ackFailures));
      mem.words[k] := Pack(ctl8, ByteOf(mem.words[k], 1), status.error, status.ackFailures);
      FinishKeeps(pool.g, base, w, tail, flight, chains, pool.freeList, d, mem.words[..],
                  flight[d].(completion := Done(status)));
    }

    method Happens(e: Event)
      requires Valid() && (e.Arrival? ==> FrameOk(e.f))
      modifies this, mem.words
      ensures Valid() && p == Happen(Cfg(), old(p), e)
      ensures free == old(free)
    {
      match e
      case Arrival(f) =>
        if !(polite && stopped) {
          OpTx(f);
        }
      case Completed(q, d, status) =>
        if q == 0 {
          CardFinishes(d, status);
        }
    }

    method HappenAll(es: seq<Event>)
      requires Valid() && forall i :: 0 <= i < |es| && es[i].Arrival? ==> FrameOk(es[i].f)
      modifies this, mem.words
      ensures Valid() && p == TxProtocol.HappenAll(Cfg(), old(p), es)
      ensures free == old(free)
    {
      var i := 0;
      while i < |es|
        invariant 0 <= i <= |es| && Valid() && free == old(free)
        invariant TxProtocol.HappenAll(Cfg(), p, es[i..]) == TxProtocol.HappenAll(Cfg(), old(p), es)
      {
        assert es[i..][0] == es[i] && es[i..][1..] == es[i + 1..];
        Happens(es[i]);
        i := i + 1;
      }
    }

    /** `skb_dequeue` */
    method Dequeue() returns (f: Frame)
      requires Valid() && txQueue != []
      modifies this`txQueue, this`p
      ensures Valid() && f == old(p.waiting[0]) && p == old(p).(waiting := old(p.waiting[1..])) && FrameOk(f)
      ensures free == old(free)
    {
      f := txQueue[0];
      txQueue := txQueue[1..];
      p := p.(waiting := txQueue);
    }

    /** `acx_stop_queue` and `skb_queue_head` */
    method PutBack(f: Frame)
      requires Valid() && FrameOk(f)
      modifies this`txQueue, this`stopped, this`p
      ensures Valid() && p == old(p).(stopped := true, waiting := [f] + old(p.waiting))
    {
      stopped := true;
      txQueue := [f] + txQueue;
      p := p.(stopped := true, waiting := txQueue);
    }

    /** The end of a round whose frame has been sent: stop if few descriptors are left. */
    method CheckLimit() returns (more: bool)
      requires Valid()
      modifies this`stopped, this`p
      ensures Valid() && more == !StopLimit(old(p)) && p == if more then old(p) else old(p).(stopped := true)
    {
      OneQueueStops(p);
      more := true;
      if free < TX_STOP_QUEUE {
        stopped := true;
        p := p.(stopped := true);
        more := false;
      }
    }

    /** One round of `acx_tx_queue_go`; more says whether the loop goes on. */
    method Round() returns (more: bool)
      requires Valid() && txQueue != []
      modifies this, pool, mem, mem.words, skb
      ensures Valid() && (p, more) == TxProtocol.Round(Cfg(), old(p))
      ensures more ==> free < old(free)
    {
      var f := Dequeue();
      more := TxFrame(f);
      if !more {
        PutBack(f);
      } else {
        more := CheckLimit();
      }
    }

    /** `acx_tx_queue_go`; env(n) happens before round n. The free descriptors are the measure of the loop. */
    method QueueGo(env: nat -> seq<Event>)
      requires Valid()
      requires forall n: nat, i :: 0 <= i < |env(n)| && env(n)[i].Arrival? ==> FrameOk(env(n)[i].f)
      modifies this, pool, mem, mem.words, skb
      ensures Valid() && p == TxProtocol.QueueGo(Cfg(), old(p), env, 0)
      ensures EndsFor(Cfg(), old(p), p) && StopsFor(old(p), p)
    {
      QueueGoEndsFor(Cfg(), p, env, 0);
      ghost var goal := TxProtocol.QueueGo(Cfg(), p, env, 0);
      var n := 0;
      var more := true;
      while more
        invariant Valid()
        invariant goal == if more then TxProtocol.QueueGo(Cfg(), p, env, n) else p
        decreases more, free
      {
        HappenAll(env(n));
        more := txQueue != [];
        if more {
          more := Round();
          n := n + 1;
        }
      }
    }

    /** `acx_tx_work` */
    method TxWork(env: nat -> seq<Event>)
      requires Valid()
      requires forall n: nat, i :: 0 <= i < |env(n)| && env(n)[i].Arrival? ==> FrameOk(env(n)[i].f)
      modifies this, pool, mem, mem.words, skb
      ensures Valid() && p == TxProtocol.TxWork(Cfg(), old(p), env) && (!old(scheduled) ==> p == old(p))
    {
      if scheduled {
        scheduled := false;
        p := p.(scheduled := false);
        QueueGo(env);
      }
    }

    /** The frames of the events and of the sending rounds are ones that mac80211 may hand over. */
    ghost predicate OpOk(op: Op) {
      match op
      case Happens(e) => e.Arrival? ==> FrameOk(e.f)
      case Work(env) => forall n: nat, i :: 0 <= i < |env(n)| && env(n)[i].Arrival? ==> FrameOk(env(n)[i].f)
      case TxIrq => true
    }

    method Do(op: Op)
      requires Valid() && OpOk(op)
      modifies this, pool, mem, mem.words, skb
      ensures Valid() && p == Step(Cfg(), old(p), op)
    {
      match op
      case Happens(e) => Happens(e);
      case Work(env) => TxWork(env);
      case TxIrq => IrqTx();
    }

    /** Any run of the device is a run of the protocol. */
    method Execute(ops: seq<Op>)
      requires Valid() && forall i :: 0 <= i < |ops| ==> OpOk(ops[i])
      modifies this, pool, mem, mem.words, skb
      ensures Valid() && p == Run(Cfg(), old(p), ops)
    {
      var i := 0;
      while i < |ops|
        invariant 0 <= i <= |ops| && Valid()
        invariant Run(Cfg(), p, ops[i..]) == Run(Cfg(), old(p), ops)
      {
        assert ops[i..][0] == ops[i] && ops[i..][1..] == ops[i + 1..];
        Do(ops[i]);
        i := i + 1;
      }
    }

    /** `acx_create_tx_desc_queue`: clears the descriptors, gives them to the host and links them into a ring. */
    method CreateTxDescQueue()
      requires pool.mem == mem && Layout(pool.g, base, mem.words.Length)
      modifies this`head, this`tail, this`free, mem, mem.words
      ensures head == 0 && tail == 0 && free == TX_CNT
      ensures ResetUpTo(mem.words[..], base, TX_CNT)
      ensures forall i :: 0 <= i < TX_CNT ==> Ctl8(mem.words[..], base, i) == 0x82
    {
      head, tail, free := 0, 0, TX_CNT;
      ghost var w0 := mem.words[..];
      assert base + 4 * DESC_WORDS * TX_CNT <= pool.g.start <= pool.g.Block(pool.g.num);
      ClearDescriptors();
      ClearedIsUnbuilt(w0, mem.words[..], base);
      var i := 0;
      while i < TX_CNT
        invariant 0 <= i <= TX_CNT && BuiltUpTo(w0, mem.words[..], base, i)
        invariant head == 0 && tail == 0 && free == TX_CNT
      {
        BuildNext(w0, mem.words[..], base, i);
        BuildDescriptor(i);
        i := i + 1;
      }
      CloseRing(w0, mem.words[..], base);
      DescByte(base, TX_CNT - 1, 0);
      mem.Write32(DescAddr(base, TX_CNT - 1), base);
    }

    method BuildDescriptor(i: nat)
      requires base % 4 == 0 && HasSlots(mem.words[..], base) && i < TX_CNT && DescAddr(base, i + 1) < ADDRESS_LIMIT
      modifies mem, mem.words
      ensures var w, c, n := old(mem.words[..]), DescWord(base, i, CTL), DescWord(base, i, NEXT);
              mem.words[..] == w[c := SetByte(w[c], 0, HOSTOWN + FIRSTFRAG)][n := DescAddr(base, i + 1)]
    {
      DescByte(base, i, 0x24);
      DescByte(base, i, 0);
      mem.Write8(DescAddr(base, i) + 0x24, HOSTOWN + FIRSTFRAG);
      mem.Write32(DescAddr(base, i), DescAddr(base, i) + 4 * DESC_WORDS);
    }

    method ClearDescriptors()
      requires base % 4 == 0 && DescWord(base, TX_CNT, 0) <= mem.words.Length
      modifies mem, mem.words
      ensures ClearedUpTo(old(mem.words[..]), mem.words[..], base, DescWord(base, TX_CNT, 0))
    {
      var clr := base;
      while clr < base + 4 * DESC_WORDS * TX_CNT
        invariant base <= clr <= base + 4 * DESC_WORDS * TX_CNT && clr % 4 == 0
        invariant ClearedUpTo(old(mem.words[..]), mem.words[..], base, clr / 4)
      {
        mem.Write32(clr, 0);
        clr := clr + 4;
      }
    }

    /**
     The card's own step at ACX100_CMD_INIT_MEMORY: it links its transmit blocks, and leaves what lies in
     front of the pool alone.
     */
    method CardInitsMemory(links: seq<Word>)
      requires |links| == mem.words.Length && pool.Configured() && pool.mem == mem
      requires Linked(links, pool.g.N(), pool.g.All())
      modifies mem.words
      ensures Linked(mem.words[..], pool.g.N(), pool.g.All())
      ensures forall k :: 0 <= k < pool.g.start / 4 && k < |links| ==> mem.words[k] == old(mem.words[k])
    {
      forall k | pool.g.start / 4 <= k < mem.words.Length {
        mem.words[k] := links[k];
      }
      forall j | 0 <= j < |pool.g.All()|
        ensures mem.words[..][pool.g.All()[j] / 4] == links[pool.g.All()[j] / 4]
      {
        assert IsBlock(links, pool.g.N(), pool.g.All()[j]);
        assert pool.g.start <= pool.g.Block(j);
      }
      LinkedFrame(links, mem.words[..], pool.g.N(), pool.g.All());
    }

    /** The freshly initialised device: an empty ring, and all blocks in the free list that the card has made. */
    method Setup(links: seq<Word>)
      requires pool.mem == mem && pool.Configured() && Layout(pool.g, base, mem.words.Length) && skb.Length == TX_CNT
      requires |links| == mem.words.Length && Linked(links, pool.g.N(), pool.g.All())
      modifies this, pool, mem, mem.words
      ensures Valid() && p == TxProtocol.Init(Cfg())
    {
      CreateTxDescQueue();
      ghost var w := mem.words[..];
      CardInitsMemory(links);
      pool.Reset();
      EmptyRing(pool.g, base, w, mem.words[..], tail, pool.freeList);
      txQueue, stopped, scheduled, attempts := [], false, false, 0;
      chains := [];
      p := TxProtocol.Init(Cfg());
      assert Flight() == [] && Slot(tail, 0) == 0;
    }

    /**
     A fresh device, driven in any way: no frame is lost, duplicated or overtaken between mac80211 and the
     card's memory, no block is lost, and frames are dropped exactly if a step meets the guard of the
     emergency clean; if mac80211 respects stopped queues, none does, and the ring never fills.
     */
    method SetupAndExecute(links: seq<Word>, ops: seq<Op>)
      requires pool.mem == mem && pool.Configured() && Layout(pool.g, base, mem.words.Length) && skb.Length == TX_CNT
      requires |links| == mem.words.Length && Linked(links, pool.g.N(), pool.g.All())
      requires forall i :: 0 <= i < |ops| ==> OpOk(ops[i])
      modifies this, pool, mem, mem.words, skb
      ensures Valid() && p.enqueued == FramesOf(p.settled[0]) + Flying(p.flight[0]) + p.waiting
      ensures p.blocksFree + BlocksHeld(Cfg(), p.flight[0]) == pool.g.num
      ensures NoDrops(p) <==> NeverGuarded(Cfg(), TxProtocol.Init(Cfg()), ops)
      ensures polite ==> NoDrops(p) && |p.flight[0]| < TX_CNT
    {
      Setup(links);
      EveryRunConserves(Cfg(), ops);
      RunAccounts(Cfg(), p, ops);
      RunDropsIff(Cfg(), p, ops);
      if polite {
        PoliteRunsNeverFill(Cfg(), p, ops);
        NeverGuardedIfPolite(Cfg(), p, ops);
      }
      Execute(ops);
    }
  }
}
