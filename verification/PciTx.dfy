/**
 The transmit rings of a PCI device (pci.c, merge.c), one for each hardware queue: the driver shares
 the descriptors with the card and keeps each frame in a host buffer. Every method does one step of the
 protocol in TxProtocol.
 */
module PciTx {
  import opened Words
  import opened TxProtocol
  import opened TxRing
  import opened TxTheorems

  const AUTODMA: nat := 0x04
  const RECLAIM: nat := 0x08

  /** `txacxdesc_t`, as far as it carries state; next and hostMem are the indices that the two pointers stand for. */
  datatype TxDesc = TxDesc(
    ctl: Byte, error: Byte, ackFailures: Byte, totalLength: Half, next: nat, hostMem: nat)

  /** The pair of host descriptors: the transmit buffer and the frame handed over. */
  datatype HostPair = HostPair(data: seq<Byte>, skb: Frame)

  /** A descriptor that the driver may use: HOSTOWN without ACXDONE. */
  predicate Free(d: TxDesc) {
    d.ctl / 64 == HOSTOWN / 64
  }

  /**
   A descriptor that holds an entry: the card owns it until it is done, then both bits are set and the
   status is there; the host buffer still holds the frame.
   */
  predicate Holds(d: TxDesc, h: HostPair, e: Entry) {
    && h.skb == e.frame && e.frame.data <= h.data && d.totalLength == |e.frame.data| % 0x1_0000
    && match e.completion
       case Pending => d.ctl / 64 == 0
       case Done(status) =>
         d.ctl / 64 == (HOSTOWN + ACXDONE) / 64 && d.error == status.error && d.ackFailures == status.ackFailures
  }

  /** Where the ring of queue q starts: TX_CNT * q. */
  function Base(q: nat): (k: nat)
    ensures k == TX_CNT * q
  {
    16 * q
  }

  /** The descriptor d places behind the tail t of queue q. */
  function At(q: nat, t: nat, d: nat): (k: nat)
    ensures Base(q) <= k < Base(q) + TX_CNT
  {
    Base(q) + Slot(t, d)
  }

  /** The index that follows k in its ring. */
  function NextIn(k: nat): nat {
    if k % 16 == 15 then k - 15 else k + 1
  }

  /**
   The pointers set up for descriptor k: to its pair of host descriptors, and on the ACX100 to the next
   descriptor of the ring; the ACX111 presets the latter itself.
   */
  predicate Wired(isAcx111: bool, d: TxDesc, k: nat) {
    d.hostMem == 2 * k && (!isAcx111 ==> d.next == NextIn(k))
  }

  predicate AllWired(isAcx111: bool, desc: seq<TxDesc>) {
    forall k :: 0 <= k < |desc| ==> Wired(isAcx111, desc[k], k)
  }

  /** Where the next pointers lead from descriptor k in n steps. */
  function Hops(desc: seq<TxDesc>, k: nat, n: nat): nat {
    if n == 0 then k
    else
      var j := Hops(desc, k, n - 1);
      if j < |desc| then desc[j].next else 0
  }

  lemma NextInRing(q: nat, j: nat)
    requires j < 16
    ensures NextIn(16 * q + j) == 16 * q + (j + 1) % 16
  {
    assert (16 * q + j) % 16 == j;
  }

  /** The next pointers of an ACX100 form one cycle through the descriptors of each ring. */
  lemma {:induction false} HopsAreCycle(desc: seq<TxDesc>, q: nat, i: nat, n: nat)
    requires AllWired(false, desc) && 16 * q + 16 <= |desc| && i < 16
    ensures Hops(desc, 16 * q + i, n) == 16 * q + (i + n) % 16
  {
    if n == 0 {
    } else {
      HopsAreCycle(desc, q, i, n - 1);
      var j: nat := (i + (n - 1)) % 16;
      assert Wired(false, desc[16 * q + j], 16 * q + j);
      NextInRing(q, j);
      NextIndex(i + (n - 1));
    }
  }

  /** The owner bits of the control byte tell free, submitted and finished descriptors apart. */
  lemma OwnerBits(d: TxDesc, h: HostPair, e: Entry)
    ensures Free(d) <==> 0x80 <= d.ctl < 0xc0
    ensures Holds(d, h, e) ==> if e.completion.Pending? then d.ctl < 0x40 else 0xc0 <= d.ctl
  {
  }

  predicate SlotHolds(desc: seq<TxDesc>, host: seq<HostPair>, k: nat, es: seq<Entry>, d: nat) {
    && k < |desc| == |host|
    && if d < |es| then Holds(desc[k], host[k], es[d]) else Free(desc[k])
  }

  /** The ring of queue q holds exactly the entries es from its tail t on; all other descriptors are free. */
  predicate RingHolds(desc: seq<TxDesc>, host: seq<HostPair>, q: nat, t: nat, es: seq<Entry>) {
    && |es| <= TX_CNT && t < TX_CNT
    && forall d :: 0 <= d < TX_CNT ==> SlotHolds(desc, host, At(q, t, d), es, d)
  }

  /** A change in the ring of one queue leaves the other rings alone. */
  lemma OtherRing(desc: seq<TxDesc>, host: seq<HostPair>, desc': seq<TxDesc>, host': seq<HostPair>,
                  q: nat, q': nat, s: nat, t: nat, es: seq<Entry>)
    requires RingHolds(desc, host, q', t, es) && q != q' && s < TX_CNT
    requires Base(q) + s < |desc'| == |desc| == |host'| == |host|
    requires desc' == desc[Base(q) + s := desc'[Base(q) + s]]
    requires host' == host[Base(q) + s := host'[Base(q) + s]]
    ensures RingHolds(desc', host', q', t, es)
  {
    forall d | 0 <= d < TX_CNT
      ensures SlotHolds(desc', host', At(q', t, d), es, d)
    {
      assert SlotHolds(desc, host, At(q', t, d), es, d);
    }
  }

  lemma SubmitHolds(desc: seq<TxDesc>, host: seq<HostPair>, q: nat, t: nat, es: seq<Entry>, e: Entry,
                    desc': seq<TxDesc>, host': seq<HostPair>)
    requires RingHolds(desc, host, q, t, es) && |es| < TX_CNT && At(q, t, |es|) < |desc| == |host|
    requires |desc'| == |desc| && desc' == desc[At(q, t, |es|) := desc'[At(q, t, |es|)]]
    requires |host'| == |host| && host' == host[At(q, t, |es|) := host'[At(q, t, |es|)]]
    requires Holds(desc'[At(q, t, |es|)], host'[At(q, t, |es|)], e)
    ensures RingHolds(desc', host', q, t, es + [e])
  {
    forall d | 0 <= d < TX_CNT
      ensures SlotHolds(desc', host', At(q, t, d), es + [e], d)
    {
      assert SlotHolds(desc, host, At(q, t, d), es, d);
      if d != |es| {
        SlotsDiffer(t, d, |es|);
      }
    }
  }

  lemma FinishHolds(desc: seq<TxDesc>, host: seq<HostPair>, q: nat, t: nat, es: seq<Entry>, i: nat,
                    d': TxDesc, e: Entry)
    requires RingHolds(desc, host, q, t, es) && i < |es| && At(q, t, i) < |desc| == |host|
    requires Holds(d', host[At(q, t, i)], e)
    ensures RingHolds(desc[At(q, t, i) := d'], host, q, t, es[i := e])
  {
    forall d | 0 <= d < TX_CNT
      ensures SlotHolds(desc[At(q, t, i) := d'], host, At(q, t, d), es[i := e], d)
    {
      assert SlotHolds(desc, host, At(q, t, d), es, d);
      if d != i {
        SlotsDiffer(t, d, i);
      }
    }
  }

  lemma SettleHolds(desc: seq<TxDesc>, host: seq<HostPair>, q: nat, t: nat, es: seq<Entry>, d': TxDesc)
    requires RingHolds(desc, host, q, t, es) && es != [] && Base(q) + t < |desc| == |host| && Free(d')
    ensures RingHolds(desc[Base(q) + t := d'], host, q, (t + 1) % TX_CNT, es[1..])
  {
    var t' := (t + 1) % TX_CNT;
    forall d | 0 <= d < TX_CNT
      ensures SlotHolds(desc[Base(q) + t := d'], host, At(q, t', d), es[1..], d)
    {
      SlotShift(t, d);
      if d + 1 < TX_CNT {
        assert SlotHolds(desc, host, At(q, t, d + 1), es, d + 1);
        SlotsDiffer(t, 0, d + 1);
      }
    }
  }

  /** What a transmission does to the protocol state of a PCI device. */
  lemma SentBy(c: Config, p: Pipe, f: Frame)
    requires WellFormed(c, p) && !c.isMem
    ensures var q := QueueOf(c, f);
            TxProtocol.TxFrame(c, p, f) ==
              if |p.flight[q]| == TX_CNT then (p, false)
              else (p.(flight := p.flight[q := p.flight[q] + [Entry(f, Pending)]]), true)
    ensures QueueOf(c, f) == if f.encrypted && c.encrypt then 1 else 0
  {
  }

  class PciTxDevice {
    const queues: nat
    /** hw_encrypt_enabled, and whether the chip is an ACX111. */
    const encrypt: bool
    const isAcx111: bool
    /** Whether mac80211 keeps quiet while its queues are stopped. */
    const polite: bool
    /** hw_tx_queue[q].head, tail and free */
    const head: array<nat>
    const tail: array<nat>
    const free: array<nat>
    /** The descriptors of queue q from Base(q) on. */
    const desc: array<TxDesc>
    const host: array<HostPair>
    var txQueue: seq<Frame>
    /** Whether the mac80211 queues are stopped, and whether tx_work is scheduled. */
    var stopped: bool
    var scheduled: bool
    /** The protocol state. */
    ghost var p: Pipe

    constructor (queues: nat, encrypt: bool, isAcx111: bool, polite: bool)
      requires 1 <= queues && (encrypt ==> 2 <= queues)
      ensures Valid() && fresh(head) && fresh(tail) && fresh(free) && fresh(desc) && fresh(host)
      ensures p == TxProtocol.Init(Cfg())
      ensures this.queues == queues && this.encrypt == encrypt && this.isAcx111 == isAcx111 && this.polite == polite
      ensures forall k :: 0 <= k < desc.Length ==>
        desc[k] == TxDesc(if isAcx111 then 0x80 else 0x8e, 0, 0, 0, NextIn(k), 2 * k)
    {
      this.queues, this.encrypt, this.isAcx111, this.polite := queues, encrypt, isAcx111, polite;
      head := new nat[queues](_ => 0);
      tail := new nat[queues](_ => 0);
      free := new nat[queues](_ => TX_CNT);
      var ctl := if isAcx111 then HOSTOWN else HOSTOWN + RECLAIM + AUTODMA + FIRSTFRAG;
      desc := new TxDesc[Base(queues)](k requires 0 <= k => TxDesc(ctl, 0, 0, 0, NextIn(k), 2 * k));
      host := new HostPair[Base(queues)](_ => HostPair([], Frame([], false, false, 0)));
      txQueue, stopped, scheduled := [], false, false;
      p := TxProtocol.Init(Config(false, queues, encrypt, 32, 0, polite));
      new;
      forall q | 0 <= q < queues
        ensures QueueInv(q, tail[q])
      {
        forall d | 0 <= d < TX_CNT
          ensures SlotHolds(desc[..], host[..], At(q, 0, d), [], d)
        {
          assert Base(q) + TX_CNT <= Base(queues);
        }
      }
    }

    ghost function Cfg(): (c: Config)
    {
      Config(false, queues, encrypt, 32, 0, polite)
    }

    ghost predicate Shape()
      reads this, desc
    {
      && 1 <= queues && (encrypt ==> 2 <= queues)
      && head.Length == tail.Length == free.Length == queues
      && head != tail && head != free && tail != free
      && desc.Length == host.Length == Base(queues) && AllWired(isAcx111, desc[..])
      && WellFormed(Cfg(), p)
      && txQueue == p.waiting && stopped == p.stopped && scheduled == p.scheduled
    }

    /** Queue q agrees with the protocol state if its ring starts at t. */
    ghost predicate QueueInv(q: nat, t: nat)
      requires Shape() && q < queues
      reads this, head, free, desc, host
    {
      && RingHolds(desc[..], host[..], q, t, p.flight[q])
      && head[q] == Slot(t, |p.flight[q]|) && free[q] == TX_CNT - |p.flight[q]|
    }

    ghost predicate Valid()
      reads this, head, tail, free, desc, host
    {
      Shape() && forall q :: 0 <= q < queues ==> QueueInv(q, tail[q])
    }

    /** Valid, but for the tail of queue q, which is at t. */
    ghost predicate ValidAt(q: nat, t: nat)
      reads this, head, tail, free, desc, host
    {
      && Shape() && q < queues && QueueInv(q, t)
      && forall q' :: 0 <= q' < queues && q' != q ==> QueueInv(q', tail[q'])
    }

    /** `acxpci_alloc_tx`: the descriptor at the head, marked as not yet submitted, or none. */
    method AllocTx(q: nat) returns (ok: bool, k: nat)
      requires Valid() && q < queues
      modifies head, free, desc
      ensures ok == (|p.flight[q]| < TX_CNT)
      ensures !ok ==> Valid()
      ensures ok ==>
        && k == At(q, tail[q], |p.flight[q]|) < desc.Length
        && desc[..] == old(desc[..])[k := old(desc[k]).(ctl := HOSTOWN + ACXDONE)]
        && AllWired(isAcx111, desc[..])
        && head[q] == Slot(tail[q], |p.flight[q]| + 1) && free[q] == old(free[q]) - 1
        && forall q' :: 0 <= q' < queues && q' != q ==> head[q'] == old(head[q']) && free[q'] == old(free[q'])
    {
      assert QueueInv(q, tail[q]);
      if free[q] == 0 {
        return false, 0;
      }
      var h := head[q];
      k := Base(q) + h;
      assert SlotHolds(desc[..], host[..], At(q, tail[q], |p.flight[q]|), p.flight[q], |p.flight[q]|);
      HeadMoves(tail[q], |p.flight[q]|);
      if desc[k].ctl / 64 != HOSTOWN / 64 {
        // "failed to find free txdesc"
        assert false;
      }
      desc[k] := desc[k].(ctl := HOSTOWN + ACXDONE);
      free[q] := free[q] - 1;
      head[q] := (h + 1) % TX_CNT;
      ok := true;
    }

    /** The frame is copied to the transmit buffer, and `_acx_tx_data` hands the descriptor to the card. */
    method TxData(k: nat, f: Frame)
      requires k < desc.Length == host.Length && desc[k].ctl == HOSTOWN + ACXDONE && AllWired(isAcx111, desc[..])
      modifies desc, host
      ensures desc[..] == old(desc[..])[k := desc[k]] && host[..] == old(host[..])[k := host[k]]
      ensures Holds(desc[k], host[k], Entry(f, Pending)) && AllWired(isAcx111, desc[..])
      ensures desc[k].ctl == if isAcx111 then 0 else 0x0e
    {
      var old' := host[k].data;
      host[k] := host[k].(data := f.data + if |f.data| < |old'| then old'[|f.data|..] else []);
      var ctl: int := desc[k].ctl;
      desc[k] := desc[k].(totalLength := |f.data| % 0x1_0000);
      if !isAcx111 {
        ctl := ctl + FIRSTFRAG + AUTODMA + RECLAIM;
      }
      desc[k] := desc[k].(ctl := ctl - (HOSTOWN + ACXDONE));
      host[k] := host[k].(skb := f);
    }

    /** Claims a descriptor and hands it to the card with the frame. */
    method Fill(q: nat, f: Frame) returns (ok: bool, k: nat)
      requires Valid() && q < queues
      modifies head, free, desc, host
      ensures ok == (|p.flight[q]| < TX_CNT)
      ensures !ok ==> Valid()
      ensures ok ==>
        && k == At(q, tail[q], |p.flight[q]|) < desc.Length
        && desc[..] == old(desc[..])[k := desc[k]] && host[..] == old(host[..])[k := host[k]]
        && Holds(desc[k], host[k], Entry(f, Pending)) && AllWired(isAcx111, desc[..])
        && head[q] == Slot(tail[q], |p.flight[q]| + 1) && free[q] == old(free[q]) - 1
        && forall q' :: 0 <= q' < queues && q' != q ==> head[q'] == old(head[q']) && free[q'] == old(free[q'])
    {
      ok, k := AllocTx(q);
      if ok {
        TxData(k, f);
      }
    }

    /** Submits a frame to queue q, if its ring has a free descriptor. */
    method Send(q: nat, f: Frame) returns (sent: bool)
      requires Valid() && q < queues
      modifies this`p, head, free, desc, host
      ensures Valid() && sent == (old(|p.flight[q]|) < TX_CNT)
      ensures p ==
        if sent then old(p).(flight := old(p).flight[q := old(p).flight[q] + [Entry(f, Pending)]]) else old(p)
    {
      assert QueueInv(q, tail[q]);
      ghost var es, d0, h0 := p.flight[q], desc[..], host[..];
      var k;
      sent, k := Fill(q, f);
      if sent {
        SubmitHolds(d0, h0, q, tail[q], es, Entry(f, Pending), desc[..], host[..]);
        p := p.(flight := p.flight[q := es + [Entry(f, Pending)]]);
        assert QueueInv(q, tail[q]);
        forall q' | 0 <= q' < queues && q' != q
          ensures QueueInv(q', tail[q'])
        {
          assert old(QueueInv(q', tail[q']));
          OtherRing(d0, h0, desc[..], host[..], q, q', k - Base(q), tail[q'], p.flight[q']);
        }
      }
    }

    /** `acx_tx_frame` */
    method TxFrame(f: Frame) returns (sent: bool)
      requires Valid()
      modifies this`p, head, free, desc, host
      ensures Valid() && (p, sent) == TxProtocol.TxFrame(Cfg(), old(p), f)
    {
      var q: nat := if f.encrypted && encrypt then 1 else 0;
      SentBy(Cfg(), p, f);
      sent := Send(q, f);
    }

    /** The card finishes the descriptor d places behind the tail of queue q, if it owns it. */
    method CardFinishes(q: nat, d: nat, status: TxStatus)
      requires Valid()
      modifies this`p, desc
      ensures Valid() && p == Happen(Cfg(), old(p), Completed(q, d, status))
    {
      if q < queues {
        assert QueueInv(q, tail[q]);
        if d < TX_CNT - free[q] {
          assert SlotHolds(desc[..], host[..], At(q, tail[q], d), p.flight[q], d);
          var k := Base(q) + (tail[q] + d) % TX_CNT;
          if desc[k].ctl / 64 == 0 {
            FinishSubmitted(q, d, k, status);
          }
        }
      }
    }

    /** The card's access to a descriptor. */
    method FinishSubmitted(q: nat, ghost d: nat, k: nat, status: TxStatus)
      requires Valid() && q < queues && d < |p.flight[q]| && p.flight[q][d].completion.Pending?
      requires k == At(q, tail[q], d) < desc.Length
      modifies this`p, desc
      ensures Valid() && p == Happen(Cfg(), old(p), Completed(q, d, status))
    {
      ghost var es, d0 := p.flight[q], desc[..];
      ghost var e := es[d].(completion := Done(status));
      assert QueueInv(q, tail[q]);
      assert SlotHolds(d0, host[..], At(q, tail[q], d), es, d);
      var ctl: int := desc[k].ctl;
      desc[k] := desc[k].(ctl := ctl + HOSTOWN + ACXDONE, error := status.error, ackFailures := status.ackFailures);
      FinishHolds(d0, host[..], q, tail[q], es, d, desc[k], e);
      assert desc[..] == d0[k := desc[k]];
      p := p.(flight := p.flight[q := es[d := e]]);
      forall q' | 0 <= q' < queues && q' != q
        ensures QueueInv(q', tail[q'])
      {
        assert old(QueueInv(q', tail[q']));
        OtherRing(d0, host[..], desc[..], host[..], q, q', k - Base(q), tail[q'], p.flight[q']);
      }
    }

    /** Reads the report of the finished descriptor k and gives the descriptor back. */
    method Recycle(k: nat, ghost e: Entry) returns (report: Outcome)
      requires k < desc.Length == host.Length && Holds(desc[k], host[k], e) && e.completion.Done?
      requires AllWired(isAcx111, desc[..])
      modifies desc
      ensures desc[..] == old(desc[..])[k := desc[k]] && Free(desc[k]) && AllWired(isAcx111, desc[..])
      ensures desc[k] == old(desc[k]).(error := 0, ackFailures := 0, ctl := 0x80)
      ensures report == ReportOf(e.frame, e.completion.status)
    {
      var acked := !host[k].skb.noAck && desc[k].error / 16 % 4 == 0;
      report := Reported(host[k].skb, acked, desc[k].ackFailures + 1);
      desc[k] := desc[k].(error := 0, ackFailures := 0, ctl := HOSTOWN);
    }

    /** Reports the frame at t and frees its descriptor. */
    method FreeTail(q: nat, t: nat, ghost es: seq<Entry>) returns (report: Outcome)
      requires Shape() && q < queues && QueueInv(q, t) && es == p.flight[q]
      requires es != [] && es[0].completion.Done?
      modifies free, desc
      ensures AllWired(isAcx111, desc[..]) && Base(q) + t < desc.Length
      ensures desc[..] == old(desc[..])[Base(q) + t := desc[Base(q) + t]]
      ensures RingHolds(desc[..], host[..], q, (t + 1) % TX_CNT, es[1..])
      ensures free[q] == old(free[q]) + 1 && forall q' :: 0 <= q' < queues && q' != q ==> free[q'] == old(free[q'])
      ensures report == ReportOf(es[0].frame, es[0].completion.status)
    {
      var k := Base(q) + t;
      SlotShift(t, 0);
      assert SlotHolds(desc[..], host[..], At(q, t, 0), es, 0);
      report := Recycle(k, es[0]);
      free[q] := free[q] + 1;
      SettleHolds(old(desc[..]), host[..], q, t, es, desc[k]);
    }

    /** One round of the clean loop on a finished descriptor. */
    method CleanOne(q: nat, t: nat)
      requires ValidAt(q, t) && TailDone(Cfg(), p, q)
      modifies this`p, free, desc
      ensures ValidAt(q, (t + 1) % TX_CNT) && p == SettleTail(Cfg(), old(p), q)
    {
      ghost var es := p.flight[q];
      SlotShift(t, |es| - 1);
      SlotShift(t, 0);
      var report := FreeTail(q, t, es);
      p := p.(flight := p.flight[q := es[1..]], settled := p.settled[q := p.settled[q] + [report]]);
      forall q' | 0 <= q' < queues && q' != q
        ensures QueueInv(q', tail[q'])
      {
        assert old(QueueInv(q', tail[q']));
        OtherRing(old(desc[..]), host[..], desc[..], host[..], q, q', t, tail[q'], p.flight[q']);
      }
    }

    /** One round of the clean loop: stops at a descriptor that is not finished. */
    method CleanRound(q: nat, finger: nat) returns (cleaned: bool)
      requires ValidAt(q, finger) && finger != head[q]
      modifies this`p, free, desc
      ensures cleaned == TailDone(Cfg(), old(p), q) && 0 < |old(p.flight[q])| < TX_CNT
      ensures if cleaned then ValidAt(q, (finger + 1) % TX_CNT) && p == SettleTail(Cfg(), old(p), q)
              else ValidAt(q, finger) && p == old(p)
    {
      HeadMeetsTail(finger, |p.flight[q]|);
      SlotShift(finger, 0);
      assert SlotHolds(desc[..], host[..], At(q, finger, 0), p.flight[q], 0);
      cleaned := desc[Base(q) + finger].ctl / 64 == (HOSTOWN + ACXDONE) / 64;
      if cleaned {
        CleanOne(q, finger);
      }
    }

    /** `acx_tx_clean_txdesc` */
    method CleanTxdesc(q: nat)
      requires Valid() && q < queues
      modifies this`p, tail, free, desc
      ensures Valid() && p == CleanQueue(Cfg(), old(p), q)
      ensures QueueCleaned(old(p), p, q)
    {
      CleanSettles(Cfg(), p, q);
      ghost var goal := CleanQueue(Cfg(), p, q);
      var finger: nat := tail[q];
      while finger != head[q]
        invariant ValidAt(q, finger) && CleanQueue(Cfg(), p, q) == goal
        decreases |p.flight[q]|
      {
        TxProtocol.CleanRound(Cfg(), p, q);
        var cleaned := CleanRound(q, finger);
        if !cleaned {
          break;
        }
        finger := (finger + 1) % TX_CNT;
      }
      HeadMeetsTail(finger, |p.flight[q]|);
      TxProtocol.CleanRound(Cfg(), p, q);
      tail[q] := finger;
    }

    /** The Tx part of `acx_irq_work` */
    method IrqTx()
      requires Valid()
      modifies this, tail, free, desc
      ensures Valid() && p == Irq(Cfg(), old(p))
      ensures forall q :: 0 <= q < queues ==> QueueCleaned(old(p), p, q)
      ensures stopped == (old(stopped) && exists q :: 0 <= q < queues && |p.flight[q]| > 11)
      ensures scheduled == (old(scheduled) || (old(stopped) && !stopped))
    {
      IrqCleans(Cfg(), p);
      ghost var goal := CleanFrom(Cfg(), p, 0);
      var i: nat := 0;
      while i < queues
        invariant i <= queues && Valid() && CleanFrom(Cfg(), p, i) == goal
      {
        CleanTxdesc(i);
        i := i + 1;
      }
      var room := AtStartLimit();
      if room && stopped {
        stopped, scheduled := false, true;
        p := p.(stopped := false, scheduled := true);
      }
    }

    /** `acx_is_hw_tx_queue_start_limit` */
    method AtStartLimit() returns (room: bool)
      requires Valid()
      ensures room == StartLimit(p)
    {
      var i: nat := 0;
      while i < queues
        invariant i <= queues
        invariant forall q :: 0 <= q < i ==> TX_CNT - |p.flight[q]| >= TX_START_QUEUE
      {
        assert QueueInv(i, tail[i]);
        if free[i] < TX_START_QUEUE {
          return false;
        }
        i := i + 1;
      }
      room := true;
    }

    /** `acx_is_hw_tx_queue_stop_limit` */
    method AtStopLimit() returns (low: bool)
      requires Valid()
      ensures low == StopLimit(p)
    {
      var i: nat := 0;
      while i < queues
        invariant i <= queues
        invariant forall q :: 0 <= q < i ==> TX_CNT - |p.flight[q]| >= TX_STOP_QUEUE
      {
        assert QueueInv(i, tail[i]);
        if free[i] < TX_STOP_QUEUE {
          return true;
        }
        i := i + 1;
      }
      low := false;
    }

    /** `acx_op_tx` */
    method OpTx(f: Frame)
      requires Valid() && !(polite && stopped)
      modifies this
      ensures Valid() && p == Happen(Cfg(), old(p), Arrival(f))
      ensures txQueue == old(txQueue) + [f] && scheduled && stopped == (old(stopped) || |txQueue| >= 20)
    {
      txQueue := txQueue + [f];
      scheduled := true;
      if |txQueue| >= ACX_TX_QUEUE_MAX_LENGTH {
        stopped := true;
      }
      p := Happen(Cfg(), p, Arrival(f));
      assert forall q :: 0 <= q < queues ==> old(QueueInv(q, tail[q])) ==> QueueInv(q, tail[q]);
    }

    method Happens(e: Event)
      requires Valid()
      modifies this, desc
      ensures Valid() && p == Happen(Cfg(), old(p), e)
    {
      match e
      case Arrival(f) =>
        if !(polite && stopped) {
          OpTx(f);
        }
      case Completed(q, d, status) =>
        CardFinishes(q, d, status);
    }

    method HappenAll(es: seq<Event>)
      requires Valid()
      modifies this, desc
      ensures Valid() && p == TxProtocol.HappenAll(Cfg(), old(p), es)
    {
      var i := 0;
      while i < |es|
        invariant 0 <= i <= |es| && Valid()
        invariant TxProtocol.HappenAll(Cfg(), p, es[i..]) == TxProtocol.HappenAll(Cfg(), old(p), es)
      {
        assert es[i..][0] == es[i] && es[i..][1..] == es[i + 1..];
        Happens(es[i]);
        i := i + 1;
      }
    }

    /** Sets the driver's own variables and what the protocol says of them. */
    method SetQueue(q: seq<Frame>, stop: bool)
      requires Valid()
      modifies this`txQueue, this`stopped, this`p
      ensures Valid() && p == old(p).(waiting := q, stopped := stop)
    {
      txQueue, stopped := q, stop;
      p := p.(waiting := q, stopped := stop);
      assert forall q :: 0 <= q < queues ==> old(QueueInv(q, tail[q])) ==> QueueInv(q, tail[q]);
    }

    /** One round of `acx_tx_queue_go`; more says whether the loop goes on. */
    method Round() returns (more: bool)
      requires Valid() && txQueue != []
      modifies this, head, free, desc, host
      ensures Valid() && (p, more) == TxProtocol.Round(Cfg(), old(p))
    {
      var f := txQueue[0];
      SetQueue(txQueue[1..], stopped);
      more := TxFrame(f);
      if !more {
        SetQueue([f] + txQueue, true);
      } else {
        var low := AtStopLimit();
        if low {
          SetQueue(txQueue, true);
          more := false;
        }
      }
    }

    /** `acx_tx_queue_go`; env(n) happens before round n. The free descriptors are the measure of the loop. */
    method QueueGo(env: nat -> seq<Event>)
      requires Valid()
      modifies this, head, free, desc, host
      ensures Valid() && p == TxProtocol.QueueGo(Cfg(), old(p), env, 0)
      ensures EndsFor(Cfg(), old(p), p) && StopsFor(old(p), p)
    {
      QueueGoEndsFor(Cfg(), p, env, 0);
      ghost var goal := TxProtocol.QueueGo(Cfg(), p, env, 0);
      var n := 0;
      var more := true;
      while more
        invariant Valid()
        invariant goal == if more then TxProtocol.QueueGo(Cfg(), p, env, n) else p
        decreases more, TotalFree(Cfg(), p)
      {
        SendingUsesADescriptor(Cfg(), p, env(n));
        HappenAll(env(n));
        more := txQueue != [];
        if more {
          more := Round();
          n := n + 1;
        }
      }
    }

    /** `acx_tx_work` */
    method TxWork(env: nat -> seq<Event>)
      requires Valid()
      modifies this, head, free, desc, host
      ensures Valid() && p == TxProtocol.TxWork(Cfg(), old(p), env) && (!old(scheduled) ==> p == old(p))
    {
      if scheduled {
        scheduled := false;
        p := p.(scheduled := false);
        assert forall q :: 0 <= q < queues ==> old(QueueInv(q, tail[q])) ==> QueueInv(q, tail[q]);
        QueueGo(env);
      }
    }

    /** Any run of the device is a run of the protocol. */
    method Execute(ops: seq<Op>)
      requires Valid()
      modifies this, head, tail, free, desc, host
      ensures Valid() && p == Run(Cfg(), old(p), ops)
    {
      var i := 0;
      while i < |ops|
        invariant 0 <= i <= |ops| && Valid()
        invariant Run(Cfg(), p, ops[i..]) == Run(Cfg(), old(p), ops)
      {
        assert ops[i..][0] == ops[i] && ops[i..][1..] == ops[i + 1..];
        match ops[i] {
          case Happens(e) => Happens(e);
          case Work(env) => TxWork(env);
          case TxIrq => IrqTx();
        }
        i := i + 1;
      }
    }

    /**
     A fresh device, driven in any way: the frames of each queue are neither lost nor duplicated nor
     reordered, nothing is ever dropped, and no ring fills if mac80211 respects stopped queues.
     */
    method ExecuteFresh(ops: seq<Op>)
      requires Valid() && p == TxProtocol.Init(Cfg())
      modifies this, head, tail, free, desc, host
      ensures Valid() && Conserved(Cfg(), p) && NoDrops(p)
      ensures polite ==> AtMost(p, TX_CNT - 1)
    {
      EveryRunConserves(Cfg(), ops);
      NeverGuardedIfPolite(Cfg(), p, ops);
      RunDropsIff(Cfg(), p, ops);
      if polite {
        PoliteRunsNeverFill(Cfg(), p, ops);
      }
      Execute(ops);
    }
  }
}
