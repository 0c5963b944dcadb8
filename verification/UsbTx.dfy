/**
 The transmit slots of a USB device (usb.c): each frame on its way occupies one of eight slots until the
 device's status record for it arrives. Slots finish in any order, so frames are kept as a multiset.
 */
module UsbTx {
  import opened Words
  import opened TxProtocol
  import opened TxTheorems

  const ACX_TX_URB_CNT: nat := 8

  function FreeSlots(busy: seq<bool>): nat {
    if busy == [] then 0 else (if busy[0] then 0 else 1) + FreeSlots(busy[1..])
  }

  /** The frames in busy slots. */
  function Held(busy: seq<bool>, skb: seq<Frame>): multiset<Frame>
    requires |busy| == |skb|
  {
    if busy == [] then multiset{}
    else (if busy[0] then multiset{skb[0]} else multiset{}) + Held(busy[1..], skb[1..])
  }

  lemma {:induction false} FreeAfter(busy: seq<bool>, k: nat, b: bool)
    requires k < |busy|
    ensures FreeSlots(busy[k := b]) == FreeSlots(busy) + (if b then 0 else 1) - (if busy[k] then 0 else 1)
  {
    if k == 0 {
      assert busy[0 := b][1..] == busy[1..];
    } else {
      assert busy[k := b][1..] == busy[1..][k - 1 := b];
      FreeAfter(busy[1..], k - 1, b);
    }
  }

  lemma {:induction false} AllBusy(busy: seq<bool>)
    ensures FreeSlots(busy) == 0 <==> forall k :: 0 <= k < |busy| ==> busy[k]
    ensures FreeSlots(busy) <= |busy|
  {
    if busy == [] {
    } else {
      AllBusy(busy[1..]);
      assert forall k :: 0 < k < |busy| ==> busy[k] == busy[1..][k - 1];
    }
  }

  lemma {:induction false} HeldBesides(busy: seq<bool>, skb: seq<Frame>, k: nat)
    requires |busy| == |skb| && k < |busy|
    ensures Held(busy, skb) == Held(busy[k := false], skb) + if busy[k] then multiset{skb[k]} else multiset{}
  {
    if k == 0 {
      assert busy[0 := false][1..] == busy[1..];
    } else {
      assert busy[k := false][1..] == busy[1..][k - 1 := false];
      HeldBesides(busy[1..], skb[1..], k - 1);
    }
  }

  lemma {:induction false} HeldIgnores(busy: seq<bool>, skb: seq<Frame>, k: nat, f: Frame)
    requires |busy| == |skb| && k < |busy| && !busy[k]
    ensures Held(busy, skb[k := f]) == Held(busy, skb)
  {
    if k == 0 {
      assert skb[0 := f][1..] == skb[1..];
    } else {
      assert skb[k := f][1..] == skb[1..][k - 1 := f];
      HeldIgnores(busy[1..], skb[1..], k - 1, f);
    }
  }

  /** A free slot that takes a frame. */
  lemma HeldTaken(busy: seq<bool>, skb: seq<Frame>, k: nat, f: Frame)
    requires |busy| == |skb| && k < |busy| && !busy[k]
    ensures Held(busy[k := true], skb[k := f]) == Held(busy, skb) + multiset{f}
  {
    HeldIgnores(busy, skb, k, f);
    HeldBesides(busy[k := true], skb[k := f], k);
    assert busy[k := true][k := false] == busy;
  }

  /** The slot d places behind h: (h + d) % ACX_TX_URB_CNT. */
  function Place(h: nat, d: nat): (r: nat)
    requires h < ACX_TX_URB_CNT && d <= ACX_TX_URB_CNT
    ensures r == (h + d) % ACX_TX_URB_CNT
  {
    if h + d < 8 then h + d else h + d - 8
  }

  /** The distance from h to the first free slot from distance d on, or one more than there are slots. */
  function FirstFree(busy: seq<bool>, h: nat, d: nat): (r: nat)
    requires |busy| == ACX_TX_URB_CNT && h < ACX_TX_URB_CNT && d <= ACX_TX_URB_CNT + 1
    ensures d <= r <= ACX_TX_URB_CNT + 1
    ensures r <= ACX_TX_URB_CNT ==> !busy[Place(h, r)]
    ensures forall e :: d <= e < r ==> busy[Place(h, e)]
    decreases ACX_TX_URB_CNT + 1 - d
  {
    if d == ACX_TX_URB_CNT + 1 || !busy[Place(h, d)] then d else FirstFree(busy, h, d + 1)
  }

  /** The search fails just if every slot is busy. */
  lemma NoneFree(busy: seq<bool>, h: nat)
    requires |busy| == ACX_TX_URB_CNT && h < ACX_TX_URB_CNT
    ensures FirstFree(busy, h, 1) == ACX_TX_URB_CNT + 1 <==> FreeSlots(busy) == 0
  {
    AllBusy(busy);
    if FirstFree(busy, h, 1) == ACX_TX_URB_CNT + 1 {
      forall k | 0 <= k < |busy|
        ensures busy[k]
      {
        var d := if k > h then k - h else k + 8 - h;
        assert Place(h, d) == k;
      }
    }
  }

  lemma TakenAndFreed(busy: seq<bool>, k: nat)
    requires k < |busy| && !busy[k]
    ensures busy[k := true][k := false] == busy
  {
  }

  lemma {:induction false} Unused(busy: seq<bool>, skb: seq<Frame>)
    requires |busy| == |skb| && forall k :: 0 <= k < |busy| ==> !busy[k]
    ensures FreeSlots(busy) == |busy| && Held(busy, skb) == multiset{}
  {
    if busy == [] {
    } else {
      Unused(busy[1..], skb[1..]);
    }
  }

  lemma SmallNumber(bs: seq<Byte>, k: nat)
    requires |bs| == 4 && k < 0x100
    ensures Pack(bs[0], bs[1], bs[2], bs[3]) == k <==> bs == [k as Byte, 0, 0, 0]
  {
    if Pack(bs[0], bs[1], bs[2], bs[3]) == k {
      assert bs[3] == 0 && bs[2] == 0 && bs[1] == 0 && bs[0] == k;
    }
  }

  /**
   `free` counts the free slots, and no frame is lost sight of: what has been taken is what was reported,
   what could not be submitted, and what is in busy slots.
   */
  predicate Booked(busy: seq<bool>, skb: seq<Frame>, hostdata: seq<seq<Byte>>, free: nat,
                   taken: multiset<Frame>, reported: multiset<Frame>, lost: multiset<Frame>)
  {
    && |busy| == |skb|
    && free == FreeSlots(busy)
    && Numbered(busy, hostdata)
    && taken == reported + lost + Held(busy, skb)
  }

  /** Freeing a slot and reporting its frame keeps the books just if the slot was busy. */
  lemma FreeingIff(busy: seq<bool>, skb: seq<Frame>, hostdata: seq<seq<Byte>>, free: nat,
                   taken: multiset<Frame>, reported: multiset<Frame>, lost: multiset<Frame>, k: nat)
    requires Booked(busy, skb, hostdata, free, taken, reported, lost) && k < |busy|
    ensures Booked(busy[k := false], skb, hostdata, free + 1, taken, reported + multiset{skb[k]}, lost) <==> busy[k]
  {
    FreeAfter(busy, k, false);
    HeldBesides(busy, skb, k);
  }

  /** A 32-bit number as it lies in a little-endian memory. */
  function Laid(x: Word): (bs: seq<Byte>)
    ensures |bs| == 4 && x == Pack(bs[0], bs[1], bs[2], bs[3])
  {
    PackBytes(x);
    [ByteOf(x, 0), ByteOf(x, 1), ByteOf(x, 2), ByteOf(x, 3)]
  }

  /** The header of every busy slot carries the number of the slot. */
  predicate Numbered(busy: seq<bool>, hostdata: seq<seq<Byte>>) {
    |busy| == |hostdata| <= 0x100 && forall k :: 0 <= k < |busy| && busy[k] ==> hostdata[k] == [k as Byte, 0, 0, 0]
  }

  lemma NumberedTaken(busy: seq<bool>, hostdata: seq<seq<Byte>>, k: nat)
    requires Numbered(busy, hostdata) && k < |busy|
    ensures Numbered(busy[k := true], hostdata[k := [k as Byte, 0, 0, 0]])
  {
  }

  class UsbTxQueue {
    /** usb_tx[k].busy, usb_tx[k].skb and the bytes of usb_tx[k].bulkout.hostdata */
    const busy: array<bool>
    const skb: array<Frame>
    const hostdata: array<seq<Byte>>
    var head: nat
    var free: nat
    /** Whether the mac80211 queues are stopped, and whether tx_work is scheduled. */
    var stopped: bool
    var scheduled: bool
    /** Frames the driver has taken, reports to mac80211, and frames whose transfer could not be submitted. */
    ghost var taken: multiset<Frame>
    ghost var reports: seq<Outcome>
    ghost var lost: multiset<Frame>

    constructor ()
      ensures Valid() && fresh(busy) && fresh(skb) && fresh(hostdata) && taken == lost == multiset{} && reports == []
    {
      busy := new bool[ACX_TX_URB_CNT](_ => false);
      skb := new Frame[ACX_TX_URB_CNT](_ => Frame([], false, false, 0));
      hostdata := new seq<Byte>[ACX_TX_URB_CNT](_ => [0, 0, 0, 0]);
      head, free, stopped, scheduled := 0, ACX_TX_URB_CNT, false, false;
      taken, reports, lost := multiset{}, [], multiset{};
      new;
      Unused(busy[..], skb[..]);
      assert FramesOf(reports) == [];
    }

    ghost predicate Shape()
      reads this
    {
      busy.Length == skb.Length == hostdata.Length == ACX_TX_URB_CNT && head < ACX_TX_URB_CNT
    }

    /** How far `free` is above the number of free slots. */
    ghost function Excess(): int
      reads this, busy
    {
      free - FreeSlots(busy[..])
    }

    /** The bookkeeping agrees with the slots. */
    ghost predicate Valid()
      reads this, busy, skb, hostdata
    {
      Shape() && Booked(busy[..], skb[..], hostdata[..], free, taken, multiset(FramesOf(reports)), lost)
    }

    /** Looks for the first free slot behind the head, in ring order; the head itself comes last. */
    method FindFree() returns (found: bool, h: nat)
      requires busy.Length == ACX_TX_URB_CNT && head < ACX_TX_URB_CNT
      ensures var d := FirstFree(busy[..], head, 1);
        found == (d <= ACX_TX_URB_CNT) && (found ==> h == Place(head, d))
    {
      ghost var b := busy[..];
      ghost var d: nat := 0;
      h := head;
      while true
        invariant d < ACX_TX_URB_CNT && h == Place(head, d)
        invariant FirstFree(b, head, d + 1) == FirstFree(b, head, 1)
        decreases ACX_TX_URB_CNT - d
      {
        h := (h + 1) % ACX_TX_URB_CNT;
        d := d + 1;
        assert h == Place(head, d) && busy[h] == b[h];
        if !busy[h] {
          return true, h;
        }
        if h == head {
          return false, h;
        }
      }
    }

    /** `acxusb_alloc_tx`: it fails just if every slot is busy, and then leaves everything as it was. */
    method AllocTx() returns (ok: bool, slot: nat)
      requires Valid()
      modifies this`head, this`free, busy
      ensures ok == (old(free) > 0)
      ensures var d := FirstFree(old(busy[..]), old(head), 1);
        ok == (d <= ACX_TX_URB_CNT) && (ok ==> slot == head == Place(old(head), d))
      ensures ok ==> busy[..] == old(busy[..])[slot := true] && free == old(free) - 1
      ensures !ok ==> busy[..] == old(busy[..]) && head == old(head) && free == old(free)
    {
      NoneFree(busy[..], head);
      ok, slot := FindFree();
      if ok {
        busy[slot] := true;
        free := free - 1;
        head := slot;
      }
    }

    /**
     `acx_tx_frame` with `acxusb_tx_data`; submitted is what usb_submit_urb says. The frame goes into the
     first free slot behind the head, which becomes the head.
     */
    method TxFrame(f: Frame, submitted: bool) returns (sent: bool)
      requires Valid()
      modifies this`head, this`free, this`taken, this`lost, busy, skb, hostdata
      ensures Valid() && sent == (old(free) > 0)
      ensures taken == old(taken) + if sent then multiset{f} else multiset{}
      ensures lost == old(lost) + if sent && !submitted then multiset{f} else multiset{}
      ensures free == old(free) - if sent && submitted then 1 else 0
      ensures var d := FirstFree(old(busy[..]), old(head), 1);
        if sent then d <= ACX_TX_URB_CNT && head == Place(old(head), d) && skb[head] == f else head == old(head)
      ensures busy[..] == if sent && submitted then old(busy[..])[head := true] else old(busy[..])
    {
      ghost var b := busy[..];
      sent := Take(f);
      if sent && !submitted {
        TakenAndFreed(b, head);
        GiveUp(head);
      }
    }

    /** The frame is taken into a free slot, if there is one. */
    method Take(f: Frame) returns (sent: bool)
      requires Valid()
      modifies this`head, this`free, this`taken, busy, skb, hostdata
      ensures Valid() && sent == (old(free) > 0)
      ensures taken == old(taken) + if sent then multiset{f} else multiset{}
      ensures free == old(free) - if sent then 1 else 0
      ensures var d := FirstFree(old(busy[..]), old(head), 1);
        if sent then d <= ACX_TX_URB_CNT && head == Place(old(head), d) && busy[head] && skb[head] == f
        else head == old(head)
      ensures busy[..] == if sent then old(busy[..])[head := true] else old(busy[..])
    {
      var slot;
      sent, slot := AllocTx();
      if sent {
        Fill(slot, f, old(busy[..]));
      }
    }

    /** The frame goes into the slot just allocated. */
    method Fill(slot: nat, f: Frame, ghost b: seq<bool>)
      requires Shape() && |b| == ACX_TX_URB_CNT && slot < ACX_TX_URB_CNT
      requires Numbered(b, hostdata[..])
      requires !b[slot] && busy[..] == b[slot := true] && free == FreeSlots(b) - 1
      requires taken == multiset(FramesOf(reports)) + lost + Held(b, skb[..])
      modifies this`taken, skb, hostdata
      ensures Valid() && taken == old(taken) + multiset{f}
      ensures busy[slot] && skb[slot] == f
    {
      FreeAfter(b, slot, true);
      HeldTaken(b, skb[..], slot, f);
      skb[slot] := f;
      PutNumber(slot, b);
      assert skb[..] == old(skb[..])[slot := f];
      taken := taken + multiset{f};
      assert busy[slot] == busy[..][slot];
    }

    /** `txbuf->hostdata = (u32) txnum` */
    method PutNumber(slot: nat, ghost b: seq<bool>)
      requires slot < hostdata.Length && Numbered(b, hostdata[..])
      modifies hostdata
      ensures Numbered(b[slot := true], hostdata[..])
    {
      NumberedTaken(b, hostdata[..], slot);
      SmallNumber(Laid(slot), slot);
      hostdata[slot] := Laid(slot);
      assert hostdata[..] == old(hostdata[..])[slot := [slot as Byte, 0, 0, 0]];
    }

    /** The transfer could not be submitted: the frame counts as sent, but is never reported. */
    method GiveUp(slot: nat)
      requires Valid() && slot < ACX_TX_URB_CNT && busy[slot]
      modifies this`free, this`lost, busy
      ensures busy[..] == old(busy[..])[slot := false]
      ensures Valid() && lost == old(lost) + multiset{skb[slot]} && free == old(free) + 1
    {
      FreeAfter(busy[..], slot, false);
      HeldBesides(busy[..], skb[..], slot);
      lost := lost + multiset{skb[slot]};
      busy[slot] := false;
      assert busy[..] == old(busy[..])[slot := false];
      free := free + 1;
    }

    /** Reports the frame of a slot and frees the slot. */
    method Release(slot: nat, ackFailures: nat)
      requires Shape() && slot < ACX_TX_URB_CNT
      modifies this`free, this`reports, busy
      ensures reports == old(reports) + [Reported(skb[slot], !skb[slot].noAck, ackFailures + 1)]
      ensures busy[..] == old(busy[..])[slot := false] && free == old(free) + 1
      ensures Shape() && Excess() == old(Excess()) + if old(busy[slot]) then 0 else 1
      ensures old(Valid()) ==> (Valid() <==> old(busy[slot]))
    {
      ghost var b0, f0, before := busy[..], free, FramesOf(reports);
      FreeAfter(b0, slot, false);
      if Valid() {
        FreeingIff(b0, skb[..], hostdata[..], f0, taken, multiset(before), lost, slot);
      }
      var report := Reported(skb[slot], !skb[slot].noAck, ackFailures + 1);
      assert FramesOf(reports + [report]) == FramesOf(reports) + [skb[slot]];
      reports := reports + [report];
      busy[slot] := false;
      free := free + 1;
      assert busy[..] == b0[slot := false];
    }

    /**
     A status record for a slot (`acxusb_complete_rx`): the frame is reported, the slot is free again, and
     the queues are woken if enough slots are. If the slot was not busy, the free count no longer is the
     number of free slots.
     */
    method TxStatus(slot: nat, ackFailures: nat)
      requires Shape() && slot < ACX_TX_URB_CNT
      modifies this`free, this`reports, this`stopped, this`scheduled, busy
      ensures reports == old(reports) + [Reported(skb[slot], !skb[slot].noAck, ackFailures + 1)]
      ensures busy[..] == old(busy[..])[slot := false] && free == old(free) + 1
      ensures var wakes := free >= TX_START_QUEUE && old(stopped);
        stopped == (old(stopped) && !wakes) && scheduled == (old(scheduled) || wakes)
      ensures Shape() && Excess() == old(Excess()) + if old(busy[slot]) then 0 else 1
      ensures old(Valid()) ==> (Valid() <==> old(busy[slot]))
    {
      Release(slot, ackFailures);
      if free >= TX_START_QUEUE && stopped {
        WakeQueue();
      }
    }

    /** `acx_wake_queue` and `ieee80211_queue_work` */
    method WakeQueue()
      requires Shape()
      modifies this`stopped, this`scheduled
      ensures !stopped && scheduled && Shape()
      ensures Excess() == old(Excess()) && Valid() == old(Valid())
    {
      stopped, scheduled := false, true;
    }
  }
}
