/**
 Receiving and transmitting on a USB device (usb.c): the status records that come out of the received
 stream free the transmit slots of the frames they are about.
 */
module UsbDevice {
  import opened Words
  import opened TxProtocol
  import opened TxTheorems
  import opened UsbRx
  import opened UsbTx

  /** `usb_txstatus_t.hostdata`: the slot that the driver has put into the frame's header. */
  function SlotOf(r: Record): nat
    requires r.TxStat?
  {
    Pack(r.bytes[4], r.bytes[5], r.bytes[6], r.bytes[7])
  }

  /** A record that gives back the number that the driver has put into the header of slot k names that slot. */
  lemma NamesSlot(r: Record, k: nat)
    requires r.TxStat? && k < ACX_TX_URB_CNT
    ensures SlotOf(r) == k <==> r.bytes[4..8] == [k as Byte, 0, 0, 0]
  {
    SmallNumber(r.bytes[4..8], k);
  }

  /** The slots that the status records of a stream name, in order. */
  function Slots(records: seq<Record>): seq<nat>
  {
    if records == [] then []
    else
      var rest := Slots(records[..|records| - 1]);
      var r := records[|records| - 1];
      if r.TxStat? then rest + [SlotOf(r)] else rest
  }

  /** The device names slots that exist. */
  predicate Known(records: seq<Record>)
  {
    forall i :: 0 <= i < |records| && records[i].TxStat? ==> SlotOf(records[i]) < ACX_TX_URB_CNT
  }

  /** The slots left busy after status records for the given slots. */
  function Freed(busy: seq<bool>, slots: seq<nat>): (r: seq<bool>)
    ensures |r| == |busy|
  {
    if slots == [] then busy
    else
      var b := Freed(busy, slots[..|slots| - 1]);
      var k := slots[|slots| - 1];
      if k < |b| then b[k := false] else b
  }

  /** The number of status records for slots that are not busy when their record comes. */
  function Strays(busy: seq<bool>, slots: seq<nat>): nat {
    if slots == [] then 0
    else
      var b := Freed(busy, slots[..|slots| - 1]);
      var k := slots[|slots| - 1];
      Strays(busy, slots[..|slots| - 1]) + if k < |b| && b[k] then 0 else 1
  }

  /** What mac80211 is told of the frame in the slot of a status record; byte 9 is `ack_failures`. */
  function ReportOf(skb: seq<Frame>, r: Record): Outcome
    requires |skb| == ACX_TX_URB_CNT && r.TxStat? && SlotOf(r) < ACX_TX_URB_CNT
  {
    var f := skb[SlotOf(r)];
    Reported(f, !f.noAck, r.bytes[9] as nat + 1)
  }

  lemma {:induction false} FreedAt(busy: seq<bool>, slots: seq<nat>, j: nat)
    requires j < |busy|
    ensures Freed(busy, slots)[j] == (busy[j] && j !in slots)
  {
    if slots == [] {
    } else {
      var init := slots[..|slots| - 1];
      FreedAt(busy, init, j);
      assert slots == init + [slots[|slots| - 1]];
    }
  }

  predicate AllDiffer(slots: seq<nat>) {
    forall i, j :: 0 <= i < j < |slots| ==> slots[i] != slots[j]
  }

  predicate AllTaken(busy: seq<bool>, slots: seq<nat>) {
    forall i :: 0 <= i < |slots| ==> slots[i] < |busy| && busy[slots[i]]
  }

  /** There are no strays exactly if the named slots are busy at the start and none is named twice. */
  lemma {:induction false} NoStraysIff(busy: seq<bool>, slots: seq<nat>)
    ensures Strays(busy, slots) == 0 <==> AllTaken(busy, slots) && AllDiffer(slots)
  {
    if slots == [] {
    } else {
      var init, k := slots[..|slots| - 1], slots[|slots| - 1];
      NoStraysIff(busy, init);
      if k < |busy| {
        FreedAt(busy, init, k);
      }
      if k in init {
        var i :| 0 <= i < |init| && init[i] == k;
        assert slots[i] == slots[|slots| - 1];
      } else {
        assert AllDiffer(slots) <==> AllDiffer(init);
      }
    }
  }

  /** The reports that the status records of a stream lead to. */
  function ReportsOf(skb: seq<Frame>, records: seq<Record>): seq<Outcome>
    requires |skb| == ACX_TX_URB_CNT && Known(records)
  {
    if records == [] then []
    else
      var rest := ReportsOf(skb, records[..|records| - 1]);
      var r := records[|records| - 1];
      if r.TxStat?
      then rest + [ReportOf(skb, r)]
      else rest
  }

  /** One more record. */
  lemma NextSlot(records: seq<Record>, r: Record)
    ensures Slots(records + [r]) == if r.TxStat? then Slots(records) + [SlotOf(r)] else Slots(records)
  {
    assert (records + [r])[..|records|] == records;
  }

  lemma OneFreed(busy: seq<bool>, slots: seq<nat>, slot: nat)
    requires slot < |busy|
    ensures Freed(busy, slots + [slot]) == Freed(busy, slots)[slot := false]
    ensures Strays(busy, slots + [slot]) == Strays(busy, slots) + if Freed(busy, slots)[slot] then 0 else 1
  {
    assert (slots + [slot])[..|slots|] == slots;
  }

  lemma NextReport(skb: seq<Frame>, records: seq<Record>, r: Record)
    requires |skb| == ACX_TX_URB_CNT && Known(records) && (r.TxStat? ==> SlotOf(r) < ACX_TX_URB_CNT)
    ensures Known(records + [r])
    ensures ReportsOf(skb, records + [r]) == ReportsOf(skb, records) +
            if r.TxStat? then [Reported(skb[SlotOf(r)], !skb[SlotOf(r)].noAck, r.bytes[9] as nat + 1)] else []
  {
    assert (records + [r])[..|records|] == records;
  }

  /** The slots, the reports and the mac80211 queues before a stream of records. */
  datatype Start = Start(busy: seq<bool>, reports: seq<Outcome>, stopped: bool, scheduled: bool)

  /**
   The state of tx once records have been handled, when it was s with no excess before: their slots have been
   freed and their frames reported, and stopped queues are woken exactly if five slots were free behind one.
   */
  ghost predicate Handled(tx: UsbTxQueue, s: Start, records: seq<Record>)
    reads tx, tx.busy, tx.skb, tx.hostdata
  {
    && tx.Shape() && |s.busy| == ACX_TX_URB_CNT && Known(records)
    && tx.busy[..] == Freed(s.busy, Slots(records))
    && tx.Excess() == Strays(s.busy, Slots(records))
    && tx.reports == s.reports + ReportsOf(tx.skb[..], records)
    && tx.stopped == (s.stopped && (Slots(records) == [] || tx.free < 5))
    && tx.scheduled == (s.scheduled || (s.stopped && !tx.stopped))
    && (Strays(s.busy, Slots(records)) == 0 ==> tx.Valid())
  }

  /** The tx-status part of `acxusb_complete_rx` for record k of a stream. */
  method HandleRecord(tx: UsbTxQueue, ghost s: Start, records: seq<Record>, k: nat)
    requires Known(records) && k < |records|
    requires Handled(tx, s, records[..k])
    modifies tx`free, tx`reports, tx`stopped, tx`scheduled, tx.busy
    ensures Handled(tx, s, records[..k + 1])
  {
    var r := records[k];
    ghost var before := records[..k];
    assert records[..k + 1] == before + [r];
    NextSlot(before, r);
    NextReport(tx.skb[..], before, r);
    ghost var sent := ReportsOf(tx.skb[..], before);
    if r.TxStat? {
      var slot := SlotOf(r);
      OneFreed(s.busy, Slots(before), slot);
      Regroup(s.reports, sent, ReportsOf(tx.skb[..], before + [r])[|sent|..]);
      assert tx.busy[slot] == Freed(s.busy, Slots(before))[slot];
      tx.TxStatus(slot, r.bytes[9] as nat);
    }
  }

  /** The slots are in order exactly if there have been no strays. */
  lemma ValidIff(tx: UsbTxQueue, s: Start, records: seq<Record>)
    requires Handled(tx, s, records)
    ensures tx.Valid() <==> Strays(s.busy, Slots(records)) == 0
  {
  }

  /** The status records from record `start` on. */
  method HandleFrom(tx: UsbTxQueue, ghost s: Start, records: seq<Record>, start: nat)
    requires Known(records) && start <= |records|
    requires Handled(tx, s, records[..start])
    modifies tx`free, tx`reports, tx`stopped, tx`scheduled, tx.busy
    ensures Handled(tx, s, records)
  {
    var k := start;
    while k < |records|
      invariant start <= k <= |records| && Handled(tx, s, records[..k])
    {
      HandleRecord(tx, s, records, k);
      k := k + 1;
    }
    assert records[..k] == records;
  }

  /**
   Completes a transfer, and handles the status records that it brings; frames and status records of a
   transfer do not touch each other's state.
   */
  method CompleteUrb(rx: UsbReceiver, tx: UsbTxQueue, urb: Urb, inbuf: array<Byte>, ghost s: Start)
    requires rx.Valid() && inbuf != rx.rxtruncbuf && |urb.data| <= inbuf.Length && inbuf[..|urb.data|] == urb.data
    requires Handled(tx, s, rx.handled)
    requires Known(rx.handled + UsbRx.Completion(rx.Held(), urb).records)
    modifies rx, rx.rxtruncbuf, tx`free, tx`reports, tx`stopped, tx`scheduled, tx.busy
    ensures rx.Valid() && Handled(tx, s, rx.handled)
    ensures var r := UsbRx.Completion(old(rx.Held()), urb);
      rx.handled == old(rx.handled) + r.records && rx.Held() == r.rest
  {
    ghost var before := rx.handled;
    var start := |rx.handled|;
    rx.CompleteRx(urb, inbuf);
    assert rx.handled[..start] == before;
    HandleFrom(tx, s, rx.handled, start);
  }

  /** Transfer k of a stream, which the host controller puts into the buffer first. */
  method CompleteNext(rx: UsbReceiver, tx: UsbTxQueue, urbs: seq<Urb>, k: nat, inbuf: array<Byte>,
                      ghost s: Start)
    requires k < |urbs| && |urbs[k].data| <= inbuf.Length && Known(Completions(urbs).records)
    requires rx.Valid() && inbuf != rx.rxtruncbuf && Handled(tx, s, rx.handled)
    requires Parsed(rx.handled, rx.Held()) == Completions(urbs[..k])
    modifies rx, rx.rxtruncbuf, inbuf, tx`free, tx`reports, tx`stopped, tx`scheduled, tx.busy
    ensures rx.Valid() && Handled(tx, s, rx.handled)
    ensures Parsed(rx.handled, rx.Held()) == Completions(urbs[..k + 1])
  {
    NextKnown(urbs, k);
    CompletionsNext(urbs, k);
    Receive(inbuf, urbs[k].data);
    CompleteUrb(rx, tx, urbs[k], inbuf, s);
  }

  /**
   A whole stream: besides what the receiver does, every status record reports and frees its slot, and the
   bookkeeping of the slots survives exactly if the records name busy slots, none of them twice.
   */
  method CompleteUrbs(rx: UsbReceiver, tx: UsbTxQueue, urbs: seq<Urb>, inbuf: array<Byte>)
    requires rx.Valid() && rx.Held() == [] && rx.handled == [] && inbuf != rx.rxtruncbuf && tx.Valid()
    requires forall i :: 0 <= i < |urbs| ==> |urbs[i].data| <= inbuf.Length
    requires Known(Completions(urbs).records)
    modifies rx, rx.rxtruncbuf, inbuf, tx`free, tx`reports, tx`stopped, tx`scheduled, tx.busy
    ensures rx.Valid() && Parsed(rx.handled, rx.Held()) == Completions(urbs)
    ensures var slots := Slots(Completions(urbs).records);
      && tx.busy[..] == Freed(old(tx.busy[..]), slots)
      && tx.reports == old(tx.reports) + ReportsOf(old(tx.skb[..]), Completions(urbs).records)
      && tx.stopped == (old(tx.stopped) && (slots == [] || tx.free < 5))
      && tx.scheduled == (old(tx.scheduled) || (old(tx.stopped) && !tx.stopped))
      && (tx.Valid() <==> AllTaken(old(tx.busy[..]), slots) && AllDiffer(slots))
  {
    ghost var s := Start(tx.busy[..], tx.reports, tx.stopped, tx.scheduled);
    assert s.reports + [] == s.reports;
    var k := 0;
    while k < |urbs|
      invariant 0 <= k <= |urbs| && rx.Valid() && Parsed(rx.handled, rx.Held()) == Completions(urbs[..k])
      invariant Handled(tx, s, rx.handled)
    {
      CompleteNext(rx, tx, urbs, k, inbuf, s);
      k := k + 1;
    }
    assert urbs[..k] == urbs;
    ValidIff(tx, s, rx.handled);
    NoStraysIff(s.busy, Slots(rx.handled));
  }

  /** What the first transfers lead to is a prefix of what all do. */
  lemma {:induction false} CompletionsGrow(urbs: seq<Urb>, k: nat)
    requires k <= |urbs|
    ensures Completions(urbs[..k]).records <= Completions(urbs).records
  {
    if k == |urbs| {
      assert urbs[..k] == urbs;
    } else {
      var init := urbs[..|urbs| - 1];
      CompletionsGrow(init, k);
      assert init[..k] == urbs[..k];
    }
  }

  lemma NextKnown(urbs: seq<Urb>, k: nat)
    requires k < |urbs| && Known(Completions(urbs).records)
    ensures Known(Completions(urbs[..k + 1]).records)
  {
    CompletionsGrow(urbs, k + 1);
    PrefixKnown(Completions(urbs[..k + 1]).records, Completions(urbs).records);
  }

  lemma PrefixKnown(records: seq<Record>, all: seq<Record>)
    requires records <= all && Known(all)
    ensures Known(records)
  {
    forall i | 0 <= i < |records| && records[i].TxStat?
      ensures SlotOf(records[i]) < ACX_TX_URB_CNT
    {
      assert records[i] == all[i];
    }
  }
}
