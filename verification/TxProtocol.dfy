/**
 The transmit protocol between mac80211, the driver and the card, as a state machine over values.

 A frame waits in `tx_queue`, occupies a descriptor of the ring of its hardware queue until the card
 has finished it and the driver has cleaned it, and is then settled: reported upward, or dropped by
 the emergency clean. Every section that the driver runs under its mutex is one step, except that
 frames may arrive and the card may finish descriptors between two rounds of the sending loop.
 */
module TxProtocol {
  import opened Words
  import opened TxPool

  const TX_CNT: nat := 16
  const TX_STOP_QUEUE: nat := 3
  const TX_START_QUEUE: nat := 5
  const ACX_TX_QUEUE_MAX_LENGTH: nat := 20
  /** Failed attempts on a full ring that only try to wake the card up. */
  const WAKE_ATTEMPTS: nat := 10

  datatype Frame = Frame(data: seq<Byte>, encrypted: bool, noAck: bool, id: int)

  /** What the card writes back into a descriptor. */
  datatype TxStatus = TxStatus(error: Byte, ackFailures: Byte)

  datatype Completion = Pending | Done(status: TxStatus)

  /** A descriptor between submission and cleaning. */
  datatype Entry = Entry(frame: Frame, completion: Completion)

  /** `ieee80211_tx_status`: the acknowledgement flag and the try count of the first rate. */
  datatype Outcome = Reported(frame: Frame, acked: bool, count: nat) | Dropped(frame: Frame)

  /**
   The device: MEM devices keep frames in a pool of `blocks` blocks of `blockSize` bytes. With `polite`,
   mac80211 never hands over a frame while the queues are stopped.
   */
  datatype Config = Config(isMem: bool, queues: nat, encrypt: bool, blockSize: nat, blocks: nat, polite: bool) {
    predicate Ok() {
      && 1 <= queues && (encrypt ==> 2 <= queues)
      && (isMem ==> queues == 1)
      && 4 < blockSize
    }
  }

  datatype Pipe = Pipe(
    waiting: seq<Frame>,
    flight: seq<seq<Entry>>,
    settled: seq<seq<Outcome>>,
    enqueued: seq<Frame>,
    blocksFree: nat,
    attempts: nat,
    stopped: bool,
    scheduled: bool)

  /** What happens beside the driver's own work. */
  datatype Event = Arrival(f: Frame) | Completed(q: nat, d: nat, status: TxStatus)

  /** `acx_tx_work` with the events before each round of its loop; the Tx part of `acx_irq_work`. */
  datatype Op = Happens(e: Event) | Work(env: nat -> seq<Event>) | TxIrq

  /** The queue of a frame: encrypted frames go to queue 1 if the card encrypts. */
  function QueueOf(c: Config, f: Frame): (q: nat)
    requires c.Ok()
    ensures q < c.queues
  {
    if f.encrypted && c.encrypt then 1 else 0
  }

  /** Ring q has a free descriptor count within its size, for every queue. */
  predicate WellFormed(c: Config, p: Pipe) {
    && c.Ok()
    && |p.flight| == c.queues && |p.settled| == c.queues
    && forall q :: 0 <= q < c.queues ==> |p.flight[q]| <= TX_CNT
  }

  /** Every ring holds at most k descriptors. */
  predicate AtMost(p: Pipe, k: nat) {
    forall q :: 0 <= q < |p.flight| ==> |p.flight[q]| <= k
  }

  function Init(c: Config): (p: Pipe)
    requires c.Ok()
    ensures WellFormed(c, p)
  {
    Pipe([], seq(c.queues, _ => []), seq(c.queues, _ => []), [], c.blocks, 0, false, false)
  }

  function BlocksFor(c: Config, f: Frame): nat
    requires c.Ok()
  {
    if c.isMem then Needed(c.blockSize, |f.data|) else 0
  }

  function ReportOf(f: Frame, s: TxStatus): Outcome {
    Reported(f, !f.noAck && s.error / 16 % 4 == 0, s.ackFailures + 1)
  }

  function Drops(es: seq<Entry>): (r: seq<Outcome>)
    ensures |r| == |es|
  {
    seq(|es|, i requires 0 <= i < |es| => Dropped(es[i].frame))
  }

  /** `acx_clean_txdesc_emergency`: every outstanding frame of queue 0 is forgotten. */
  function Emergency(c: Config, p: Pipe): (r: Pipe)
    requires WellFormed(c, p)
    ensures WellFormed(c, r)
  {
    p.(flight := p.flight[0 := []],
       settled := p.settled[0 := p.settled[0] + Drops(p.flight[0])],
       blocksFree := c.blocks)
  }

  /** `acx_tx_frame`: submit a frame, or fail with EBUSY. */
  function TxFrame(c: Config, p: Pipe, f: Frame): (r: (Pipe, bool))
    requires WellFormed(c, p)
    ensures WellFormed(c, r.0)
  {
    var q := QueueOf(c, f);
    if |p.flight[q]| == TX_CNT then
      if !c.isMem then (p, false)
      else if p.attempts < WAKE_ATTEMPTS then (p.(attempts := p.attempts + 1), false)
      else (Emergency(c, p.(attempts := 0)), false)
    else if BlocksFor(c, f) > p.blocksFree then (p.(stopped := true), false)
    else
      (p.(flight := p.flight[q := p.flight[q] + [Entry(f, Pending)]],
          blocksFree := p.blocksFree - BlocksFor(c, f)), true)
  }

  /** `acx_op_tx`, or the card finishing a submitted descriptor, in any order. */
  function Happen(c: Config, p: Pipe, e: Event): (r: Pipe)
    requires WellFormed(c, p)
    ensures WellFormed(c, r)
    ensures forall q :: 0 <= q < c.queues ==> |r.flight[q]| == |p.flight[q]|
  {
    match e
    case Arrival(f) =>
      if c.polite && p.stopped then p
      else p.(waiting := p.waiting + [f], enqueued := p.enqueued + [f], scheduled := true,
              stopped := p.stopped || |p.waiting| + 1 >= ACX_TX_QUEUE_MAX_LENGTH)
    case Completed(q, d, status) =>
      if q < c.queues && d < |p.flight[q]| && p.flight[q][d].completion.Pending?
      then p.(flight := p.flight[q := p.flight[q][d := p.flight[q][d].(completion := Done(status))]])
      else p
  }

  function HappenAll(c: Config, p: Pipe, es: seq<Event>): (r: Pipe)
    requires WellFormed(c, p)
    ensures WellFormed(c, r)
    ensures forall q :: 0 <= q < c.queues ==> |r.flight[q]| == |p.flight[q]|
    decreases |es|
  {
    if es == [] then p else HappenAll(c, Happen(c, p, es[0]), es[1..])
  }

  function Outstanding(flight: seq<seq<Entry>>): nat {
    if flight == [] then 0 else |flight[0]| + Outstanding(flight[1..])
  }

  /** Free descriptors of all rings: the measure of the sending loop. */
  function TotalFree(c: Config, p: Pipe): (n: nat)
    requires WellFormed(c, p)
  {
    OutstandingBound(p.flight);
    TX_CNT * c.queues - Outstanding(p.flight)
  }

  lemma {:induction false} OutstandingBound(flight: seq<seq<Entry>>)
    requires forall q :: 0 <= q < |flight| ==> |flight[q]| <= TX_CNT
    ensures Outstanding(flight) <= TX_CNT * |flight|
  {
    if flight == [] {
    } else {
      OutstandingBound(flight[1..]);
    }
  }

  lemma {:induction false} OutstandingOfUpdate(flight: seq<seq<Entry>>, q: nat, es: seq<Entry>)
    requires q < |flight|
    ensures Outstanding(flight[q := es]) == Outstanding(flight) - |flight[q]| + |es|
  {
    if q == 0 {
      assert flight[q := es][1..] == flight[1..];
    } else {
      assert flight[q := es][1..] == flight[1..][q - 1 := es];
      OutstandingOfUpdate(flight[1..], q - 1, es);
    }
  }

  lemma {:induction false} OutstandingOfLengths(f: seq<seq<Entry>>, f': seq<seq<Entry>>)
    requires |f| == |f'| && forall q :: 0 <= q < |f| ==> |f[q]| == |f'[q]|
    ensures Outstanding(f) == Outstanding(f')
  {
    if f == [] {
    } else {
      assert |f[0]| == |f'[0]|;
      assert forall q :: 0 <= q < |f[1..]| ==> |f[1..][q]| == |f[q + 1]| == |f'[q + 1]|;
      OutstandingOfLengths(f[1..], f'[1..]);
    }
  }

  /** A frame that is sent takes one free descriptor; arrivals and completions take none. */
  lemma SendingUsesADescriptor(c: Config, p: Pipe, es: seq<Event>)
    requires WellFormed(c, p)
    ensures var p1 := HappenAll(c, p, es);
            p1.waiting != [] ==>
              var (p2, sent) := TxFrame(c, p1.(waiting := p1.waiting[1..]), p1.waiting[0]);
              sent ==> TotalFree(c, p2) < TotalFree(c, p)
  {
    var p1 := HappenAll(c, p, es);
    OutstandingOfLengths(p.flight, p1.flight);
    if p1.waiting != [] {
      var q := QueueOf(c, p1.waiting[0]);
      OutstandingOfUpdate(p1.flight, q, p1.flight[q] + [Entry(p1.waiting[0], Pending)]);
    }
  }

  /** `acx_is_hw_tx_queue_stop_limit` */
  predicate StopLimit(p: Pipe)
    requires AtMost(p, TX_CNT)
  {
    exists q :: 0 <= q < |p.flight| && TX_CNT - |p.flight[q]| < TX_STOP_QUEUE
  }

  /** `acx_is_hw_tx_queue_start_limit` */
  predicate StartLimit(p: Pipe)
    requires AtMost(p, TX_CNT)
  {
    forall q :: 0 <= q < |p.flight| ==> TX_CNT - |p.flight[q]| >= TX_START_QUEUE
  }

  /**
   One round of the sending loop: take the first waiting frame and send it. On EBUSY the frame goes
   back to the head of the queue. The second result says whether the loop goes on.
   */
  function Round(c: Config, p: Pipe): (r: (Pipe, bool))
    requires WellFormed(c, p) && p.waiting != []
    ensures WellFormed(c, r.0)
  {
    var f := p.waiting[0];
    var (p1, sent) := TxFrame(c, p.(waiting := p.waiting[1..]), f);
    if !sent then (p1.(stopped := true, waiting := [f] + p1.waiting), false)
    else if StopLimit(p1) then (p1.(stopped := true), false)
    else (p1, true)
  }

  /**
   `acx_tx_queue_go` on PCI and MEM devices: env(n) happens before round n takes a frame. The loop ends
   however many frames keep arriving, because every further round has used up a free descriptor; then
   nothing waits, or the queues are stopped.
   */
  function QueueGo(c: Config, p: Pipe, env: nat -> seq<Event>, n: nat): (r: Pipe)
    requires WellFormed(c, p)
    ensures WellFormed(c, r) && (r.waiting == [] || r.stopped)
    decreases TotalFree(c, p)
  {
    var p1 := HappenAll(c, p, env(n));
    if p1.waiting == [] then p1
    else
      SendingUsesADescriptor(c, p, env(n));
      var (p2, more) := Round(c, p1);
      if more then QueueGo(c, p2, env, n + 1) else p2
  }

  /** `acx_tx_work`: runs only if it has been scheduled; it may be scheduled again while it runs. */
  function TxWork(c: Config, p: Pipe, env: nat -> seq<Event>): (r: Pipe)
    requires WellFormed(c, p)
    ensures WellFormed(c, r)
  {
    if p.scheduled then QueueGo(c, p.(scheduled := false), env, 0) else p
  }

  predicate TailDone(c: Config, p: Pipe, q: nat)
    requires WellFormed(c, p) && q < c.queues
  {
    p.flight[q] != [] && p.flight[q][0].completion.Done?
  }

  /** One round of the clean loop: report the frame at the tail and free its descriptor and blocks. */
  function SettleTail(c: Config, p: Pipe, q: nat): (r: Pipe)
    requires WellFormed(c, p) && q < c.queues && TailDone(c, p, q)
    ensures WellFormed(c, r)
  {
    var e := p.flight[q][0];
    p.(flight := p.flight[q := p.flight[q][1..]],
       settled := p.settled[q := p.settled[q] + [ReportOf(e.frame, e.completion.status)]],
       blocksFree := p.blocksFree + BlocksFor(c, e.frame))
  }

  function SettleDone(c: Config, p: Pipe, q: nat): (r: Pipe)
    requires WellFormed(c, p) && q < c.queues
    ensures WellFormed(c, r)
    decreases |p.flight[q]|
  {
    if TailDone(c, p, q) then SettleDone(c, SettleTail(c, p, q), q) else p
  }

  /** `acx_tx_clean_txdesc`: on a full ring head equals tail, and the loop does not start. */
  function CleanQueue(c: Config, p: Pipe, q: nat): (r: Pipe)
    requires WellFormed(c, p) && q < c.queues
    ensures WellFormed(c, r)
  {
    if |p.flight[q]| == TX_CNT then p else SettleDone(c, p, q)
  }

  function CleanFrom(c: Config, p: Pipe, q: nat): (r: Pipe)
    requires WellFormed(c, p) && q <= c.queues
    ensures WellFormed(c, r)
    decreases c.queues - q
  {
    if q == c.queues then p else CleanFrom(c, CleanQueue(c, p, q), q + 1)
  }

  /** The Tx part of `acx_irq_work`. */
  function Irq(c: Config, p: Pipe): (r: Pipe)
    requires WellFormed(c, p)
    ensures WellFormed(c, r)
  {
    var p1 := CleanFrom(c, p, 0);
    if StartLimit(p1) && p1.stopped then p1.(stopped := false, scheduled := true) else p1
  }

  function Step(c: Config, p: Pipe, op: Op): (r: Pipe)
    requires WellFormed(c, p)
    ensures WellFormed(c, r)
  {
    match op
    case Happens(e) => Happen(c, p, e)
    case Work(env) => TxWork(c, p, env)
    case TxIrq => Irq(c, p)
  }

  function Run(c: Config, p: Pipe, ops: seq<Op>): (r: Pipe)
    requires WellFormed(c, p)
    ensures WellFormed(c, r)
    decreases |ops|
  {
    if ops == [] then p else Run(c, Step(c, p, ops[0]), ops[1..])
  }

  // ---- One queue ----

  /** The stop limit of a device with one queue. */
  lemma OneQueueStops(p: Pipe)
    requires |p.flight| == 1 && |p.flight[0]| <= TX_CNT
    ensures StopLimit(p) <==> TX_CNT - |p.flight[0]| < TX_STOP_QUEUE
  {
  }

  /** The Tx part of the interrupt handler on a device with one queue. */
  lemma OneQueueIrq(c: Config, p: Pipe)
    requires WellFormed(c, p) && c.queues == 1
    ensures var p1 := CleanQueue(c, p, 0);
            Irq(c, p) ==
              if TX_CNT - |p1.flight[0]| >= TX_START_QUEUE && p1.stopped
              then p1.(stopped := false, scheduled := true) else p1
  {
    var p1 := CleanQueue(c, p, 0);
    assert CleanFrom(c, p, 0) == p1;
    assert StartLimit(p1) <==> TX_CNT - |p1.flight[0]| >= TX_START_QUEUE;
  }

  /** One round of the clean loop, and its end. */
  lemma CleanRound(c: Config, p: Pipe, q: nat)
    requires WellFormed(c, p) && q < c.queues
    ensures TailDone(c, p, q) ==> SettleDone(c, p, q) == SettleDone(c, SettleTail(c, p, q), q)
    ensures !TailDone(c, p, q) ==> SettleDone(c, p, q) == p
  {
  }
}
