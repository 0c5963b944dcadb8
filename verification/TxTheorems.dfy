/** What holds of every run of the transmit protocol. */
module TxTheorems {
  import opened Words
  import opened TxPool
  import opened TxProtocol
  import opened Multiples

  // ---- Conservation ----

  /** The frames of a list that go to queue q, in order. */
  function ForQueue(c: Config, q: nat, fs: seq<Frame>): seq<Frame>
    requires c.Ok()
  {
    if fs == [] then []
    else (if QueueOf(c, fs[0]) == q then [fs[0]] else []) + ForQueue(c, q, fs[1..])
  }

  function FramesOf(os: seq<Outcome>): (r: seq<Frame>)
    ensures |r| == |os|
  {
    seq(|os|, i requires 0 <= i < |os| => os[i].frame)
  }

  function Flying(es: seq<Entry>): (r: seq<Frame>)
    ensures |r| == |es|
  {
    seq(|es|, i requires 0 <= i < |es| => es[i].frame)
  }

  /** Of queue q: what was handed over is what is settled, then what is outstanding, then what waits. */
  predicate ConservedOn(c: Config, p: Pipe, q: nat)
    requires WellFormed(c, p) && q < c.queues
  {
    ForQueue(c, q, p.enqueued) == FramesOf(p.settled[q]) + Flying(p.flight[q]) + ForQueue(c, q, p.waiting)
  }

  predicate Conserved(c: Config, p: Pipe)
    requires WellFormed(c, p)
  {
    forall q :: 0 <= q < c.queues ==> ConservedOn(c, p, q)
  }

  lemma {:induction false} ForQueueOfAppend(c: Config, q: nat, fs: seq<Frame>, f: Frame)
    requires c.Ok()
    ensures ForQueue(c, q, fs + [f]) == ForQueue(c, q, fs) + if QueueOf(c, f) == q then [f] else []
  {
    if fs == [] {
      assert fs + [f] == [f];
    } else {
      assert (fs + [f])[1..] == fs[1..] + [f];
      ForQueueOfAppend(c, q, fs[1..], f);
    }
  }

  lemma HappenConserves(c: Config, p: Pipe, e: Event)
    requires WellFormed(c, p) && Conserved(c, p)
    ensures Conserved(c, Happen(c, p, e))
  {
    var r := Happen(c, p, e);
    forall q | 0 <= q < c.queues
      ensures ConservedOn(c, r, q)
    {
      assert ConservedOn(c, p, q);
      if e.Arrival? {
        ForQueueOfAppend(c, q, p.waiting, e.f);
        ForQueueOfAppend(c, q, p.enqueued, e.f);
      } else {
        assert Flying(r.flight[q]) == Flying(p.flight[q]);
      }
    }
  }

  lemma {:induction false} HappenAllConserves(c: Config, p: Pipe, es: seq<Event>)
    requires WellFormed(c, p) && Conserved(c, p)
    ensures Conserved(c, HappenAll(c, p, es))
    decreases |es|
  {
    if es == [] {
    } else {
      HappenConserves(c, p, es[0]);
      HappenAllConserves(c, Happen(c, p, es[0]), es[1..]);
    }
  }

  lemma EmergencyConserves(c: Config, p: Pipe)
    requires WellFormed(c, p) && Conserved(c, p)
    ensures Conserved(c, Emergency(c, p))
  {
    var r := Emergency(c, p);
    forall q | 0 <= q < c.queues
      ensures ConservedOn(c, r, q)
    {
      assert ConservedOn(c, p, q);
      if q == 0 {
        assert FramesOf(r.settled[0]) == FramesOf(p.settled[0]) + Flying(p.flight[0]);
        assert Flying(r.flight[0]) == [];
      }
    }
  }

  lemma SubmitConserves(c: Config, p: Pipe)
    requires WellFormed(c, p) && Conserved(c, p) && p.waiting != []
    requires TxFrame(c, p.(waiting := p.waiting[1..]), p.waiting[0]).1
    ensures Conserved(c, TxFrame(c, p.(waiting := p.waiting[1..]), p.waiting[0]).0)
  {
    var f := p.waiting[0];
    var r := TxFrame(c, p.(waiting := p.waiting[1..]), f).0;
    forall q | 0 <= q < c.queues
      ensures ConservedOn(c, r, q)
    {
      assert ConservedOn(c, p, q);
      var rest := ForQueue(c, q, p.waiting[1..]);
      if q == QueueOf(c, f) {
        assert Flying(r.flight[q]) == Flying(p.flight[q]) + [f];
        Regroup(FramesOf(p.settled[q]) + Flying(p.flight[q]), [f], rest);
        Regroup(FramesOf(p.settled[q]), Flying(p.flight[q]), [f]);
      } else {
        assert r.flight[q] == p.flight[q];
        assert [] + rest == rest;
      }
    }
  }

  /** Taking a frame from the head of the queue and sending it, or failing and putting it back. */
  lemma RoundConserves(c: Config, p: Pipe)
    requires WellFormed(c, p) && Conserved(c, p) && p.waiting != []
    ensures var (r, sent) := TxFrame(c, p.(waiting := p.waiting[1..]), p.waiting[0]);
            Conserved(c, if sent then r else r.(waiting := [p.waiting[0]] + r.waiting))
  {
    var (r, sent) := TxFrame(c, p.(waiting := p.waiting[1..]), p.waiting[0]);
    if sent {
      SubmitConserves(c, p);
    } else {
      EmergencyConserves(c, p);
      assert [p.waiting[0]] + p.waiting[1..] == p.waiting;
      var r' := r.(waiting := [p.waiting[0]] + r.waiting);
      var e := Emergency(c, p);
      forall q | 0 <= q < c.queues
        ensures ConservedOn(c, r', q)
      {
        assert ConservedOn(c, p, q) && ConservedOn(c, e, q);
      }
    }
  }

  lemma {:induction false} QueueGoConserves(c: Config, p: Pipe, env: nat -> seq<Event>, n: nat)
    requires WellFormed(c, p) && Conserved(c, p)
    ensures Conserved(c, QueueGo(c, p, env, n))
    decreases TotalFree(c, p)
  {
    var p1 := HappenAll(c, p, env(n));
    HappenAllConserves(c, p, env(n));
    if p1.waiting == [] {
    } else {
      SendingUsesADescriptor(c, p, env(n));
      RoundConserves(c, p1);
      var (p2, sent) := TxFrame(c, p1.(waiting := p1.waiting[1..]), p1.waiting[0]);
      if sent && !StopLimit(p2) {
        QueueGoConserves(c, p2, env, n + 1);
      } else {
        ConservedIgnores(c, if sent then p2 else p2.(waiting := [p1.waiting[0]] + p2.waiting), true, p2.scheduled);
      }
    }
  }

  lemma ConservedIgnores(c: Config, p: Pipe, stopped: bool, scheduled: bool)
    requires WellFormed(c, p) && Conserved(c, p)
    ensures Conserved(c, p.(stopped := stopped, scheduled := scheduled))
  {
    var r := p.(stopped := stopped, scheduled := scheduled);
    forall q | 0 <= q < c.queues
      ensures ConservedOn(c, r, q)
    {
      assert ConservedOn(c, p, q);
    }
  }

  lemma {:induction false} SettleConserves(c: Config, p: Pipe, q: nat)
    requires WellFormed(c, p) && Conserved(c, p) && q < c.queues
    ensures Conserved(c, SettleDone(c, p, q))
    decreases |p.flight[q]|
  {
    if !TailDone(c, p, q) {
    } else {
      var r := SettleTail(c, p, q);
      forall q' | 0 <= q' < c.queues
        ensures ConservedOn(c, r, q')
      {
        assert ConservedOn(c, p, q');
        if q' == q {
          assert FramesOf(r.settled[q]) == FramesOf(p.settled[q]) + [p.flight[q][0].frame];
          assert [p.flight[q][0].frame] + Flying(r.flight[q]) == Flying(p.flight[q]);
        }
      }
      SettleConserves(c, r, q);
    }
  }

  lemma {:induction false} CleanConserves(c: Config, p: Pipe, q: nat)
    requires WellFormed(c, p) && Conserved(c, p) && q <= c.queues
    ensures Conserved(c, CleanFrom(c, p, q))
    decreases c.queues - q
  {
    if q == c.queues {
    } else {
      SettleConserves(c, p, q);
      CleanConserves(c, CleanQueue(c, p, q), q + 1);
    }
  }

  lemma StepConserves(c: Config, p: Pipe, op: Op)
    requires WellFormed(c, p) && Conserved(c, p)
    ensures Conserved(c, Step(c, p, op))
  {
    match op
    case Happens(e) =>
      HappenConserves(c, p, e);
    case Work(env) =>
      if p.scheduled {
        ConservedIgnores(c, p, p.stopped, false);
        QueueGoConserves(c, p.(scheduled := false), env, 0);
      }
    case TxIrq =>
      CleanConserves(c, p, 0);
      ConservedIgnores(c, CleanFrom(c, p, 0), false, true);
  }

  lemma {:induction false} RunConserves(c: Config, p: Pipe, ops: seq<Op>)
    requires WellFormed(c, p) && Conserved(c, p)
    ensures Conserved(c, Run(c, p, ops))
    decreases |ops|
  {
    if ops == [] {
    } else {
      StepConserves(c, p, ops[0]);
      RunConserves(c, Step(c, p, ops[0]), ops[1..]);
    }
  }

  /**
   Every run of a fresh device conserves the frames of each hardware queue in order; with one queue,
   that is the order in which mac80211 handed them over.
   */
  lemma EveryRunConserves(c: Config, ops: seq<Op>)
    requires c.Ok()
    ensures Conserved(c, Run(c, Init(c), ops))
    ensures c.queues == 1 ==>
      var p := Run(c, Init(c), ops);
      p.enqueued == FramesOf(p.settled[0]) + Flying(p.flight[0]) + p.waiting
  {
    var p0 := Init(c);
    forall q | 0 <= q < c.queues
      ensures ConservedOn(c, p0, q)
    {
    }
    RunConserves(c, p0, ops);
    if c.queues == 1 {
      var p := Run(c, p0, ops);
      OneQueue(c, p.enqueued);
      OneQueue(c, p.waiting);
      assert ConservedOn(c, p, 0);
    }
  }

  lemma {:induction false} OneQueue(c: Config, fs: seq<Frame>)
    requires c.Ok() && c.queues == 1
    ensures ForQueue(c, 0, fs) == fs
  {
    if fs == [] {
    } else {
      OneQueue(c, fs[1..]);
    }
  }

  // ---- The blocks of a MEM device ----

  function BlocksHeld(c: Config, es: seq<Entry>): nat
    requires c.Ok()
  {
    if es == [] then 0 else BlocksFor(c, es[0].frame) + BlocksHeld(c, es[1..])
  }

  /** Free blocks and the blocks of outstanding frames are all the blocks of the pool. */
  predicate Accounted(c: Config, p: Pipe)
    requires WellFormed(c, p)
  {
    c.isMem ==> p.blocksFree + BlocksHeld(c, p.flight[0]) == c.blocks
  }

  lemma {:induction false} BlocksHeldOfAppend(c: Config, es: seq<Entry>, e: Entry)
    requires c.Ok()
    ensures BlocksHeld(c, es + [e]) == BlocksHeld(c, es) + BlocksFor(c, e.frame)
  {
    if es == [] {
      assert es + [e] == [e];
    } else {
      assert (es + [e])[1..] == es[1..] + [e];
      BlocksHeldOfAppend(c, es[1..], e);
    }
  }

  lemma {:induction false} BlocksHeldOfFrames(c: Config, es: seq<Entry>, es': seq<Entry>)
    requires c.Ok() && Flying(es) == Flying(es')
    ensures BlocksHeld(c, es) == BlocksHeld(c, es')
  {
    assert |es| == |Flying(es)| == |es'|;
    if es == [] {
    } else {
      assert es[0].frame == Flying(es)[0] == es'[0].frame;
      assert Flying(es[1..]) == Flying(es)[1..] == Flying(es'[1..]);
      BlocksHeldOfFrames(c, es[1..], es'[1..]);
    }
  }

  lemma HappenAccounts(c: Config, p: Pipe, e: Event)
    requires WellFormed(c, p) && Accounted(c, p)
    ensures Accounted(c, Happen(c, p, e))
  {
    var r := Happen(c, p, e);
    assert Flying(r.flight[0]) == Flying(p.flight[0]);
    BlocksHeldOfFrames(c, r.flight[0], p.flight[0]);
  }

  lemma {:induction false} HappenAllAccounts(c: Config, p: Pipe, es: seq<Event>)
    requires WellFormed(c, p) && Accounted(c, p)
    ensures Accounted(c, HappenAll(c, p, es))
    decreases |es|
  {
    if es == [] {
    } else {
      HappenAccounts(c, p, es[0]);
      HappenAllAccounts(c, Happen(c, p, es[0]), es[1..]);
    }
  }

  lemma RoundAccounts(c: Config, p: Pipe)
    requires WellFormed(c, p) && Accounted(c, p) && p.waiting != []
    ensures Accounted(c, Round(c, p).0)
  {
    BlocksHeldOfAppend(c, p.flight[0], Entry(p.waiting[0], Pending));
  }

  lemma {:induction false} QueueGoAccounts(c: Config, p: Pipe, env: nat -> seq<Event>, n: nat)
    requires WellFormed(c, p) && Accounted(c, p)
    ensures Accounted(c, QueueGo(c, p, env, n))
    decreases TotalFree(c, p)
  {
    var p1 := HappenAll(c, p, env(n));
    HappenAllAccounts(c, p, env(n));
    if p1.waiting == [] {
    } else {
      SendingUsesADescriptor(c, p, env(n));
      RoundAccounts(c, p1);
      var (p2, more) := Round(c, p1);
      if more {
        QueueGoAccounts(c, p2, env, n + 1);
      }
    }
  }

  lemma {:induction false} CleanAccounts(c: Config, p: Pipe, q: nat)
    requires WellFormed(c, p) && Accounted(c, p) && q < c.queues
    ensures Accounted(c, SettleDone(c, p, q))
    decreases |p.flight[q]|
  {
    if !TailDone(c, p, q) {
    } else {
      CleanAccounts(c, SettleTail(c, p, q), q);
    }
  }

  lemma {:induction false} CleanFromAccounts(c: Config, p: Pipe, q: nat)
    requires WellFormed(c, p) && Accounted(c, p) && q <= c.queues
    ensures Accounted(c, CleanFrom(c, p, q))
    decreases c.queues - q
  {
    if q == c.queues {
    } else {
      CleanAccounts(c, p, q);
      CleanFromAccounts(c, CleanQueue(c, p, q), q + 1);
    }
  }

  /** In every run, no block is lost or counted twice. */
  lemma {:induction false} RunAccounts(c: Config, p: Pipe, ops: seq<Op>)
    requires WellFormed(c, p) && Accounted(c, p)
    ensures Accounted(c, Run(c, p, ops))
    decreases |ops|
  {
    if ops == [] {
    } else {
      match ops[0] {
        case Happens(e) =>
          HappenAccounts(c, p, e);
        case Work(env) =>
          if p.scheduled {
            QueueGoAccounts(c, p.(scheduled := false), env, 0);
          }
        case TxIrq =>
          CleanFromAccounts(c, p, 0);
      }
      RunAccounts(c, Step(c, p, ops[0]), ops[1..]);
    }
  }

  // ---- The stop threshold ----

  /** If the loop starts with TX_STOP_QUEUE free descriptors everywhere, it leaves one less at worst. */
  lemma {:induction false} QueueGoKeepsReserve(c: Config, p: Pipe, env: nat -> seq<Event>, n: nat)
    requires WellFormed(c, p) && AtMost(p, TX_CNT - TX_STOP_QUEUE)
    ensures var r := QueueGo(c, p, env, n);
            AtMost(r, TX_CNT - TX_STOP_QUEUE) || (r.stopped && AtMost(r, TX_CNT - TX_STOP_QUEUE + 1))
    decreases TotalFree(c, p)
  {
    var p1 := HappenAll(c, p, env(n));
    if p1.waiting == [] {
    } else {
      SendingUsesADescriptor(c, p, env(n));
      var (p2, sent) := TxFrame(c, p1.(waiting := p1.waiting[1..]), p1.waiting[0]);
      if sent && !StopLimit(p2) {
        QueueGoKeepsReserve(c, p2, env, n + 1);
      }
    }
  }

  /** A stopped mac80211 that keeps quiet changes nothing but completions. */
  lemma {:induction false} PoliteSilence(c: Config, p: Pipe, es: seq<Event>)
    requires WellFormed(c, p) && c.polite && p.stopped
    ensures var r := HappenAll(c, p, es);
            r == p.(flight := r.flight)
    decreases |es|
  {
    if es == [] {
    } else {
      PoliteSilence(c, Happen(c, p, es[0]), es[1..]);
    }
  }

  /** A run of the loop that starts stopped and below the reserve sends one frame at most. */
  lemma OneMoreFrame(c: Config, p: Pipe, env: nat -> seq<Event>)
    requires WellFormed(c, p) && c.polite && p.stopped && !p.scheduled
    requires AtMost(p, TX_CNT - TX_STOP_QUEUE + 1) && !AtMost(p, TX_CNT - TX_STOP_QUEUE)
    ensures var r := QueueGo(c, p, env, 0);
            AtMost(r, TX_CNT - TX_STOP_QUEUE + 2) && r.stopped && !r.scheduled
  {
    var p1 := HappenAll(c, p, env(0));
    PoliteSilence(c, p, env(0));
    var q :| 0 <= q < c.queues && |p.flight[q]| > TX_CNT - TX_STOP_QUEUE;
    if p1.waiting != [] {
      var (p2, sent) := TxFrame(c, p1.(waiting := p1.waiting[1..]), p1.waiting[0]);
      if sent {
        assert TX_CNT - |p2.flight[q]| < TX_STOP_QUEUE;
        assert StopLimit(p2);
      }
    }
  }

  /**
   The invariant behind the stop threshold: the last descriptors of a ring are used up only while the
   queues are stopped, and the very last but one only when the loop is not scheduled again.
   */
  predicate Reserve(c: Config, p: Pipe)
    requires WellFormed(c, p)
  {
    || AtMost(p, TX_CNT - TX_STOP_QUEUE)
    || (p.stopped && AtMost(p, TX_CNT - TX_STOP_QUEUE + 1))
    || (p.stopped && !p.scheduled && AtMost(p, TX_CNT - TX_STOP_QUEUE + 2))
  }

  lemma {:induction false} SettleShrinks(c: Config, p: Pipe, q: nat)
    requires WellFormed(c, p) && q < c.queues
    ensures var r := SettleDone(c, p, q);
            && (forall q' :: 0 <= q' < c.queues ==> |r.flight[q']| <= |p.flight[q']|)
            && r.stopped == p.stopped && r.scheduled == p.scheduled && r.waiting == p.waiting
    decreases |p.flight[q]|
  {
    if !TailDone(c, p, q) {
    } else {
      SettleShrinks(c, SettleTail(c, p, q), q);
    }
  }

  lemma {:induction false} CleanShrinks(c: Config, p: Pipe, q: nat)
    requires WellFormed(c, p) && q <= c.queues
    ensures var r := CleanFrom(c, p, q);
            && (forall q' :: 0 <= q' < c.queues ==> |r.flight[q']| <= |p.flight[q']|)
            && r.stopped == p.stopped && r.scheduled == p.scheduled && r.waiting == p.waiting
    decreases c.queues - q
  {
    if q == c.queues {
    } else {
      SettleShrinks(c, p, q);
      CleanShrinks(c, CleanQueue(c, p, q), q + 1);
    }
  }

  lemma StepKeepsReserve(c: Config, p: Pipe, op: Op)
    requires WellFormed(c, p) && c.polite && Reserve(c, p)
    ensures Reserve(c, Step(c, p, op))
  {
    match op
    case Happens(e) =>
    case Work(env) =>
      if p.scheduled {
        var p1 := p.(scheduled := false);
        if AtMost(p1, TX_CNT - TX_STOP_QUEUE) {
          QueueGoKeepsReserve(c, p1, env, 0);
        } else {
          OneMoreFrame(c, p1, env);
        }
      }
    case TxIrq =>
      CleanShrinks(c, p, 0);
  }

  /**
   As long as mac80211 hands over no frame while the queues are stopped, no ring ever becomes full,
   whatever the interleaving: clean always makes progress and the emergency clean is never reached.
   */
  lemma {:induction false} PoliteRunsNeverFill(c: Config, p: Pipe, ops: seq<Op>)
    requires WellFormed(c, p) && c.polite && Reserve(c, p)
    ensures Reserve(c, Run(c, p, ops)) && AtMost(Run(c, p, ops), TX_CNT - 1)
    decreases |ops|
  {
    if ops == [] {
    } else {
      StepKeepsReserve(c, p, ops[0]);
      PoliteRunsNeverFill(c, Step(c, p, ops[0]), ops[1..]);
    }
  }

  // ---- Order ----

  predicate NoDrops(p: Pipe) {
    forall q, i :: 0 <= q < |p.settled| && 0 <= i < |p.settled[q]| ==> p.settled[q][i].Reported?
  }

  lemma {:induction false} SettleDropsNothing(c: Config, p: Pipe, q: nat)
    requires WellFormed(c, p) && q < c.queues && NoDrops(p)
    ensures NoDrops(SettleDone(c, p, q))
    decreases |p.flight[q]|
  {
    if !TailDone(c, p, q) {
    } else {
      SettleDropsNothing(c, SettleTail(c, p, q), q);
    }
  }

  lemma {:induction false} CleanDropsNothing(c: Config, p: Pipe, q: nat)
    requires WellFormed(c, p) && q <= c.queues && NoDrops(p)
    ensures NoDrops(CleanFrom(c, p, q))
    decreases c.queues - q
  {
    if q == c.queues {
    } else {
      SettleDropsNothing(c, p, q);
      CleanDropsNothing(c, CleanQueue(c, p, q), q + 1);
    }
  }

  /** Only the sending loop can drop frames, and it does not while no ring is full or the card is not MEM. */
  lemma {:induction false} QueueGoDropsNothing(c: Config, p: Pipe, env: nat -> seq<Event>, n: nat)
    requires WellFormed(c, p) && NoDrops(p)
    requires !c.isMem || AtMost(p, TX_CNT - TX_STOP_QUEUE + 1)
    ensures NoDrops(QueueGo(c, p, env, n))
    decreases TotalFree(c, p)
  {
    var p1 := HappenAll(c, p, env(n));
    HappenAllSettlesNothing(c, p, env(n));
    if p1.waiting == [] {
    } else {
      SendingUsesADescriptor(c, p, env(n));
      var (p2, sent) := TxFrame(c, p1.(waiting := p1.waiting[1..]), p1.waiting[0]);
      if sent && !StopLimit(p2) {
        QueueGoDropsNothing(c, p2, env, n + 1);
      }
    }
  }

  lemma {:induction false} HappenAllSettlesNothing(c: Config, p: Pipe, es: seq<Event>)
    requires WellFormed(c, p)
    ensures HappenAll(c, p, es).settled == p.settled
    ensures HappenAll(c, p, es).attempts == p.attempts
    decreases |es|
  {
    if es == [] {
    } else {
      HappenAllSettlesNothing(c, Happen(c, p, es[0]), es[1..]);
    }
  }

  /**
   The guard of the emergency clean, before the step: the loop will run on a full ring of a MEM device whose
   attempts are used up, and a frame waits or arrives before the first round.
   */
  predicate DropGuard(c: Config, p: Pipe, op: Op)
    requires WellFormed(c, p)
  {
    && c.isMem && op.Work? && p.scheduled
    && |p.flight[0]| == TX_CNT && p.attempts >= WAKE_ATTEMPTS
    && HappenAll(c, p.(scheduled := false), op.env(0)).waiting != []
  }

  /** No step of the run meets the guard of the emergency clean. */
  predicate NeverGuarded(c: Config, p: Pipe, ops: seq<Op>)
    requires WellFormed(c, p)
    decreases |ops|
  {
    ops == [] || (!DropGuard(c, p, ops[0]) && NeverGuarded(c, Step(c, p, ops[0]), ops[1..]))
  }

  /** A loop that starts on a full ring with attempts used up and a frame at hand drops frames, and no other. */
  lemma QueueGoDropsIff(c: Config, p: Pipe, env: nat -> seq<Event>)
    requires WellFormed(c, p) && NoDrops(p) && c.isMem
    ensures NoDrops(QueueGo(c, p, env, 0)) <==>
            !(|p.flight[0]| == TX_CNT && p.attempts >= WAKE_ATTEMPTS && HappenAll(c, p, env(0)).waiting != [])
  {
    var p1 := HappenAll(c, p, env(0));
    HappenAllSettlesNothing(c, p, env(0));
    if p1.waiting != [] {
      SendingUsesADescriptor(c, p, env(0));
      var p0 := p1.(waiting := p1.waiting[1..]);
      var (p2, sent) := TxFrame(c, p0, p1.waiting[0]);
      if |p1.flight[0]| == TX_CNT && p.attempts >= WAKE_ATTEMPTS {
        assert p2.settled[0][|p.settled[0]|] == Dropped(p1.flight[0][0].frame);
        assert !NoDrops(QueueGo(c, p, env, 0));
      } else {
        assert p2.settled == p.settled;
        if sent && !StopLimit(p2) {
          QueueGoDropsNothing(c, p2, env, 1);
        }
      }
    }
  }

  lemma StepDropsIff(c: Config, p: Pipe, op: Op)
    requires WellFormed(c, p) && NoDrops(p)
    ensures NoDrops(Step(c, p, op)) <==> !DropGuard(c, p, op)
  {
    match op
    case Happens(e) =>
    case Work(env) =>
      if p.scheduled {
        var p0 := p.(scheduled := false);
        if c.isMem {
          QueueGoDropsIff(c, p0, env);
        } else {
          QueueGoDropsNothing(c, p0, env, 0);
        }
      }
    case TxIrq =>
      CleanDropsNothing(c, p, 0);
  }

  /** What has been settled stays settled. */
  predicate Grows(p: Pipe, r: Pipe) {
    |p.settled| == |r.settled| && forall q :: 0 <= q < |p.settled| ==> p.settled[q] <= r.settled[q]
  }

  lemma DropsStay(p: Pipe, r: Pipe)
    requires Grows(p, r) && NoDrops(r)
    ensures NoDrops(p)
  {
    forall q, i | 0 <= q < |p.settled| && 0 <= i < |p.settled[q]|
      ensures p.settled[q][i].Reported?
    {
      assert r.settled[q][i] == p.settled[q][i];
    }
  }

  lemma {:induction false} SettleGrows(c: Config, p: Pipe, q: nat)
    requires WellFormed(c, p) && q < c.queues
    ensures Grows(p, SettleDone(c, p, q))
    decreases |p.flight[q]|
  {
    if !TailDone(c, p, q) {
    } else {
      SettleGrows(c, SettleTail(c, p, q), q);
    }
  }

  lemma {:induction false} CleanGrows(c: Config, p: Pipe, q: nat)
    requires WellFormed(c, p) && q <= c.queues
    ensures Grows(p, CleanFrom(c, p, q))
    decreases c.queues - q
  {
    if q == c.queues {
    } else {
      SettleGrows(c, p, q);
      CleanGrows(c, CleanQueue(c, p, q), q + 1);
    }
  }

  lemma RoundGrows(c: Config, p: Pipe)
    requires WellFormed(c, p) && p.waiting != []
    ensures Grows(p, Round(c, p).0)
  {
  }

  lemma {:induction false} QueueGoGrows(c: Config, p: Pipe, env: nat -> seq<Event>, n: nat)
    requires WellFormed(c, p)
    ensures Grows(p, QueueGo(c, p, env, n))
    decreases TotalFree(c, p)
  {
    var p1 := HappenAll(c, p, env(n));
    HappenAllSettlesNothing(c, p, env(n));
    if p1.waiting == [] {
    } else {
      SendingUsesADescriptor(c, p, env(n));
      RoundGrows(c, p1);
      var (p2, more) := Round(c, p1);
      if more {
        QueueGoGrows(c, p2, env, n + 1);
      }
    }
  }

  lemma StepGrows(c: Config, p: Pipe, op: Op)
    requires WellFormed(c, p)
    ensures Grows(p, Step(c, p, op))
  {
    match op
    case Happens(e) =>
    case Work(env) =>
      if p.scheduled {
        QueueGoGrows(c, p.(scheduled := false), env, 0);
      }
    case TxIrq =>
      CleanGrows(c, p, 0);
  }

  lemma {:induction false} RunGrows(c: Config, p: Pipe, ops: seq<Op>)
    requires WellFormed(c, p)
    ensures Grows(p, Run(c, p, ops))
    decreases |ops|
  {
    if ops == [] {
    } else {
      StepGrows(c, p, ops[0]);
      RunGrows(c, Step(c, p, ops[0]), ops[1..]);
    }
  }

  /**
   A run drops frames exactly if one of its steps meets the guard of the emergency clean; a drop, once it
   has happened, is not undone.
   */
  lemma {:induction false} RunDropsIff(c: Config, p: Pipe, ops: seq<Op>)
    requires WellFormed(c, p) && NoDrops(p)
    ensures NoDrops(Run(c, p, ops)) <==> NeverGuarded(c, p, ops)
    decreases |ops|
  {
    if ops == [] {
    } else {
      var p1 := Step(c, p, ops[0]);
      StepDropsIff(c, p, ops[0]);
      if NoDrops(p1) {
        RunDropsIff(c, p1, ops[1..]);
      } else if NoDrops(Run(c, p1, ops[1..])) {
        RunGrows(c, p1, ops[1..]);
        DropsStay(p1, Run(c, p1, ops[1..]));
      }
    }
  }

  /** A PCI device never meets the guard, nor does a MEM device under a polite mac80211. */
  lemma {:induction false} NeverGuardedIfPolite(c: Config, p: Pipe, ops: seq<Op>)
    requires WellFormed(c, p) && (c.isMem ==> c.polite && Reserve(c, p))
    ensures NeverGuarded(c, p, ops)
    decreases |ops|
  {
    if ops == [] {
    } else {
      if c.isMem {
        StepKeepsReserve(c, p, ops[0]);
      }
      NeverGuardedIfPolite(c, Step(c, p, ops[0]), ops[1..]);
    }
  }

  /**
   In every run, what a queue has settled is a prefix of what was handed over for it, each frame once and
   in order; and all of it has been reported exactly if no step met the guard of the emergency clean.
   */
  lemma ReportsAreAPrefix(c: Config, ops: seq<Op>, q: nat)
    requires c.Ok() && q < c.queues
    ensures var p := Run(c, Init(c), ops);
            && FramesOf(p.settled[q]) <= ForQueue(c, q, p.enqueued)
            && (NoDrops(p) <==> NeverGuarded(c, Init(c), ops))
  {
    EveryRunConserves(c, ops);
    RunDropsIff(c, Init(c), ops);
    var p := Run(c, Init(c), ops);
    assert ConservedOn(c, p, q);
  }

  // ---- Cleaning ----

  /** The number of finished entries in front of the first unfinished one. */
  function DonePrefix(es: seq<Entry>): nat {
    if es != [] && es[0].completion.Done? then 1 + DonePrefix(es[1..]) else 0
  }

  function Reports(es: seq<Entry>, k: nat): (r: seq<Outcome>)
    requires k <= DonePrefix(es)
    ensures |r| == k
  {
    if k == 0 then [] else [ReportOf(es[0].frame, es[0].completion.status)] + Reports(es[1..], k - 1)
  }

  /**
   From a ring es and reports os to es' and os': exactly the finished entries in front of the first unfinished
   one have been taken off and reported, each acknowledged unless it asked for no acknowledgement or the card
   has set bit 4 or 5 of its error byte.
   */
  predicate Cleaned(es: seq<Entry>, os: seq<Outcome>, es': seq<Entry>, os': seq<Outcome>) {
    var k := |os'| - |os|;
    && 0 <= k <= |es| && es' == es[k..] && (k < |es| ==> es[k].completion.Pending?) && os <= os'
    && forall i :: 0 <= i < k ==>
      && es[i].completion.Done?
      && os'[|os| + i] == Reported(es[i].frame, !es[i].frame.noAck && es[i].completion.status.error / 16 % 4 == 0,
                                   es[i].completion.status.ackFailures + 1)
  }

  lemma CleanedOneMore(es: seq<Entry>, os: seq<Outcome>, o: Outcome, es': seq<Entry>, os': seq<Outcome>)
    requires es != [] && es[0].completion.Done? && o == ReportOf(es[0].frame, es[0].completion.status)
    requires Cleaned(es[1..], os + [o], es', os')
    ensures Cleaned(es, os, es', os')
  {
    var k := |os'| - |os|;
    assert os == (os + [o])[..|os|] && os <= os';
    forall i | 0 <= i < k
      ensures es[i].completion.Done?
      ensures os'[|os| + i] ==
        Reported(es[i].frame, !es[i].frame.noAck && es[i].completion.status.error / 16 % 4 == 0,
                 es[i].completion.status.ackFailures + 1)
    {
      if i == 0 {
        assert os'[|os|] == (os + [o])[|os|];
      } else {
        assert es[1..][i - 1] == es[i] && os'[|os + [o]| + (i - 1)] == os'[|os| + i];
      }
    }
  }

  /** What cleaning does to queue q: nothing on a full ring. */
  predicate QueueCleaned(p: Pipe, r: Pipe, q: nat) {
    && q < |p.flight| == |r.flight| && q < |p.settled| == |r.settled|
    && if |p.flight[q]| == TX_CNT then r.flight[q] == p.flight[q] && r.settled[q] == p.settled[q]
       else Cleaned(p.flight[q], p.settled[q], r.flight[q], r.settled[q])
  }

  lemma {:induction false} SettleCleans(c: Config, p: Pipe, q: nat)
    requires WellFormed(c, p) && q < c.queues
    ensures var r := SettleDone(c, p, q);
            && Cleaned(p.flight[q], p.settled[q], r.flight[q], r.settled[q])
            && r == p.(flight := p.flight[q := r.flight[q]], settled := p.settled[q := r.settled[q]],
                       blocksFree := r.blocksFree)
            && r.blocksFree + BlocksHeld(c, r.flight[q]) == p.blocksFree + BlocksHeld(c, p.flight[q])
    decreases |p.flight[q]|
  {
    if TailDone(c, p, q) {
      var e := p.flight[q][0];
      var p1 := SettleTail(c, p, q);
      SettleCleans(c, p1, q);
      var r := SettleDone(c, p1, q);
      CleanedOneMore(p.flight[q], p.settled[q], ReportOf(e.frame, e.completion.status), r.flight[q], r.settled[q]);
    } else {
      assert p.flight[q][0..] == p.flight[q];
      assert p.flight[q := p.flight[q]] == p.flight && p.settled[q := p.settled[q]] == p.settled;
    }
  }

  lemma {:induction false} DonePrefixIs(es: seq<Entry>, k: nat)
    requires k <= |es| && (k < |es| ==> es[k].completion.Pending?)
    requires forall i :: 0 <= i < k ==> es[i].completion.Done?
    ensures DonePrefix(es) == k
    decreases k
  {
    if k == 0 {
    } else {
      assert forall i :: 0 <= i < k - 1 ==> es[1..][i] == es[i + 1];
      DonePrefixIs(es[1..], k - 1);
    }
  }

  lemma {:induction false} ReportsAt(es: seq<Entry>, k: nat, i: nat)
    requires i < k <= DonePrefix(es) <= |es|
    ensures es[i].completion.Done? && Reports(es, k)[i] == ReportOf(es[i].frame, es[i].completion.status)
    decreases k
  {
    if i == 0 {
    } else {
      ReportsAt(es[1..], k - 1, i - 1);
    }
  }

  /**
   Clean consumes exactly the maximal finished prefix of the ring and nothing behind the first hole,
   reporting each frame with the status the card wrote for it; on a full ring it consumes nothing.
   */
  lemma SettleConsumesPrefix(c: Config, p: Pipe, q: nat)
    requires WellFormed(c, p) && q < c.queues
    ensures DonePrefix(p.flight[q]) <= |p.flight[q]|
    ensures var k := DonePrefix(p.flight[q]);
            var r := SettleDone(c, p, q);
            && r.flight == p.flight[q := p.flight[q][k..]]
            && r.settled == p.settled[q := p.settled[q] + Reports(p.flight[q], k)]
            && (k < |p.flight[q]| ==> p.flight[q][k].completion.Pending?)
  {
    SettleCleans(c, p, q);
    var es, os, os' := p.flight[q], p.settled[q], SettleDone(c, p, q).settled[q];
    var k := |os'| - |os|;
    DonePrefixIs(es, k);
    forall i | 0 <= i < k
      ensures os'[|os| + i] == Reports(es, k)[i]
    {
      ReportsAt(es, k, i);
    }
    assert os' == os + Reports(es, k);
  }

  /**
   Cleaning a ring that is not full reports exactly the finished frames in front of the first unfinished one,
   gives back their descriptors and blocks, and changes nothing else.
   */
  lemma CleanSettles(c: Config, p: Pipe, q: nat)
    requires WellFormed(c, p) && q < c.queues
    ensures var r := CleanQueue(c, p, q);
            && QueueCleaned(p, r, q)
            && r == p.(flight := p.flight[q := r.flight[q]], settled := p.settled[q := r.settled[q]],
                       blocksFree := r.blocksFree)
            && r.blocksFree + BlocksHeld(c, r.flight[q]) == p.blocksFree + BlocksHeld(c, p.flight[q])
  {
    if |p.flight[q]| == TX_CNT {
      assert p.flight[q := p.flight[q]] == p.flight && p.settled[q := p.settled[q]] == p.settled;
    } else {
      SettleCleans(c, p, q);
    }
  }

  lemma JustCleaned(c: Config, p: Pipe, q: nat)
    requires WellFormed(c, p) && q < c.queues
    ensures QueueCleaned(p, CleanQueue(c, p, q), q)
  {
    CleanSettles(c, p, q);
  }

  lemma {:induction false} CleanFromCleans(c: Config, p: Pipe, from: nat)
    requires WellFormed(c, p) && from <= c.queues
    ensures var r := CleanFrom(c, p, from);
            && r == p.(flight := r.flight, settled := r.settled, blocksFree := r.blocksFree)
            && (forall q :: 0 <= q < from ==> r.flight[q] == p.flight[q] && r.settled[q] == p.settled[q])
            && (forall q :: from <= q < c.queues ==> QueueCleaned(p, r, q))
    decreases c.queues - from
  {
    if from == c.queues {
    } else {
      var p1 := CleanQueue(c, p, from);
      if |p.flight[from]| < TX_CNT {
        SettleCleans(c, p, from);
      }
      CleanFromCleans(c, p1, from + 1);
      var r := CleanFrom(c, p, from);
      forall q | from <= q < c.queues
        ensures QueueCleaned(p, r, q)
      {
        assert q != from ==> QueueCleaned(p1, r, q);
      }
    }
  }

  /**
   The interrupt cleans every queue, and wakes stopped queues exactly if every ring then has at least five free
   descriptors.
   */
  lemma IrqCleans(c: Config, p: Pipe)
    requires WellFormed(c, p)
    ensures var r := Step(c, p, TxIrq);
            && (forall q :: 0 <= q < c.queues ==> QueueCleaned(p, r, q))
            && r.waiting == p.waiting && r.enqueued == p.enqueued && r.attempts == p.attempts
            && r.stopped == (p.stopped && exists q :: 0 <= q < c.queues && |r.flight[q]| > 11)
            && r.scheduled == (p.scheduled || (p.stopped && !r.stopped))
  {
    CleanFromCleans(c, p, 0);
    var p1 := CleanFrom(c, p, 0);
    forall q | 0 <= q < c.queues
      ensures QueueCleaned(p, Step(c, p, TxIrq), q)
    {
      assert QueueCleaned(p, p1, q);
    }
    assert StartLimit(p1) <==> !exists q :: 0 <= q < c.queues && |p1.flight[q]| > 11;
  }

  // ---- Sending ----

  /** What a frame that arrives and a descriptor that is finished do, and nothing else. */
  lemma EventEffect(c: Config, p: Pipe, e: Event)
    requires WellFormed(c, p)
    ensures e.Arrival? && c.polite && p.stopped ==> Happen(c, p, e) == p
    ensures e.Arrival? && !(c.polite && p.stopped) ==>
      Happen(c, p, e) == p.(waiting := p.waiting + [e.f], enqueued := p.enqueued + [e.f], scheduled := true,
                            stopped := p.stopped || |p.waiting| >= 19)
    ensures e.Completed? ==>
      && Happen(c, p, e) == p.(flight := Happen(c, p, e).flight)
      && forall q, d :: 0 <= q < c.queues && 0 <= d < |p.flight[q]| ==>
        Happen(c, p, e).flight[q][d] ==
          if q == e.q && d == e.d && p.flight[q][d].completion.Pending?
          then Entry(p.flight[q][d].frame, Done(e.status)) else p.flight[q][d]
  {
  }

  lemma {:induction false} HappenAllEffect(c: Config, p: Pipe, es: seq<Event>)
    requires WellFormed(c, p)
    ensures var r := HappenAll(c, p, es);
            && |p.enqueued| <= |r.enqueued| && |r.waiting| - |r.enqueued| == |p.waiting| - |p.enqueued|
            && (r.stopped ==> p.stopped || |r.waiting| >= 20)
            && (r.scheduled ==> p.scheduled || |r.enqueued| > |p.enqueued|)
    decreases |es|
  {
    if es == [] {
    } else {
      HappenAllEffect(c, Happen(c, p, es[0]), es[1..]);
    }
  }

  /** Events happen one after the other. */
  lemma {:induction false} EventsInOrder(c: Config, p: Pipe, es: seq<Event>, e: Event)
    requires WellFormed(c, p)
    ensures HappenAll(c, p, []) == p && HappenAll(c, p, es + [e]) == Happen(c, HappenAll(c, p, es), e)
    decreases |es|
  {
    if es == [] {
      assert [] + [e] == [e] && [e][1..] == [];
    } else {
      assert (es + [e])[1..] == es[1..] + [e];
      EventsInOrder(c, Happen(c, p, es[0]), es[1..], e);
    }
  }

  /** A run is its steps, one after the other. */
  lemma StepsInOrder(c: Config, p: Pipe, ops: seq<Op>, op: Op)
    requires WellFormed(c, p)
    ensures Run(c, p, []) == p && Run(c, p, ops + [op]) == Step(c, Run(c, p, ops), op)
  {
    RunAppend(c, p, ops, [op]);
    assert [op][1..] == [];
  }

  /** Some ring has fewer than three free descriptors. */
  predicate Low(p: Pipe) {
    exists q :: 0 <= q < |p.flight| && |p.flight[q]| > 13
  }

  /** The emergency clean is due: ten attempts have failed on the full ring of a MEM device. */
  predicate Exhausted(c: Config, p: Pipe) {
    c.isMem && p.flight != [] && |p.flight[0]| == 16 && p.attempts >= 10
  }

  /**
   The sending loop from p ends in r for one of these reasons: nothing waits any more; some ring is low; the
   first waiting frame does not fit the free blocks; or the emergency clean was due.
   */
  predicate EndsFor(c: Config, p: Pipe, r: Pipe)
    requires c.Ok()
  {
    || r.waiting == []
    || (r.stopped && (Low(r) || Exhausted(c, p)))
    || (r.stopped && c.isMem && Needed(c.blockSize, |r.waiting[0].data|) > r.blocksFree)
  }

  /** Queues that were running are stopped for such a reason, or because twenty frames have waited at once. */
  predicate StopsFor(p: Pipe, r: Pipe) {
    r.waiting == [] && r.stopped && !p.stopped ==> Low(r) || |p.waiting| + |r.enqueued| - |p.enqueued| >= 20
  }

  /** One round that is the last. */
  lemma LastRound(c: Config, p: Pipe)
    requires WellFormed(c, p) && p.waiting != [] && !Round(c, p).1
    ensures EndsFor(c, p, Round(c, p).0) && Round(c, p).0.enqueued == p.enqueued
    ensures Round(c, p).0.waiting == [] ==> Low(Round(c, p).0)
    ensures Round(c, p).0.scheduled == p.scheduled
  {
    var f := p.waiting[0];
    var q := QueueOf(c, f);
    var (p1, sent) := TxFrame(c, p.(waiting := p.waiting[1..]), f);
    if sent {
      assert StopLimit(p1);
    } else if |p.flight[q]| == TX_CNT {
      assert !Exhausted(c, p) ==> p1.flight == p.flight;
    }
  }

  lemma NextRound(c: Config, p: Pipe)
    requires WellFormed(c, p) && p.waiting != [] && Round(c, p).1
    ensures var r := Round(c, p).0;
            && !Low(r) && r.waiting == p.waiting[1..] && r.enqueued == p.enqueued
            && r.stopped == p.stopped && r.scheduled == p.scheduled
  {
    var p1 := Round(c, p).0;
    assert !StopLimit(p1);
  }

  lemma NotExhausted(c: Config, p: Pipe, es: seq<Event>)
    requires WellFormed(c, p)
    ensures Exhausted(c, HappenAll(c, p, es)) == Exhausted(c, p)
  {
    HappenAllSettlesNothing(c, p, es);
  }

  /**
   However many frames arrive meanwhile, the sending loop goes on until there is a reason to end, and it stops
   running queues only for a reason; arrivals alone schedule it again.
   */
  lemma {:induction false} QueueGoEndsFor(c: Config, p: Pipe, env: nat -> seq<Event>, n: nat)
    requires WellFormed(c, p)
    ensures var r := QueueGo(c, p, env, n);
            && EndsFor(c, p, r) && StopsFor(p, r)
            && |p.enqueued| <= |r.enqueued| && (r.scheduled ==> p.scheduled || |r.enqueued| > |p.enqueued|)
    decreases TotalFree(c, p)
  {
    var p1 := HappenAll(c, p, env(n));
    HappenAllEffect(c, p, env(n));
    NotExhausted(c, p, env(n));
    if p1.waiting == [] {
    } else {
      SendingUsesADescriptor(c, p, env(n));
      var (p2, more) := Round(c, p1);
      if more {
        NextRound(c, p1);
        QueueGoEndsFor(c, p2, env, n + 1);
        assert !Exhausted(c, p2);
      } else {
        LastRound(c, p1);
      }
    }
  }

  lemma SendsOne(c: Config, p: Pipe, f: Frame)
    requires WellFormed(c, p)
    ensures Outstanding(TxFrame(c, p, f).0.flight) <= Outstanding(p.flight) + 1
  {
    var q := QueueOf(c, f);
    OutstandingOfUpdate(p.flight, q, p.flight[q] + [Entry(f, Pending)]);
    OutstandingOfUpdate(p.flight, 0, []);
  }

  lemma LowStays(c: Config, p: Pipe, f: Frame)
    requires WellFormed(c, p) && Low(p) && TxFrame(c, p, f).1
    ensures StopLimit(TxFrame(c, p, f).0)
  {
    var q :| 0 <= q < |p.flight| && |p.flight[q]| > 13;
    assert |TxFrame(c, p, f).0.flight[q]| > 13;
  }

  /** A loop that starts on a low ring sends one frame at most. */
  lemma LowSendsOne(c: Config, p: Pipe, env: nat -> seq<Event>)
    requires WellFormed(c, p) && Low(p)
    ensures Outstanding(QueueGo(c, p, env, 0).flight) <= Outstanding(p.flight) + 1
  {
    var p1 := HappenAll(c, p, env(0));
    OutstandingOfLengths(p.flight, p1.flight);
    assert Low(p1);
    if p1.waiting != [] {
      var p0, f := p1.(waiting := p1.waiting[1..]), p1.waiting[0];
      SendsOne(c, p0, f);
      if TxFrame(c, p0, f).1 {
        LowStays(c, p0, f);
      }
    }
  }

  /** The work of the driver's thread: nothing unless it is scheduled, else all of the above. */
  lemma WorkEffect(c: Config, p: Pipe, env: nat -> seq<Event>)
    requires WellFormed(c, p)
    ensures var r := Step(c, p, Work(env));
            && (!p.scheduled ==> r == p)
            && (p.scheduled ==> EndsFor(c, p, r) && StopsFor(p, r) && (r.scheduled ==> |r.enqueued| > |p.enqueued|))
  {
    if p.scheduled {
      QueueGoEndsFor(c, p.(scheduled := false), env, 0);
    }
  }

  // ---- The full ring ----

  /** Two states agree on the full ring q: the same frames, nothing reported. */
  predicate Stuck(p: Pipe, r: Pipe, q: nat) {
    && q < |p.flight| == |r.flight| && q < |p.settled| == |r.settled|
    && |p.flight[q]| == TX_CNT
    && Flying(r.flight[q]) == Flying(p.flight[q]) && r.settled[q] == p.settled[q]
  }

  lemma {:induction false} HappenAllStuck(c: Config, p: Pipe, es: seq<Event>, q: nat)
    requires WellFormed(c, p) && q < c.queues && |p.flight[q]| == TX_CNT
    ensures Stuck(p, HappenAll(c, p, es), q)
    decreases |es|
  {
    if es == [] {
    } else {
      assert Flying(Happen(c, p, es[0]).flight[q]) == Flying(p.flight[q]);
      HappenAllStuck(c, Happen(c, p, es[0]), es[1..], q);
    }
  }

  /** A run of the loop on a full ring: at most one more failed attempt, then the queues are stopped. */
  lemma QueueGoStuck(c: Config, p: Pipe, env: nat -> seq<Event>, n: nat, q: nat)
    requires WellFormed(c, p) && q < c.queues && |p.flight[q]| == TX_CNT
    requires c.isMem ==> p.attempts < WAKE_ATTEMPTS
    ensures Stuck(p, QueueGo(c, p, env, n), q)
    ensures QueueGo(c, p, env, n).attempts <= p.attempts + 1
  {
    var p1 := HappenAll(c, p, env(n));
    HappenAllStuck(c, p, env(n), q);
    HappenAllSettlesNothing(c, p, env(n));
    if p1.waiting != [] {
      var (p2, sent) := TxFrame(c, p1.(waiting := p1.waiting[1..]), p1.waiting[0]);
      assert p2.flight[q] == p1.flight[q];
      assert TX_CNT - |p2.flight[q]| < TX_STOP_QUEUE;
      assert StopLimit(p2);
    }
  }

  lemma {:induction false} SettleStuck(c: Config, p: Pipe, q': nat, q: nat)
    requires WellFormed(c, p) && q' < c.queues && q < c.queues && q != q'
    ensures var r := SettleDone(c, p, q');
            r.flight[q] == p.flight[q] && r.settled[q] == p.settled[q] && r.attempts == p.attempts
    decreases |p.flight[q']|
  {
    if !TailDone(c, p, q') {
    } else {
      SettleStuck(c, SettleTail(c, p, q'), q', q);
    }
  }

  lemma {:induction false} CleanStuck(c: Config, p: Pipe, from: nat, q: nat)
    requires WellFormed(c, p) && from <= c.queues && q < c.queues && |p.flight[q]| == TX_CNT
    ensures var r := CleanFrom(c, p, from);
            r.flight[q] == p.flight[q] && r.settled[q] == p.settled[q] && r.attempts == p.attempts
    decreases c.queues - from
  {
    if from == c.queues {
    } else {
      if from != q {
        SettleStuck(c, p, from, q);
      }
      CleanStuck(c, CleanQueue(c, p, from), from + 1, q);
    }
  }

  function Works(ops: seq<Op>): nat {
    if ops == [] then 0 else (if ops[0].Work? then 1 else 0) + Works(ops[1..])
  }

  /**
   A full ring stays full and reports nothing, even when the card has finished every descriptor: on a
   PCI device for ever, on a MEM device until the driver has tried WAKE_ATTEMPTS more times.
   */
  lemma {:induction false} FullRingIsStuck(c: Config, p: Pipe, ops: seq<Op>, q: nat)
    requires WellFormed(c, p) && q < c.queues && |p.flight[q]| == TX_CNT
    requires c.isMem ==> p.attempts + Works(ops) <= WAKE_ATTEMPTS
    ensures Stuck(p, Run(c, p, ops), q)
    decreases |ops|
  {
    if ops == [] {
    } else {
      var r := Step(c, p, ops[0]);
      match ops[0] {
        case Happens(e) =>
          assert Flying(r.flight[q]) == Flying(p.flight[q]);
        case Work(env) =>
          if p.scheduled {
            QueueGoStuck(c, p.(scheduled := false), env, 0, q);
          }
        case TxIrq =>
          CleanStuck(c, p, 0, q);
      }
      assert |Flying(r.flight[q])| == |r.flight[q]|;
      FullRingIsStuck(c, r, ops[1..], q);
    }
  }

  /**
   What happens where the guard is met: the MEM device gets its sixteen descriptors and all its blocks back,
   at the price of the sixteen frames. None of them is reported, not even those that the card had finished.
   */
  lemma GuardDrops(c: Config, p: Pipe, env: nat -> seq<Event>)
    requires WellFormed(c, p) && DropGuard(c, p, Work(env))
    ensures var r := TxWork(c, p, env);
            && r.flight[0] == [] && r.blocksFree == c.blocks && r.attempts == 0 && r.stopped
            && |r.settled[0]| == |p.settled[0]| + TX_CNT && p.settled[0] <= r.settled[0]
            && (forall i :: 0 <= i < TX_CNT ==> r.settled[0][|p.settled[0]| + i] == Dropped(p.flight[0][i].frame))
            && r.waiting == HappenAll(c, p.(scheduled := false), env(0)).waiting
  {
    var p0 := p.(scheduled := false);
    var p1 := HappenAll(c, p0, env(0));
    HappenAllStuck(c, p0, env(0), 0);
    HappenAllSettlesNothing(c, p0, env(0));
    forall i | 0 <= i < TX_CNT
      ensures p1.flight[0][i].frame == p.flight[0][i].frame
    {
      assert Flying(p1.flight[0])[i] == Flying(p.flight[0])[i];
    }
  }

  function Quiet(n: nat): seq<Event> {
    []
  }

  /** One frame arrives and the loop runs. */
  function Rounds(fs: seq<Frame>): seq<Op> {
    if fs == [] then [] else [Happens(Arrival(fs[0])), Work(Quiet)] + Rounds(fs[1..])
  }

  lemma {:induction false} RunAppend(c: Config, p: Pipe, a: seq<Op>, b: seq<Op>)
    requires WellFormed(c, p)
    ensures Run(c, p, a + b) == Run(c, Run(c, p, a), b)
    decreases |a|
  {
    if a == [] {
      assert a + b == b;
    } else {
      assert (a + b)[0] == a[0] && (a + b)[1..] == a[1..] + b;
      RunAppend(c, Step(c, p, a[0]), a[1..], b);
    }
  }

  /** The first round of a run of rounds. */
  lemma FirstRound(c: Config, p: Pipe, f: Frame, k: nat)
    requires WellFormed(c, p) && k > 0
    ensures Run(c, p, Rounds(seq(k, _ => f)))
            == Run(c, Step(c, Step(c, p, Happens(Arrival(f))), Work(Quiet)), Rounds(seq(k - 1, _ => f)))
  {
    var fs := seq(k, _ => f);
    assert fs[1..] == seq(k - 1, _ => f);
    var round, rest := [Happens(Arrival(f)), Work(Quiet)], Rounds(fs[1..]);
    assert Rounds(fs) == round + rest;
    RunAppend(c, p, round, rest);
    assert round[1..] == [Work(Quiet)] && round[1..][1..] == [];
  }

  lemma OneRound(c: Config, p: Pipe, f: Frame)
    requires WellFormed(c, p) && !c.polite && p.waiting == []
    requires |p.flight[QueueOf(c, f)]| < TX_CNT && BlocksFor(c, f) <= p.blocksFree
    ensures var q := QueueOf(c, f);
            var r := Step(c, Step(c, p, Happens(Arrival(f))), Work(Quiet));
            && r.waiting == [] && r.blocksFree == p.blocksFree - BlocksFor(c, f) && r.attempts == p.attempts
            && r.flight == p.flight[q := p.flight[q] + [Entry(f, Pending)]]
  {
    var p1 := Happen(c, p, Arrival(f)).(scheduled := false);
    assert p1.waiting == [f] && p1.waiting[1..] == [];
    assert HappenAll(c, p1, Quiet(0)) == p1;
    var (p2, sent) := TxFrame(c, p1.(waiting := []), f);
    assert sent;
    var env: nat -> seq<Event> := Quiet;
    assert HappenAll(c, p1, env(0)) == p1 && HappenAll(c, p2, env(1)) == p2;
    if !StopLimit(p2) {
      assert QueueGo(c, p2, env, 1) == p2;
      assert QueueGo(c, p1, env, 0) == p2;
    }
  }

  /** If frames keep being handed over while the queues are stopped, the ring does fill up. */
  lemma {:induction false} ImpoliteRunsFill(c: Config, p: Pipe, f: Frame, k: nat)
    requires WellFormed(c, p) && !c.polite && p.waiting == []
    requires |p.flight[QueueOf(c, f)]| + k == TX_CNT && Span(k, BlocksFor(c, f)) <= p.blocksFree
    ensures var r := Run(c, p, Rounds(seq(k, _ => f)));
            |r.flight[QueueOf(c, f)]| == TX_CNT && r.waiting == [] && r.attempts == p.attempts
    decreases k
  {
    if k == 0 {
      assert Rounds(seq(0, _ => f)) == [];
    } else {
      OneRound(c, p, f);
      FirstRound(c, p, f, k);
      ImpoliteRunsFill(c, Step(c, Step(c, p, Happens(Arrival(f))), Work(Quiet)), f, k - 1);
    }
  }

  /** A round on a full ring: one more frame waits, and one more attempt is counted. */
  lemma FailingRound(c: Config, p: Pipe, f: Frame)
    requires WellFormed(c, p) && !c.polite && c.isMem && |p.flight[0]| == TX_CNT && p.attempts < WAKE_ATTEMPTS
    ensures var r := Step(c, Step(c, p, Happens(Arrival(f))), Work(Quiet));
            r.flight == p.flight && r.attempts == p.attempts + 1
  {
    var p1 := Happen(c, p, Arrival(f)).(scheduled := false);
    assert HappenAll(c, p1, Quiet(0)) == p1;
    var (p2, sent) := TxFrame(c, p1.(waiting := p1.waiting[1..]), p1.waiting[0]);
    assert !sent;
    assert QueueGo(c, p1, Quiet, 0) == p2.(stopped := true, waiting := [p1.waiting[0]] + p2.waiting);
  }

  lemma {:induction false} FailingRounds(c: Config, p: Pipe, f: Frame, k: nat)
    requires WellFormed(c, p) && !c.polite && c.isMem && |p.flight[0]| == TX_CNT && p.attempts + k <= WAKE_ATTEMPTS
    ensures var r := Run(c, p, Rounds(seq(k, _ => f)));
            |r.flight[0]| == TX_CNT && r.attempts == p.attempts + k
    decreases k
  {
    if k == 0 {
      assert Rounds(seq(0, _ => f)) == [];
    } else {
      FailingRound(c, p, f);
      FirstRound(c, p, f, k);
      FailingRounds(c, Step(c, Step(c, p, Happens(Arrival(f))), Work(Quiet)), f, k - 1);
    }
  }

  /** The frames and loops that lead a fresh device to the guard. */
  function Flood(f: Frame): seq<Op> {
    Rounds(seq(TX_CNT, _ => f)) + Rounds(seq(WAKE_ATTEMPTS, _ => f)) + [Happens(Arrival(f))]
  }

  /**
   The guard can be reached: a fresh MEM device whose card never finishes anything drops frames when an
   impolite mac80211 hands over 27 frames that fit the pool sixteen times.
   */
  lemma ImpoliteRunsDrop(c: Config, f: Frame)
    requires c.Ok() && c.isMem && !c.polite && TX_CNT * BlocksFor(c, f) <= c.blocks
    ensures DropGuard(c, Run(c, Init(c), Flood(f)), Work(Quiet))
    ensures !NoDrops(Run(c, Init(c), Flood(f) + [Work(Quiet)]))
  {
    var p0 := Init(c);
    var fill, fail, last := Rounds(seq(TX_CNT, _ => f)), Rounds(seq(WAKE_ATTEMPTS, _ => f)), [Happens(Arrival(f))];
    SpanIsProduct(TX_CNT, BlocksFor(c, f));
    ImpoliteRunsFill(c, p0, f, TX_CNT);
    var p1 := Run(c, p0, fill);
    FailingRounds(c, p1, f, WAKE_ATTEMPTS);
    var p2 := Run(c, p1, fail);
    RunAppend(c, p0, fill, fail);
    RunAppend(c, p0, fill + fail, last);
    var p3 := Run(c, p0, Flood(f));
    assert last[1..] == [];
    assert p3 == Happen(c, p2, Arrival(f));
    assert HappenAll(c, p3.(scheduled := false), Quiet(0)) == p3.(scheduled := false);
    GuardDrops(c, p3, Quiet);
    RunAppend(c, p0, Flood(f), [Work(Quiet)]);
    var r := TxWork(c, p3, Quiet);
    assert [Work(Quiet)][1..] == [];
    assert r.settled[0][|p3.settled[0]|].Dropped?;
  }
}
