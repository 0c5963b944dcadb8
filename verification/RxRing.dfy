/**
 The receive descriptor ring of PCI and MEM devices (pci.c, mem.c). The driver's pass is a sequence of looks
 at a descriptor, and the card may fill descriptors, in ring order, between any two of them. Frame contents
 are opaque identifiers.
 */
module RxRing {
  import opened Words

  const RX_CNT: nat := 16

  /**
   A receive descriptor: the control byte, DESC_STATUS_FULL of the host descriptor (PCI), ACXMemPtr (MEM)
   and the frame behind it.
   */
  datatype RxDesc = RxDesc(ctl: Byte, statusFull: bool, acxMemPtr: Half, frame: int)

  predicate Bit(ctl: Byte, mask: nat)
    requires 0 < mask
  {
    ctl / mask % 2 == 1
  }

  /** DESC_CTL_HOSTOWN and DESC_CTL_ACXDONE on MEM; DESC_CTL_HOSTOWN and DESC_STATUS_FULL on PCI. */
  predicate IsFull(isMem: bool, d: RxDesc) {
    Bit(d.ctl, 0x80) && if isMem then Bit(d.ctl, 0x40) else d.statusFull
  }

  /** What processing a full descriptor hands to acx_process_rxbuf: nothing, if it only reclaims memory. */
  function Delivered(isMem: bool, d: RxDesc): seq<int> {
    if isMem && (Bit(d.ctl, 0x08) || d.acxMemPtr == 0) then [] else [d.frame]
  }

  /** The descriptor given back to the card: HOSTOWN off; on MEM HOSTDONE and RECLAIM on. */
  function Released(isMem: bool, d: RxDesc): (r: RxDesc)
    requires Bit(d.ctl, 0x80)
    ensures !IsFull(isMem, r)
  {
    var ctl: int := d.ctl - 0x80;
    if isMem then
      var c1 := if Bit(ctl, 0x20) then ctl else ctl + 0x20;
      var c2 := if Bit(c1, 0x08) then c1 else c1 + 0x08;
      d.(ctl := c2, statusFull := false)
    else d.(ctl := ctl, statusFull := false)
  }

  /** (i + 1) % RX_CNT */
  function Next(i: nat): (r: nat)
    requires i < RX_CNT
    ensures r == (i + 1) % RX_CNT
  {
    if i + 1 < RX_CNT then i + 1 else 0
  }

  /** The slot d places behind t: (t + d) % RX_CNT. */
  function At(t: nat, d: nat): (r: nat)
    requires t < RX_CNT && d <= RX_CNT
    ensures r == (t + d) % RX_CNT
  {
    if t + d < RX_CNT then t + d else t + d - RX_CNT
  }

  // ---- The driver, look by look ----

  /**
   Where the driver is: outside a pass; about to look at t for the first full descriptor, with count looks
   left; about to handle i, which it has seen full; about to look at t, the next one.
   */
  datatype Pc = Idle | Searching(t: nat, count: nat) | Draining(i: nat) | Looking(t: nat)

  /** The ring with the card's own index, what has arrived and what the driver has received. */
  datatype RxState = RxState(
    ring: seq<RxDesc>, tail: nat, card: nat, arrived: seq<int>, received: seq<int>, pc: Pc)

  predicate Ok(isMem: bool, s: RxState) {
    && |s.ring| == RX_CNT && s.tail < RX_CNT && s.card < RX_CNT
    && match s.pc
       case Idle => true
       case Searching(t, count) => 1 <= count <= RX_CNT && t == At(s.tail, RX_CNT - count)
       case Draining(i) => i < RX_CNT && IsFull(isMem, s.ring[i])
       case Looking(t) => t < RX_CNT
  }

  /** The card fills its next descriptor, unless the driver still has it. */
  function Fill(isMem: bool, s: RxState, d: RxDesc): (r: RxState)
    requires Ok(isMem, s)
    ensures Ok(isMem, r) && r.pc == s.pc
  {
    if IsFull(isMem, s.ring[s.card]) || !IsFull(isMem, d) then s
    else s.(ring := s.ring[s.card := d], card := Next(s.card), arrived := s.arrived + Delivered(isMem, d))
  }

  function Fills(isMem: bool, s: RxState, ds: seq<RxDesc>): (r: RxState)
    requires Ok(isMem, s)
    ensures Ok(isMem, r) && r.pc == s.pc
    decreases |ds|
  {
    if ds == [] then s else Fills(isMem, Fill(isMem, s, ds[0]), ds[1..])
  }

  function Begin(s: RxState): RxState {
    s.(pc := Searching(s.tail, RX_CNT))
  }

  /** One step of the driver. */
  function DriverStep(isMem: bool, s: RxState): (r: RxState)
    requires Ok(isMem, s)
    ensures Ok(isMem, r)
  {
    match s.pc
    case Idle => Begin(s)
    case Searching(t, count) =>
      if IsFull(isMem, s.ring[t]) then s.(pc := Draining(t))
      else if count == 1 then s.(pc := Idle, tail := Next(t))
      else s.(pc := Searching(Next(t), count - 1))
    case Draining(i) =>
      s.(ring := s.ring[i := Released(isMem, s.ring[i])],
         received := s.received + Delivered(isMem, s.ring[i]),
         pc := Looking(Next(i)))
    case Looking(t) =>
      if IsFull(isMem, s.ring[t]) then s.(pc := Draining(t)) else s.(pc := Idle, tail := t)
  }

  function FullCount(isMem: bool, ring: seq<RxDesc>): nat {
    if ring == [] then 0 else (if IsFull(isMem, ring[0]) then 1 else 0) + FullCount(isMem, ring[1..])
  }

  lemma {:induction false} ReleaseDecreases(isMem: bool, ring: seq<RxDesc>, i: nat)
    requires i < |ring| && IsFull(isMem, ring[i])
    ensures FullCount(isMem, ring[i := Released(isMem, ring[i])]) == FullCount(isMem, ring) - 1
  {
    var r := Released(isMem, ring[i]);
    if i == 0 {
      assert ring[0 := r][1..] == ring[1..];
    } else {
      assert ring[i := r][1..] == ring[1..][i - 1 := r];
      ReleaseDecreases(isMem, ring[1..], i - 1);
    }
  }

  /** Steps left while the card is quiet: every full descriptor is good for a few. */
  function Effort(isMem: bool, s: RxState): nat {
    3 * FullCount(isMem, s.ring) +
      match s.pc case Idle => 0 case Searching(_, count) => 2 + count case Draining(_) => 1 case Looking(_) => 2
  }

  lemma StepsEnd(isMem: bool, s: RxState)
    requires Ok(isMem, s) && s.pc != Idle
    ensures Effort(isMem, DriverStep(isMem, s)) < Effort(isMem, s)
  {
    if s.pc.Draining? {
      ReleaseDecreases(isMem, s.ring, s.pc.i);
    }
  }

  /** What the card does before the next step of the driver; after env it is quiet. */
  function CardTurn(isMem: bool, s: RxState, env: seq<seq<RxDesc>>): (r: RxState)
    requires Ok(isMem, s)
    ensures Ok(isMem, r) && r.pc == s.pc
  {
    if env == [] then s else Fills(isMem, s, env[0])
  }

  function Rest(env: seq<seq<RxDesc>>): seq<seq<RxDesc>> {
    if env == [] then [] else env[1..]
  }

  /** A pass to its end, with the card filling descriptors meanwhile. */
  function Pass(isMem: bool, s: RxState, env: seq<seq<RxDesc>>): (r: RxState)
    requires Ok(isMem, s)
    ensures Ok(isMem, r) && r.pc == Idle
    decreases |env|, Effort(isMem, s)
  {
    if s.pc == Idle then s
    else
      StepsEnd(isMem, CardTurn(isMem, s, env));
      Pass(isMem, DriverStep(isMem, CardTurn(isMem, s, env)), Rest(env))
  }

  /** One step of a pass. */
  lemma PassNext(isMem: bool, s: RxState, env: seq<seq<RxDesc>>)
    requires Ok(isMem, s) && s.pc != Idle
    ensures Pass(isMem, s, env) == Pass(isMem, DriverStep(isMem, CardTurn(isMem, s, env)), Rest(env))
  {
  }

  /** From s with env, two steps of the driver lead to r with rest: what the pass will do in the end is the same. */
  ghost predicate Round(isMem: bool, s: RxState, env: seq<seq<RxDesc>>, r: RxState, rest: seq<seq<RxDesc>>)
    requires Ok(isMem, s) && Ok(isMem, r)
  {
    && Pass(isMem, r, rest) == Pass(isMem, s, env)
    && (env == [] ==> Effort(isMem, r) < Effort(isMem, s))
  }

  lemma TwoSteps(isMem: bool, s: RxState, env: seq<seq<RxDesc>>)
    requires Ok(isMem, s) && s.pc.Draining?
    ensures var s1 := DriverStep(isMem, CardTurn(isMem, s, env));
            Round(isMem, s, env, DriverStep(isMem, CardTurn(isMem, s1, Rest(env))), Rest(Rest(env)))
  {
    var s1 := DriverStep(isMem, CardTurn(isMem, s, env));
    PassNext(isMem, s, env);
    PassNext(isMem, s1, Rest(env));
    if env == [] {
      StepsEnd(isMem, s);
      StepsEnd(isMem, s1);
    }
  }

  class RxQueue {
    const isMem: bool
    const desc: array<RxDesc>
    var tail: nat
    /** The card's own index. */
    var card: nat
    /** Frames put into the ring, and calls of acx_process_rxbuf. */
    ghost var arrived: seq<int>
    ghost var received: seq<int>

    constructor (isMem: bool, desc: array<RxDesc>)
      requires desc.Length == RX_CNT
      ensures this.isMem == isMem && this.desc == desc && Valid(Idle)
      ensures State(Idle) == RxState(desc[..], 0, 0, [], [], Idle)
    {
      this.isMem, this.desc := isMem, desc;
      tail, card, arrived, received := 0, 0, [], [];
    }

    ghost function State(pc: Pc): RxState
      reads this, desc
    {
      RxState(desc[..], tail, card, arrived, received, pc)
    }

    ghost predicate Valid(pc: Pc)
      reads this, desc
    {
      Ok(isMem, State(pc))
    }

    /** The card fills the next descriptor. */
    method CardFills(d: RxDesc, ghost pc: Pc)
      requires Valid(pc)
      modifies this`card, this`arrived, desc
      ensures Valid(pc) && State(pc) == Fill(isMem, old(State(pc)), d)
    {
      assert State(pc).ring[card] == desc[card];
      if !IsFull(isMem, desc[card]) && IsFull(isMem, d) {
        arrived := arrived + Delivered(isMem, d);
        desc[card] := d;
        card := (card + 1) % RX_CNT;
        assert State(pc) == Fill(isMem, old(State(pc)), d);
      }
    }

    /** The card's turn before the next step of the driver. */
    method TakeTurn(env: seq<seq<RxDesc>>, ghost pc: Pc) returns (rest: seq<seq<RxDesc>>)
      requires Valid(pc)
      modifies this`card, this`arrived, desc
      ensures Valid(pc) && State(pc) == CardTurn(isMem, old(State(pc)), env) && rest == Rest(env)
    {
      if env == [] {
        return [];
      }
      var ds := env[0];
      ghost var goal := Fills(isMem, State(pc), ds);
      var k := 0;
      while k < |ds|
        invariant 0 <= k <= |ds| && Valid(pc) && tail == old(tail) && received == old(received)
        invariant Fills(isMem, State(pc), ds[k..]) == goal
      {
        assert ds[k..][0] == ds[k] && ds[k..][1..] == ds[k + 1..];
        CardFills(ds[k], pc);
        k := k + 1;
      }
      rest := env[1..];
    }

    /** The card's turn, and a look at t in search of the first full descriptor; count looks are left. */
    method LookFirst(t: nat, count: nat, env: seq<seq<RxDesc>>) returns (pc: Pc, rest: seq<seq<RxDesc>>)
      requires Valid(Searching(t, count))
      modifies this, desc
      ensures rest == Rest(env) && Valid(pc) && !pc.Looking? && (pc.Searching? ==> pc.count < count)
      ensures State(pc) == DriverStep(isMem, CardTurn(isMem, old(State(Searching(t, count))), env))
    {
      rest := TakeTurn(env, Searching(t, count));
      ghost var s := State(Searching(t, count));
      assert s.ring[t] == desc[t];
      if IsFull(isMem, desc[t]) {
        pc := Draining(t);
      } else if count == 1 {
        tail := (t + 1) % RX_CNT;
        pc := Idle;
      } else {
        pc := Searching((t + 1) % RX_CNT, count - 1);
      }
      assert State(pc) == DriverStep(isMem, s);
    }

    /** The first loop of a pass: ends at the first descriptor seen full, or idle after RX_CNT looks. */
    method Search(env: seq<seq<RxDesc>>) returns (pc: Pc, rest: seq<seq<RxDesc>>)
      requires Valid(Idle)
      modifies this, desc
      ensures Valid(pc) && (pc.Draining? || pc == Idle)
      ensures Pass(isMem, State(pc), rest) == Pass(isMem, Begin(old(State(Idle))), env)
    {
      ghost var goal := Pass(isMem, Begin(State(Idle)), env);
      pc, rest := Searching(tail, RX_CNT), env;
      while pc.Searching?
        invariant Valid(pc) && !pc.Looking? && Pass(isMem, State(pc), rest) == goal
        decreases if pc.Searching? then pc.count else 0
      {
        PassNext(isMem, State(pc), rest);
        pc, rest := LookFirst(pc.t, pc.count, rest);
      }
    }

    /** Hands slot i to the receive path and gives it back to the card. */
    method Handle(i: nat)
      requires i < RX_CNT && Valid(Draining(i))
      modifies this`received, desc
      ensures Valid(Looking(Next(i))) && State(Looking(Next(i))) == DriverStep(isMem, old(State(Draining(i))))
    {
      assert State(Draining(i)).ring[i] == desc[i];
      received := received + Delivered(isMem, desc[i]);
      desc[i] := Released(isMem, desc[i]);
      assert State(Looking(Next(i))) == DriverStep(isMem, old(State(Draining(i))));
    }

    /** The card's turn, and the look at t behind a descriptor that has been handled. */
    method LookNext(t: nat, env: seq<seq<RxDesc>>) returns (more: bool, rest: seq<seq<RxDesc>>)
      requires t < RX_CNT && Valid(Looking(t))
      modifies this, desc
      ensures rest == Rest(env)
      ensures var s := DriverStep(isMem, CardTurn(isMem, old(State(Looking(t))), env));
        if more then Valid(Draining(t)) && State(Draining(t)) == s else Valid(Idle) && State(Idle) == s
    {
      rest := TakeTurn(env, Looking(t));
      ghost var s := State(Looking(t));
      assert s.ring[t] == desc[t];
      more := IsFull(isMem, desc[t]);
      if more {
        assert State(Draining(t)) == DriverStep(isMem, s);
      } else {
        tail := t;
        assert State(Idle) == DriverStep(isMem, s);
      }
    }

    /** One round of the second loop: t is behind i, and the loop goes on if it is full by then. */
    method DrainOne(i: nat, env: seq<seq<RxDesc>>) returns (more: bool, t: nat, rest: seq<seq<RxDesc>>)
      requires i < RX_CNT && Valid(Draining(i))
      modifies this, desc
      ensures t == Next(i) && rest == Rest(Rest(env))
      ensures if more then Valid(Draining(t)) && Round(isMem, old(State(Draining(i))), env, State(Draining(t)), rest)
        else Valid(Idle) && Round(isMem, old(State(Draining(i))), env, State(Idle), rest)
    {
      ghost var s0 := State(Draining(i));
      rest := TakeTurn(env, Draining(i));
      Handle(i);
      t := (i + 1) % RX_CNT;
      TwoSteps(isMem, s0, env);
      more, rest := LookNext(t, rest);
    }

    /** The second loop of a pass: slot start has been seen full. */
    method Drain(start: nat, env: seq<seq<RxDesc>>)
      requires start < RX_CNT && Valid(Draining(start))
      modifies this, desc
      ensures Valid(Idle) && State(Idle) == Pass(isMem, old(State(Draining(start))), env)
    {
      ghost var goal := Pass(isMem, State(Draining(start)), env);
      var i: nat, rest := start, env;
      while true
        invariant i < RX_CNT && Valid(Draining(i)) && Pass(isMem, State(Draining(i)), rest) == goal
        decreases |rest|, Effort(isMem, State(Draining(i)))
      {
        var more, t;
        more, t, rest := DrainOne(i, rest);
        if !more {
          return;
        }
        i := t;
      }
    }

    /** `acxpci_process_rxdesc` and `acxmem_process_rxdesc` */
    method ProcessRxdesc(env: seq<seq<RxDesc>>)
      requires Valid(Idle)
      modifies this, desc
      ensures Valid(Idle) && State(Idle) == Pass(isMem, Begin(old(State(Idle))), env)
      ensures env == [] ==>
        forall m, n :: FirstRun(isMem, old(desc[..]), old(tail), m, n) ==>
          RunReceived(isMem, old(State(Idle)), State(Idle), m, n)
    {
      ghost var s := State(Idle);
      forall m: nat, n: nat | env == [] && FirstRun(isMem, s.ring, s.tail, m, n)
        ensures RunReceived(isMem, s, Pass(isMem, Begin(s), []), m, n)
      {
        QuietPassReceives(isMem, s, m, n);
      }
      var pc, rest := Search(env);
      if pc.Draining? {
        Drain(pc.i, rest);
      }
    }
  }

  // ---- A pass with a quiet card, descriptor by descriptor ----

  /** The bits that make a descriptor full: the two upper ones of Ctl_8, or the upper one and DESC_STATUS_FULL. */
  predicate HasArrived(isMem: bool, d: RxDesc) {
    if isMem then 0xc0 <= d.ctl else 0x80 <= d.ctl && d.statusFull
  }

  /** The frames of a list of descriptors; on MEM one that is only reclaimed or points nowhere has none. */
  function FramesIn(isMem: bool, ds: seq<RxDesc>): seq<int> {
    if ds == [] then []
    else
      (if isMem && (ds[0].ctl / 8 % 2 == 1 || ds[0].acxMemPtr == 0) then [] else [ds[0].frame])
        + FramesIn(isMem, ds[1..])
  }

  /** If every descriptor of the list has a frame, those are the frames, in the order of the list. */
  lemma {:induction false} EachHasOne(isMem: bool, ds: seq<RxDesc>)
    requires forall i :: 0 <= i < |ds| ==> !isMem || (ds[i].ctl / 8 % 2 == 0 && ds[i].acxMemPtr != 0)
    ensures FramesIn(isMem, ds) == seq(|ds|, i requires 0 <= i < |ds| => ds[i].frame)
  {
    if ds == [] {
    } else {
      EachHasOne(isMem, ds[1..]);
    }
  }

  /** Whether r is d, given back to the card: HOSTOWN is taken off, on MEM HOSTDONE and RECLAIM are put on. */
  predicate GivenBack(isMem: bool, d: RxDesc, r: RxDesc) {
    && r == d.(ctl := r.ctl, statusFull := false)
    && r.ctl == d.ctl - 0x80 + if !isMem then 0 else
         (if d.ctl / 0x20 % 2 == 0 then 0x20 else 0) + (if d.ctl / 8 % 2 == 0 then 8 else 0)
  }

  lemma FullBits(isMem: bool, d: RxDesc)
    ensures IsFull(isMem, d) <==> HasArrived(isMem, d)
  {
  }

  lemma FramesBits(isMem: bool, d: RxDesc)
    ensures FramesIn(isMem, [d]) == Delivered(isMem, d)
  {
    assert [d][1..] == [];
  }

  lemma ReleasedBits(isMem: bool, d: RxDesc)
    requires IsFull(isMem, d)
    ensures GivenBack(isMem, d, Released(isMem, d))
  {
    var c: nat := d.ctl;
    assert (c - 0x80) / 0x20 % 2 == c / 0x20 % 2;
    assert (c - 0x80) / 8 % 2 == c / 8 % 2 == (c - 0x80 + 0x20) / 8 % 2;
  }

  /** The n descriptors from slot t on, around the ring. */
  function Window(ring: seq<RxDesc>, t: nat, n: nat): (ds: seq<RxDesc>)
    requires |ring| == RX_CNT
    ensures |ds| == n
  {
    seq(n, i requires 0 <= i < n => ring[(t + i) % 16])
  }

  /**
   From slot t on, m descriptors are not full, and then comes a run of n full ones; with no full descriptor
   in the ring, m is 16.
   */
  predicate FirstRun(isMem: bool, ring: seq<RxDesc>, t: nat, m: nat, n: nat) {
    && |ring| == RX_CNT && t < RX_CNT && m + n <= 16 && (n == 0 ==> m == 16)
    && (forall i :: 0 <= i < m ==> !HasArrived(isMem, ring[At(t, i)]))
    && (forall i :: m <= i < m + n ==> HasArrived(isMem, ring[At(t, i)]))
    && (n > 0 && m + n < 16 ==> !HasArrived(isMem, ring[At(t, m + n)]))
  }

  /** Every ring has such a run. */
  lemma FindRun(isMem: bool, ring: seq<RxDesc>, t: nat) returns (m: nat, n: nat)
    requires |ring| == RX_CNT && t < RX_CNT
    ensures FirstRun(isMem, ring, t, m, n)
  {
    m, n := 0, 0;
    while m < 16 && !HasArrived(isMem, ring[At(t, m)])
      invariant m <= 16 && forall i :: 0 <= i < m ==> !HasArrived(isMem, ring[At(t, i)])
    {
      m := m + 1;
    }
    while m + n < 16 && HasArrived(isMem, ring[At(t, m + n)])
      invariant m + n <= 16 && forall i :: m <= i < m + n ==> HasArrived(isMem, ring[At(t, i)])
    {
      n := n + 1;
    }
  }

  /**
   What a pass with a quiet card does to a ring with such a run: it receives the frames of the run, gives its
   descriptors back, leaves tail behind it, and changes nothing else.
   */
  predicate RunReceived(isMem: bool, s: RxState, r: RxState, m: nat, n: nat)
    requires |s.ring| == |r.ring| == RX_CNT && s.tail < RX_CNT && m + n <= 16
  {
    && r.received == s.received + FramesIn(isMem, Window(s.ring, s.tail + m, n))
    && r.tail == (s.tail + m + n) % 16
    && r.arrived == s.arrived && r.card == s.card
    && forall i :: 0 <= i < 16 ==> SlotAfter(isMem, s.ring[At(s.tail, i)], r.ring[At(s.tail, i)], m <= i < m + n)
  }

  predicate SlotAfter(isMem: bool, d: RxDesc, r: RxDesc, handled: bool) {
    if handled then GivenBack(isMem, d, r) else r == d
  }

  lemma WindowShift(isMem: bool, ring: seq<RxDesc>, a: nat, n: nat, d: RxDesc)
    requires |ring| == RX_CNT && a < RX_CNT && 0 < n <= 16
    ensures Window(ring, a, n) == [ring[a]] + Window(ring[a := d], Next(a), n - 1)
    ensures FramesIn(isMem, Window(ring, a, n))
            == Delivered(isMem, ring[a]) + FramesIn(isMem, Window(ring[a := d], Next(a), n - 1))
  {
    var w, w' := Window(ring, a, n), Window(ring[a := d], Next(a), n - 1);
    forall i | 0 <= i < n - 1
      ensures w[i + 1] == w'[i]
    {
      Places(a, i, i);
      assert At(Next(a), i) == At(a, i + 1) != a;
    }
    assert w[0] == ring[a];
    assert w == [ring[a]] + w';
    assert w[1..] == w';
    FramesBits(isMem, ring[a]);
    assert [ring[a]][1..] == [];
    assert FramesIn(isMem, []) == [];
  }

  /** Of the slots from a on, the first n have been given back, as far as the i-th of them is concerned. */
  predicate HandledUpTo(isMem: bool, ring: seq<RxDesc>, ring': seq<RxDesc>, a: nat, n: nat, i: nat)
    requires |ring| == |ring'| == RX_CNT && a < RX_CNT && i < RX_CNT
  {
    var d := ring[At(a, i)];
    ring'[At(a, i)] == if i < n && IsFull(isMem, d) then Released(isMem, d) else d
  }

  lemma HandledOneMore(isMem: bool, ring: seq<RxDesc>, ring1: seq<RxDesc>, ring': seq<RxDesc>, a: nat, n: nat)
    requires |ring| == |ring'| == RX_CNT && a < RX_CNT && 0 < n <= 16 && IsFull(isMem, ring[a])
    requires ring1 == ring[a := Released(isMem, ring[a])]
    requires var b, k := Next(a), n - 1; forall e :: 0 <= e < 16 ==> HandledUpTo(isMem, ring1, ring', b, k, e)
    ensures forall i :: 0 <= i < 16 ==> HandledUpTo(isMem, ring, ring', a, n, i)
  {
    forall i | 0 <= i < 16
      ensures HandledUpTo(isMem, ring, ring', a, n, i)
    {
      var e := if i == 0 then 15 else i - 1;
      Places(a, e, e);
      Places(a, 0, i);
      assert HandledUpTo(isMem, ring1, ring', Next(a), n - 1, e);
    }
  }

  /** Slots from a on that are full, and the one behind them, as seen from the next slot once a is given back. */
  lemma RunShift(isMem: bool, ring: seq<RxDesc>, a: nat, n: nat)
    requires |ring| == RX_CNT && a < RX_CNT && 0 < n <= 16
    requires forall i :: 0 <= i < n ==> IsFull(isMem, ring[At(a, i)])
    requires n < 16 ==> !IsFull(isMem, ring[At(a, n)])
    ensures IsFull(isMem, ring[a])
    ensures var ring' := ring[a := Released(isMem, ring[a])];
            && (forall i :: 0 <= i < n - 1 ==> IsFull(isMem, ring'[At(Next(a), i)]))
            && !IsFull(isMem, ring'[At(Next(a), n - 1)])
  {
    Places(a, 0, 0);
    assert IsFull(isMem, ring[At(a, 0)]);
    forall i | 0 <= i < n
      ensures At(Next(a), i) == At(a, i + 1) && (i < 15 ==> At(a, i + 1) != a)
    {
      Places(a, i, i);
      if i < 15 {
        Places(a, i + 1, 0);
      }
    }
  }

  /** The second loop, from slot a on, over a run of n full descriptors. */
  lemma {:induction false} DrainQuiet(isMem: bool, s: RxState, n: nat)
    requires Ok(isMem, s) && s.pc.Draining? && 0 < n <= 16
    requires forall i :: 0 <= i < n ==> IsFull(isMem, s.ring[At(s.pc.i, i)])
    requires n < 16 ==> !IsFull(isMem, s.ring[At(s.pc.i, n)])
    ensures var a, r := s.pc.i, Pass(isMem, s, []);
            && r.received == s.received + FramesIn(isMem, Window(s.ring, a, n))
            && r.tail == At(a, n) && r.arrived == s.arrived && r.card == s.card
            && forall i :: 0 <= i < 16 ==> HandledUpTo(isMem, s.ring, r.ring, a, n, i)
    decreases n
  {
    var a := s.pc.i;
    var s1 := DriverStep(isMem, s);
    var s2 := DriverStep(isMem, s1);
    PassNext(isMem, s, []);
    PassNext(isMem, s1, []);
    WindowShift(isMem, s.ring, a, n, Released(isMem, s.ring[a]));
    Regroup(s.received, Delivered(isMem, s.ring[a]), FramesIn(isMem, Window(s1.ring, Next(a), n - 1)));
    RunShift(isMem, s.ring, a, n);
    Places(a, n - 1, n - 1);
    Places(Next(a), 0, 0);
    if n == 1 {
      assert s2 == s1.(pc := Idle, tail := Next(a));
      assert FramesIn(isMem, Window(s1.ring, Next(a), 0)) == [];
    } else {
      assert IsFull(isMem, s1.ring[At(Next(a), 0)]);
      assert s2 == s1.(pc := Draining(Next(a)));
      DrainQuiet(isMem, s2, n - 1);
    }
    HandledOneMore(isMem, s.ring, s1.ring, Pass(isMem, s2, []).ring, a, n);
  }

  /** The first loop: it ends at the first full descriptor, or leaves everything as it was. */
  lemma {:induction false} SearchQuiet(isMem: bool, s: RxState, i: nat, m: nat)
    requires Ok(isMem, s) && i < 16 && i <= m <= 16 && s.pc == Searching(At(s.tail, i), 16 - i)
    requires forall k :: i <= k < m ==> !IsFull(isMem, s.ring[At(s.tail, k)])
    requires m < 16 ==> IsFull(isMem, s.ring[At(s.tail, m)])
    ensures m == 16 ==> Pass(isMem, s, []) == s.(pc := Idle)
    ensures m < 16 ==> Pass(isMem, s, []) == Pass(isMem, s.(pc := Draining(At(s.tail, m))), [])
    decreases 16 - i
  {
    PassNext(isMem, s, []);
    Places(s.tail, i, i);
    if i == 15 && m == 16 {
      Places(s.tail, 0, 0);
    } else if i < m {
      SearchQuiet(isMem, DriverStep(isMem, s), i + 1, m);
    }
  }

  /** A pass with a quiet card, from any ring. */
  lemma QuietPassReceives(isMem: bool, s: RxState, m: nat, n: nat)
    requires Ok(isMem, s) && s.pc == Idle && FirstRun(isMem, s.ring, s.tail, m, n)
    ensures var r := Pass(isMem, Begin(s), []);
            RunReceived(isMem, s, r, m, n) && (n == 0 ==> r == s)
  {
    var b := Begin(s);
    forall i | 0 <= i < 16
      ensures IsFull(isMem, s.ring[i]) <==> HasArrived(isMem, s.ring[i])
      ensures IsFull(isMem, s.ring[i]) ==> GivenBack(isMem, s.ring[i], Released(isMem, s.ring[i]))
    {
      FullBits(isMem, s.ring[i]);
      if IsFull(isMem, s.ring[i]) {
        ReleasedBits(isMem, s.ring[i]);
      }
    }
    Places(s.tail, 0, 0);
    SearchQuiet(isMem, b, 0, m);
    if n == 0 {
      assert FramesIn(isMem, Window(s.ring, s.tail + m, 0)) == [];
    } else {
      RunFromThere(isMem, s, m, n);
    }
  }

  /** Places counted from the slot m places behind t. */
  lemma Around(t: nat, m: nat, i: nat)
    requires t < 16 && m < 16 && i <= 16
    ensures At(At(t, m), i) == if m + i <= 16 then At(t, m + i) else At(t, m + i - 16)
    ensures At(At(t, m), i) == (t + m + i) % 16
  {
  }

  lemma AddMod(x: nat, i: nat)
    ensures (x % 16 + i) % 16 == (x + i) % 16
  {
  }

  lemma WindowFrom(ring: seq<RxDesc>, t: nat, m: nat, n: nat)
    requires |ring| == RX_CNT && t < 16 && m < 16
    ensures Window(ring, At(t, m), n) == Window(ring, t + m, n)
  {
    forall i: nat | i < n
      ensures Window(ring, At(t, m), n)[i] == Window(ring, t + m, n)[i]
    {
      AddMod(t + m, i);
    }
  }

  /** The run of full descriptors, counted from its own start. */
  lemma RunFrom(isMem: bool, ring: seq<RxDesc>, t: nat, m: nat, n: nat)
    requires m < 16 && 0 < n && FirstRun(isMem, ring, t, m, n)
    requires forall i :: 0 <= i < 16 ==> (IsFull(isMem, ring[i]) <==> HasArrived(isMem, ring[i]))
    ensures forall i :: 0 <= i < n ==> IsFull(isMem, ring[At(At(t, m), i)])
    ensures n < 16 ==> !IsFull(isMem, ring[At(At(t, m), n)])
  {
    forall i | 0 <= i < n
      ensures IsFull(isMem, ring[At(At(t, m), i)])
    {
      Around(t, m, i);
    }
    Around(t, m, n);
    Places(t, 0, 0);
    assert m > 0 ==> !HasArrived(isMem, ring[At(t, 0)]);
  }

  lemma SlotFrom(isMem: bool, ring: seq<RxDesc>, ring': seq<RxDesc>, t: nat, m: nat, n: nat, i: nat, e: nat)
    requires |ring| == |ring'| == RX_CNT && t < 16 && m < 16 && m + n <= 16 && i < 16
    requires e == if i < m then i + 16 - m else i - m
    requires HandledUpTo(isMem, ring, ring', At(t, m), n, e)
    requires m <= i < m + n ==> IsFull(isMem, ring[At(t, i)])
    requires IsFull(isMem, ring[At(t, i)]) ==> GivenBack(isMem, ring[At(t, i)], Released(isMem, ring[At(t, i)]))
    ensures SlotAfter(isMem, ring[At(t, i)], ring'[At(t, i)], m <= i < m + n)
  {
    Around(t, m, e);
  }

  lemma SlotsFrom(isMem: bool, ring: seq<RxDesc>, ring': seq<RxDesc>, t: nat, m: nat, n: nat, a: nat)
    requires |ring'| == RX_CNT && m < 16 && 0 < n && FirstRun(isMem, ring, t, m, n) && a == At(t, m)
    requires forall i :: 0 <= i < 16 ==> (IsFull(isMem, ring[i]) <==> HasArrived(isMem, ring[i]))
    requires forall i :: 0 <= i < 16 && IsFull(isMem, ring[i]) ==>
      GivenBack(isMem, ring[i], Released(isMem, ring[i]))
    requires forall e :: 0 <= e < 16 ==> HandledUpTo(isMem, ring, ring', a, n, e)
    ensures forall i :: 0 <= i < 16 ==> SlotAfter(isMem, ring[At(t, i)], ring'[At(t, i)], m <= i < m + n)
  {
    forall i | 0 <= i < 16
      ensures SlotAfter(isMem, ring[At(t, i)], ring'[At(t, i)], m <= i < m + n)
    {
      var e := if i < m then i + 16 - m else i - m;
      assert HandledUpTo(isMem, ring, ring', a, n, e);
      SlotFrom(isMem, ring, ring', t, m, n, i, e);
    }
  }

  lemma RunFromThere(isMem: bool, s: RxState, m: nat, n: nat)
    requires Ok(isMem, s) && s.pc == Idle && m < 16 && 0 < n && FirstRun(isMem, s.ring, s.tail, m, n)
    requires forall i :: 0 <= i < 16 ==> (IsFull(isMem, s.ring[i]) <==> HasArrived(isMem, s.ring[i]))
    requires forall i :: 0 <= i < 16 && IsFull(isMem, s.ring[i]) ==>
      GivenBack(isMem, s.ring[i], Released(isMem, s.ring[i]))
    requires IsFull(isMem, s.ring[At(s.tail, m)])
    ensures RunReceived(isMem, s, Pass(isMem, s.(pc := Draining(At(s.tail, m))), []), m, n)
  {
    var a := At(s.tail, m);
    RunFrom(isMem, s.ring, s.tail, m, n);
    DrainQuiet(isMem, s.(pc := Draining(a)), n);
    WindowFrom(s.ring, s.tail, m, n);
    Around(s.tail, m, n);
    SlotsFrom(isMem, s.ring, Pass(isMem, s.(pc := Draining(a)), []).ring, s.tail, m, n, a);
  }

  // ---- First in, first out ----

  /** The frames of n descriptors from t on, in ring order. */
  function Frames(isMem: bool, ring: seq<RxDesc>, t: nat, n: nat): seq<int>
    requires |ring| == RX_CNT && t < RX_CNT
    decreases n
  {
    if n == 0 then [] else Delivered(isMem, ring[t]) + Frames(isMem, ring, Next(t), n - 1)
  }

  /** The full slots are the n slots from t on, and no others. */
  predicate FullRun(isMem: bool, ring: seq<RxDesc>, t: nat, n: nat)
    requires |ring| == RX_CNT && t < RX_CNT
  {
    n <= RX_CNT && forall d :: 0 <= d < RX_CNT ==> (IsFull(isMem, ring[At(t, d)]) <==> d < n)
  }

  /** Where the driver will find the oldest frame: at its tail, or where it is in the second loop. */
  function Oldest(s: RxState): nat {
    match s.pc case Idle => s.tail case Searching(_, _) => s.tail case Draining(i) => i case Looking(t) => t
  }

  /** The ring is a queue of n frames, from the oldest slot to the card's index. */
  predicate Fifo(isMem: bool, s: RxState, n: nat) {
    && Ok(isMem, s) && n <= RX_CNT
    && FullRun(isMem, s.ring, Oldest(s), n)
    && s.card == At(Oldest(s), n)
    && s.arrived == s.received + Frames(isMem, s.ring, Oldest(s), n)
  }

  /** The driver has looked at an empty tail, gone on, and now sees a slot that the card has filled meanwhile. */
  predicate Overtakes(isMem: bool, s: RxState)
    requires Ok(isMem, s)
  {
    s.pc.Searching? && s.pc.t != s.tail && IsFull(isMem, s.ring[s.pc.t])
  }

  lemma Places(t: nat, d: nat, e: nat)
    requires t < RX_CNT && d < RX_CNT && e < RX_CNT
    ensures At(t, d) == At(t, e) <==> d == e
    ensures At(Next(t), d) == At(t, d + 1) && At(t, RX_CNT) == At(t, 0) == t && Next(At(t, d)) == At(t, d + 1)
  {
  }

  lemma {:induction false} FramesElsewhere(isMem: bool, ring: seq<RxDesc>, t: nat, n: nat, i: nat, d: RxDesc)
    requires |ring| == RX_CNT && t < RX_CNT && n <= RX_CNT && i < RX_CNT
    requires forall e :: 0 <= e < n ==> At(t, e) != i
    ensures Frames(isMem, ring[i := d], t, n) == Frames(isMem, ring, t, n)
    decreases n
  {
    if n == 0 {
    } else {
      assert At(t, 0) == t;
      forall e | 0 <= e < n - 1
        ensures At(Next(t), e) != i
      {
        Places(t, e, e);
        assert At(t, e + 1) != i;
      }
      FramesElsewhere(isMem, ring, Next(t), n - 1, i, d);
    }
  }

  lemma {:induction false} FramesOfAppend(isMem: bool, ring: seq<RxDesc>, t: nat, n: nat)
    requires |ring| == RX_CNT && t < RX_CNT && n < RX_CNT
    ensures Frames(isMem, ring, t, n + 1) == Frames(isMem, ring, t, n) + Delivered(isMem, ring[At(t, n)])
    decreases n
  {
    if n == 0 {
      assert Frames(isMem, ring, Next(t), 0) == [];
    } else {
      FramesOfAppend(isMem, ring, Next(t), n - 1);
      Places(t, n - 1, n - 1);
      var first, middle := Delivered(isMem, ring[t]), Frames(isMem, ring, Next(t), n - 1);
      var last := Delivered(isMem, ring[At(t, n)]);
      assert Frames(isMem, ring, t, n + 1) == first + Frames(isMem, ring, Next(t), n) == first + (middle + last);
      Regroup(first, middle, last);
    }
  }

  lemma ReleaseShortens(isMem: bool, ring: seq<RxDesc>, t: nat, n: nat)
    requires |ring| == RX_CNT && t < RX_CNT && FullRun(isMem, ring, t, n) && n > 0 && IsFull(isMem, ring[t])
    ensures var ring' := ring[t := Released(isMem, ring[t])];
            && FullRun(isMem, ring', Next(t), n - 1)
            && Frames(isMem, ring, t, n) == Delivered(isMem, ring[t]) + Frames(isMem, ring', Next(t), n - 1)
  {
    var ring' := ring[t := Released(isMem, ring[t])];
    forall d | 0 <= d < RX_CNT
      ensures IsFull(isMem, ring'[At(Next(t), d)]) <==> d < n - 1
      ensures d < RX_CNT - 1 ==> At(Next(t), d) != t
    {
      Places(t, d, d);
      if d + 1 < RX_CNT {
        Places(t, 0, d + 1);
        assert IsFull(isMem, ring[At(t, d + 1)]) <==> d + 1 < n;
      }
    }
    FramesElsewhere(isMem, ring, Next(t), n - 1, t, Released(isMem, ring[t]));
  }

  /** A fill makes the queue one longer, at any moment of a pass. */
  lemma FillKeepsFifo(isMem: bool, s: RxState, n: nat, d: RxDesc) returns (n': nat)
    requires Fifo(isMem, s, n)
    ensures Fifo(isMem, Fill(isMem, s, d), n') && n <= n'
  {
    var o := Oldest(s);
    n' := n;
    if n == RX_CNT {
      Places(o, 0, 0);
      assert IsFull(isMem, s.ring[At(o, 0)]);
    } else if IsFull(isMem, d) {
      n' := n + 1;
      Extended(isMem, s.ring, o, n, d);
      Places(o, n, n);
      assert !IsFull(isMem, s.ring[At(o, n)]);
      Regroup(s.received, Frames(isMem, s.ring, o, n), Delivered(isMem, d));
    }
  }

  lemma Extended(isMem: bool, ring: seq<RxDesc>, o: nat, n: nat, d: RxDesc)
    requires |ring| == RX_CNT && o < RX_CNT && FullRun(isMem, ring, o, n) && n < RX_CNT && IsFull(isMem, d)
    ensures var ring' := ring[At(o, n) := d];
            && FullRun(isMem, ring', o, n + 1)
            && Frames(isMem, ring', o, n + 1) == Frames(isMem, ring, o, n) + Delivered(isMem, d)
  {
    var ring' := ring[At(o, n) := d];
    forall e | 0 <= e < RX_CNT
      ensures IsFull(isMem, ring'[At(o, e)]) <==> e < n + 1
      ensures e != n ==> At(o, e) != At(o, n)
    {
      Places(o, e, n);
      assert IsFull(isMem, ring[At(o, e)]) <==> e < n;
    }
    FramesElsewhere(isMem, ring, o, n, At(o, n), d);
    FramesOfAppend(isMem, ring', o, n);
  }

  /** A step that does not overtake keeps the queue; a handled frame is the oldest. */
  lemma DriverKeepsFifo(isMem: bool, s: RxState, n: nat) returns (n': nat)
    requires Fifo(isMem, s, n) && !Overtakes(isMem, s)
    ensures Fifo(isMem, DriverStep(isMem, s), n') && n' == if s.pc.Draining? then n - 1 else n
  {
    var o := Oldest(s);
    Places(o, 0, 0);
    assert IsFull(isMem, s.ring[At(o, 0)]) <==> 0 < n;
    n' := n;
    match s.pc
    case Idle =>
    case Searching(t, count) =>
      Places(s.tail, RX_CNT - count, 0);
    case Draining(i) =>
      n' := n - 1;
      ReleaseShortens(isMem, s.ring, i, n);
      Places(i, n - 1, n - 1);
      var ring' := s.ring[i := Released(isMem, s.ring[i])];
      assert s.received + (Delivered(isMem, s.ring[i]) + Frames(isMem, ring', Next(i), n - 1))
          == s.received + Delivered(isMem, s.ring[i]) + Frames(isMem, ring', Next(i), n - 1);
    case Looking(t) =>
  }

  /** An empty slot in front of a full one: no run of full slots. */
  lemma Gap(isMem: bool, ring: seq<RxDesc>, t: nat, e: nat, f: nat, m: nat)
    requires |ring| == RX_CNT && t < RX_CNT && e < f < RX_CNT
    requires !IsFull(isMem, ring[At(t, e)]) && IsFull(isMem, ring[At(t, f)])
    ensures !FullRun(isMem, ring, t, m)
  {
  }

  /** A run that covers the whole ring has its length. */
  lemma WholeRun(isMem: bool, ring: seq<RxDesc>, o: nat, t: nat, m: nat)
    requires |ring| == RX_CNT && o < RX_CNT && t < RX_CNT && FullRun(isMem, ring, o, RX_CNT)
    ensures FullRun(isMem, ring, t, m) ==> m == RX_CNT
  {
    if m < RX_CNT {
      var d := if t >= o then t - o else t + RX_CNT - o;
      var e := if d + m < RX_CNT then d + m else d + m - RX_CNT;
      assert At(o, e) == At(t, m);
      assert IsFull(isMem, ring[At(o, e)]);
    }
  }

  /** After overtaking, the driver is at a slot that is not the oldest, and the ring is no queue from there. */
  lemma OvertakingBreaksFifo(isMem: bool, s: RxState, n: nat, m: nat)
    requires Fifo(isMem, s, n) && Overtakes(isMem, s)
    ensures !Fifo(isMem, DriverStep(isMem, s), m)
  {
    var k, t := RX_CNT - s.pc.count, s.pc.t;
    Places(s.tail, k, 0);
    assert IsFull(isMem, s.ring[At(s.tail, k)]) <==> k < n;
    assert IsFull(isMem, s.ring[At(s.tail, 0)]);
    assert 0 < k < n && At(t, RX_CNT - k) == At(s.tail, 0);
    if n < RX_CNT {
      assert !IsFull(isMem, s.ring[At(s.tail, n)]) && At(t, n - k) == At(s.tail, n);
      Gap(isMem, s.ring, t, n - k, RX_CNT - k, m);
    } else {
      WholeRun(isMem, s.ring, s.tail, t, m);
    }
  }

  /** Exactly when a step of the driver keeps the queue. */
  lemma DriverKeepsFifoIff(isMem: bool, s: RxState, n: nat)
    requires Fifo(isMem, s, n)
    ensures (exists m :: Fifo(isMem, DriverStep(isMem, s), m)) <==> !Overtakes(isMem, s)
  {
    if Overtakes(isMem, s) {
      forall m: nat
        ensures !Fifo(isMem, DriverStep(isMem, s), m)
      {
        OvertakingBreaksFifo(isMem, s, n, m);
      }
    } else {
      var n' := DriverKeepsFifo(isMem, s, n);
    }
  }

  /** What an overtaking driver receives next arrived after a frame that it has not received. */
  lemma OvertakingReorders(isMem: bool, s: RxState, n: nat)
    requires Fifo(isMem, s, n) && Overtakes(isMem, s)
    ensures var r := DriverStep(isMem, DriverStep(isMem, s));
            && r.received == s.received + Delivered(isMem, s.ring[s.pc.t])
            && s.received + Delivered(isMem, s.ring[s.tail]) <= s.arrived
  {
    Places(s.tail, RX_CNT - s.pc.count, 0);
    assert IsFull(isMem, s.ring[At(s.tail, RX_CNT - s.pc.count)]) <==> RX_CNT - s.pc.count < n;
    FirstOfFrames(isMem, s.received, s.ring, s.tail, n);
  }

  lemma FirstOfFrames(isMem: bool, received: seq<int>, ring: seq<RxDesc>, t: nat, n: nat)
    requires |ring| == RX_CNT && t < RX_CNT && n > 0
    ensures received + Delivered(isMem, ring[t]) <= received + Frames(isMem, ring, t, n)
  {
    var rest := Frames(isMem, ring, Next(t), n - 1);
    assert received + (Delivered(isMem, ring[t]) + rest) == received + Delivered(isMem, ring[t]) + rest;
  }

  datatype RxOp = CardFills(d: RxDesc) | Driver

  function RxStep(isMem: bool, s: RxState, op: RxOp): (r: RxState)
    requires Ok(isMem, s)
    ensures Ok(isMem, r)
  {
    match op
    case CardFills(d) => Fill(isMem, s, d)
    case Driver => DriverStep(isMem, s)
  }

  function RxRun(isMem: bool, s: RxState, ops: seq<RxOp>): (r: RxState)
    requires Ok(isMem, s)
    ensures Ok(isMem, r)
    decreases |ops|
  {
    if ops == [] then s else RxRun(isMem, RxStep(isMem, s, ops[0]), ops[1..])
  }

  /** No step of the run overtakes. */
  predicate NeverOvertakes(isMem: bool, s: RxState, ops: seq<RxOp>)
    requires Ok(isMem, s)
    decreases |ops|
  {
    || ops == []
    || (!(ops[0].Driver? && Overtakes(isMem, s)) && NeverOvertakes(isMem, RxStep(isMem, s, ops[0]), ops[1..]))
  }

  /** The ring is a queue in every state of the run. */
  ghost predicate FifoThroughout(isMem: bool, s: RxState, ops: seq<RxOp>)
    requires Ok(isMem, s)
    decreases |ops|
  {
    && (exists n :: Fifo(isMem, s, n))
    && (ops == [] || FifoThroughout(isMem, RxStep(isMem, s, ops[0]), ops[1..]))
  }

  /**
   In every run, with descriptors filled at any moment, the ring stays a queue, with everything that has
   arrived either received or in the run of full slots from the oldest on, exactly if no look overtakes.
   */
  lemma {:induction false} RxRunIsFifoIff(isMem: bool, s: RxState, n: nat, ops: seq<RxOp>)
    requires Fifo(isMem, s, n)
    ensures FifoThroughout(isMem, s, ops) <==> NeverOvertakes(isMem, s, ops)
    decreases |ops|
  {
    if ops == [] {
    } else {
      var s' := RxStep(isMem, s, ops[0]);
      if ops[0].CardFills? {
        var n' := FillKeepsFifo(isMem, s, n, ops[0].d);
        RxRunIsFifoIff(isMem, s', n', ops[1..]);
      } else {
        DriverKeepsFifoIff(isMem, s, n);
        if !Overtakes(isMem, s) {
          var n' := DriverKeepsFifo(isMem, s, n);
          RxRunIsFifoIff(isMem, s', n', ops[1..]);
        }
      }
    }
  }

  lemma {:induction false} FillsKeepFifo(isMem: bool, s: RxState, n: nat, ds: seq<RxDesc>) returns (n': nat)
    requires Fifo(isMem, s, n)
    ensures Fifo(isMem, Fills(isMem, s, ds), n') && n <= n'
    decreases |ds|
  {
    n' := n;
    if ds == [] {
    } else {
      n' := FillKeepsFifo(isMem, s, n, ds[0]);
      n' := FillsKeepFifo(isMem, Fill(isMem, s, ds[0]), n', ds[1..]);
    }
  }

  /** A pass that has seen its tail full, or is behind it, keeps the queue whatever the card does meanwhile. */
  lemma {:induction false} DrainKeepsFifo(isMem: bool, s: RxState, n: nat, env: seq<seq<RxDesc>>) returns (n': nat)
    requires Fifo(isMem, s, n) && (s.pc == Idle || s.pc.Draining? || s.pc.Looking?)
    ensures Fifo(isMem, Pass(isMem, s, env), n') && (env == [] && s.pc != Idle ==> n' == 0)
    decreases |env|, Effort(isMem, s)
  {
    n' := n;
    if s.pc == Idle {
    } else {
      var s1 := CardTurn(isMem, s, env);
      if env != [] {
        n' := FillsKeepFifo(isMem, s, n, env[0]);
      }
      StepsEnd(isMem, s1);
      Places(Oldest(s1), 0, 0);
      assert IsFull(isMem, s1.ring[At(Oldest(s1), 0)]) <==> 0 < n';
      n' := DriverKeepsFifo(isMem, s1, n');
      n' := DrainKeepsFifo(isMem, DriverStep(isMem, s1), n', Rest(env));
    }
  }

  /**
   A pass that starts on a nonempty ring keeps the queue, whatever the card fills meanwhile; if the card is
   quiet, it receives all that has arrived and leaves tail at the card's index.
   */
  lemma NonemptyPassKeepsFifo(isMem: bool, s: RxState, n: nat, env: seq<seq<RxDesc>>) returns (n': nat)
    requires Fifo(isMem, s, n) && s.pc == Idle && n > 0
    ensures var r := Pass(isMem, Begin(s), env);
            Fifo(isMem, r, n') && (env == [] ==> n' == 0 && r.received == s.arrived && r.tail == s.card)
  {
    var b := Begin(s);
    Places(s.tail, 0, 0);
    assert Fifo(isMem, b, n);
    n' := n;
    var b1 := CardTurn(isMem, b, env);
    if env != [] {
      n' := FillsKeepFifo(isMem, b, n, env[0]);
    }
    assert IsFull(isMem, b1.ring[At(b1.tail, 0)]);
    n' := DriverKeepsFifo(isMem, b1, n');
    n' := DrainKeepsFifo(isMem, DriverStep(isMem, b1), n', Rest(env));
    if env == [] {
      QuietPass(isMem, DriverStep(isMem, b1));
    }
  }

  /** With the card quiet, a pass changes neither its index nor what has arrived. */
  lemma {:induction false} QuietPass(isMem: bool, s: RxState)
    requires Ok(isMem, s)
    ensures Pass(isMem, s, []).card == s.card && Pass(isMem, s, []).arrived == s.arrived
    decreases Effort(isMem, s)
  {
    if s.pc == Idle {
    } else {
      StepsEnd(isMem, s);
      QuietPass(isMem, DriverStep(isMem, s));
    }
  }

  /** A pass begins and looks at its tail; two descriptors are filled; the driver looks at the next and handles it. */
  function Race(d1: RxDesc, d2: RxDesc): seq<RxOp> {
    [Driver] + ([Driver] + ([CardFills(d1)] + ([CardFills(d2)] + ([Driver] + ([Driver] + [])))))
  }

  /**
   The order can be lost on an empty ring: if two descriptors are filled right after the driver has looked
   at its tail, it receives the second frame first.
   */
  lemma EmptyRingCanReorder(isMem: bool, s: RxState, d1: RxDesc, d2: RxDesc)
    requires Fifo(isMem, s, 0) && s.pc == Idle && IsFull(isMem, d1) && IsFull(isMem, d2)
    ensures var r := RxRun(isMem, s, Race(d1, d2));
            && r.arrived == s.received + Delivered(isMem, d1) + Delivered(isMem, d2)
            && r.received == s.received + Delivered(isMem, d2)
  {
    Places(s.tail, 0, 1);
    assert !IsFull(isMem, s.ring[At(s.tail, 0)]) && !IsFull(isMem, s.ring[At(s.tail, 1)]);
    assert s.arrived == s.received + [] == s.received;
    var s2 := DriverStep(isMem, DriverStep(isMem, s));
    var s4 := Fill(isMem, Fill(isMem, s2, d1), d2);
    assert s2.pc == Searching(Next(s.tail), RX_CNT - 1) && s2.ring == s.ring;
    assert s4.ring == s.ring[s.tail := d1][Next(s.tail) := d2];
    assert s4.arrived == s.received + Delivered(isMem, d1) + Delivered(isMem, d2) && s4.received == s.received;
    assert DriverStep(isMem, s4) == s4.(pc := Draining(Next(s.tail)));
    assert s4.ring[Next(s.tail)] == d2;
    var s6 := DriverStep(isMem, DriverStep(isMem, s4));
    assert s6.arrived == s4.arrived && s6.received == s.received + Delivered(isMem, d2);
    RunStep(isMem, s, Driver, [Driver] + ([CardFills(d1)] + ([CardFills(d2)] + ([Driver] + ([Driver] + [])))));
    RunStep(isMem, DriverStep(isMem, s), Driver, [CardFills(d1)] + ([CardFills(d2)] + ([Driver] + ([Driver] + []))));
    RunStep(isMem, s2, CardFills(d1), [CardFills(d2)] + ([Driver] + ([Driver] + [])));
    RunStep(isMem, Fill(isMem, s2, d1), CardFills(d2), [Driver] + ([Driver] + []));
    RunStep(isMem, s4, Driver, [Driver] + []);
    RunStep(isMem, DriverStep(isMem, s4), Driver, []);
  }

  lemma RunStep(isMem: bool, s: RxState, op: RxOp, ops: seq<RxOp>)
    requires Ok(isMem, s)
    ensures RxRun(isMem, s, [op] + ops) == RxRun(isMem, RxStep(isMem, s, op), ops)
  {
    assert ([op] + ops)[1..] == ops;
  }

  // ---- The order of reception ----

  /** In every state of the run, what has been received is a prefix of what has arrived. */
  predicate InOrderThroughout(isMem: bool, s: RxState, ops: seq<RxOp>)
    requires Ok(isMem, s)
    decreases |ops|
  {
    && s.received <= s.arrived
    && (ops == [] || InOrderThroughout(isMem, RxStep(isMem, s, ops[0]), ops[1..]))
  }

  /** No step of the driver handles the slot of an overtaking look; over says that the last look overtook. */
  predicate NeverHandles(isMem: bool, s: RxState, over: bool, ops: seq<RxOp>)
    requires Ok(isMem, s)
    decreases |ops|
  {
    || ops == []
    || (var s' := RxStep(isMem, s, ops[0]);
        if ops[0].CardFills? then NeverHandles(isMem, s', over, ops[1..])
        else !over && NeverHandles(isMem, s', Overtakes(isMem, s), ops[1..]))
  }

  /** A full descriptor has a frame for the driver; only a reclaim-only descriptor of a MEM device has none. */
  predicate HasFrame(isMem: bool, d: RxDesc) {
    IsFull(isMem, d) ==> Delivered(isMem, d) == [d.frame]
  }

  /** Every full descriptor in the ring and every descriptor filled during the run has a frame. */
  predicate AllHaveFrames(isMem: bool, s: RxState, ops: seq<RxOp>) {
    && (forall k :: 0 <= k < |s.ring| ==> HasFrame(isMem, s.ring[k]))
    && (forall i :: 0 <= i < |ops| && ops[i].CardFills? ==> HasFrame(isMem, ops[i].d))
  }

  predicate Distinct(fs: seq<int>) {
    forall i, j :: 0 <= i < j < |fs| ==> fs[i] != fs[j]
  }

  lemma FramesKept(isMem: bool, s: RxState, ops: seq<RxOp>)
    requires Ok(isMem, s) && ops != [] && AllHaveFrames(isMem, s, ops)
    ensures AllHaveFrames(isMem, RxStep(isMem, s, ops[0]), ops[1..])
  {
    var s' := RxStep(isMem, s, ops[0]);
    forall k | 0 <= k < |s'.ring|
      ensures HasFrame(isMem, s'.ring[k])
    {
      assert HasFrame(isMem, s.ring[k]);
    }
  }

  lemma {:induction false} ArrivedGrows(isMem: bool, s: RxState, ops: seq<RxOp>)
    requires Ok(isMem, s)
    ensures s.arrived <= RxRun(isMem, s, ops).arrived
    decreases |ops|
  {
    if ops == [] {
    } else {
      ArrivedGrows(isMem, RxStep(isMem, s, ops[0]), ops[1..]);
    }
  }

  /** Entry j of the frames of a run is the frame of its slot j. */
  lemma {:induction false} FrameAt(isMem: bool, ring: seq<RxDesc>, t: nat, n: nat, j: nat)
    requires |ring| == RX_CNT && t < RX_CNT && j < n <= RX_CNT
    requires forall d :: 0 <= d < n ==> Delivered(isMem, ring[At(t, d)]) == [ring[At(t, d)].frame]
    ensures |Frames(isMem, ring, t, n)| == n && Frames(isMem, ring, t, n)[j] == ring[At(t, j)].frame
    decreases n
  {
    assert At(t, 0) == t;
    if n == 1 {
    } else {
      forall d | 0 <= d < n - 1
        ensures Delivered(isMem, ring[At(Next(t), d)]) == [ring[At(Next(t), d)].frame]
      {
        Places(t, d, d);
        assert Delivered(isMem, ring[At(t, d + 1)]) == [ring[At(t, d + 1)].frame];
      }
      var k := if j == 0 then 0 else j - 1;
      Places(t, k, k);
      FrameAt(isMem, ring, Next(t), n - 1, k);
    }
  }

  /** The driver is about to handle the slot k places behind the oldest one, with n slots full. */
  predicate Overtook(isMem: bool, s: RxState, k: nat, n: nat) {
    Ok(isMem, s) && Fifo(isMem, s.(pc := Idle), n) && 0 < k < n && s.pc == Draining(At(s.tail, k))
  }

  lemma OvertakingLook(isMem: bool, s: RxState, n: nat)
    requires Fifo(isMem, s, n) && Overtakes(isMem, s)
    ensures Overtook(isMem, DriverStep(isMem, s), RX_CNT - s.pc.count, n)
  {
    var k := RX_CNT - s.pc.count;
    Places(s.tail, k, 0);
    assert IsFull(isMem, s.ring[At(s.tail, k)]) <==> k < n;
  }

  /** Handling that slot receives a frame that is not the next one of those that have arrived. */
  lemma HandlingBreaksOrder(isMem: bool, s: RxState, k: nat, n: nat)
    requires Overtook(isMem, s, k, n) && Distinct(s.arrived)
    requires forall i :: 0 <= i < RX_CNT ==> HasFrame(isMem, s.ring[i])
    ensures var r := DriverStep(isMem, s); !(r.received <= r.arrived)
  {
    forall d | 0 <= d < n
      ensures Delivered(isMem, s.ring[At(s.tail, d)]) == [s.ring[At(s.tail, d)].frame]
    {
      assert IsFull(isMem, s.ring[At(s.tail, d)]);
      assert HasFrame(isMem, s.ring[At(s.tail, d)]);
    }
    FrameAt(isMem, s.ring, s.tail, n, 0);
    FrameAt(isMem, s.ring, s.tail, n, k);
    var h := |s.received|;
    var r := DriverStep(isMem, s);
    assert s.arrived[h] == Frames(isMem, s.ring, s.tail, n)[0];
    assert s.arrived[h + k] == Frames(isMem, s.ring, s.tail, n)[k] == r.received[h];
    assert s.arrived[h] != s.arrived[h + k];
  }

  /** Once a look has overtaken, the order holds until that slot is handled, and no longer. */
  lemma {:induction false} OrderAfterOvertaking(isMem: bool, s: RxState, k: nat, n: nat, ops: seq<RxOp>)
    requires Overtook(isMem, s, k, n) && AllHaveFrames(isMem, s, ops) && Distinct(RxRun(isMem, s, ops).arrived)
    ensures InOrderThroughout(isMem, s, ops) <==> NeverHandles(isMem, s, true, ops)
    decreases |ops|
  {
    ArrivedGrows(isMem, s, ops);
    if ops == [] {
    } else if ops[0].CardFills? {
      var n' := FillKeepsFifo(isMem, s.(pc := Idle), n, ops[0].d);
      assert Fill(isMem, s, ops[0].d).(pc := Idle) == Fill(isMem, s.(pc := Idle), ops[0].d);
      FramesKept(isMem, s, ops);
      OrderAfterOvertaking(isMem, Fill(isMem, s, ops[0].d), k, n', ops[1..]);
    } else {
      HandlingBreaksOrder(isMem, s, k, n);
    }
  }

  /**
   In every run, with descriptors filled at any moment, frames are received in the order in which they
   arrived exactly if the slot of an overtaking look is never handled. Frames are told apart, and every
   full descriptor has one.
   */
  lemma {:induction false} OrderIff(isMem: bool, s: RxState, n: nat, ops: seq<RxOp>)
    requires Fifo(isMem, s, n) && AllHaveFrames(isMem, s, ops) && Distinct(RxRun(isMem, s, ops).arrived)
    ensures InOrderThroughout(isMem, s, ops) <==> NeverHandles(isMem, s, false, ops)
    decreases |ops|
  {
    if ops == [] {
    } else {
      var s' := RxStep(isMem, s, ops[0]);
      FramesKept(isMem, s, ops);
      if ops[0].CardFills? {
        var n' := FillKeepsFifo(isMem, s, n, ops[0].d);
        OrderIff(isMem, s', n', ops[1..]);
      } else if Overtakes(isMem, s) {
        OvertakingLook(isMem, s, n);
        OrderAfterOvertaking(isMem, s', RX_CNT - s.pc.count, n, ops[1..]);
      } else {
        var n' := DriverKeepsFifo(isMem, s, n);
        OrderIff(isMem, s', n', ops[1..]);
      }
    }
  }

  /** Without any assumption on the frames: a run that never handles such a slot keeps the order. */
  lemma {:induction false} OrderKept(isMem: bool, s: RxState, k: nat, n: nat, over: bool, ops: seq<RxOp>)
    requires if over then Overtook(isMem, s, k, n) else Fifo(isMem, s, n)
    requires NeverHandles(isMem, s, over, ops)
    ensures InOrderThroughout(isMem, s, ops)
    decreases |ops|
  {
    if ops == [] {
    } else {
      var s' := RxStep(isMem, s, ops[0]);
      if ops[0].CardFills? && over {
        var n' := FillKeepsFifo(isMem, s.(pc := Idle), n, ops[0].d);
        assert s'.(pc := Idle) == Fill(isMem, s.(pc := Idle), ops[0].d);
        OrderKept(isMem, s', k, n', true, ops[1..]);
      } else if ops[0].CardFills? {
        var n' := FillKeepsFifo(isMem, s, n, ops[0].d);
        OrderKept(isMem, s', k, n', false, ops[1..]);
      } else if Overtakes(isMem, s) {
        OvertakingLook(isMem, s, n);
        OrderKept(isMem, s', RX_CNT - s.pc.count, n, true, ops[1..]);
      } else {
        var n' := DriverKeepsFifo(isMem, s, n);
        OrderKept(isMem, s', k, n', false, ops[1..]);
      }
    }
  }

  // ---- A pass is a run ----

  function FillOps(ds: seq<RxDesc>): (ops: seq<RxOp>)
    ensures |ops| == |ds|
  {
    seq(|ds|, i requires 0 <= i < |ds| => CardFills(ds[i]))
  }

  lemma {:induction false} RunAppend(isMem: bool, s: RxState, a: seq<RxOp>, b: seq<RxOp>)
    requires Ok(isMem, s)
    ensures RxRun(isMem, s, a + b) == RxRun(isMem, RxRun(isMem, s, a), b)
    decreases |a|
  {
    if a == [] {
      assert a + b == b;
    } else {
      assert (a + b)[0] == a[0] && (a + b)[1..] == a[1..] + b;
      RunAppend(isMem, RxStep(isMem, s, a[0]), a[1..], b);
    }
  }

  lemma {:induction false} FillsAreRun(isMem: bool, s: RxState, ds: seq<RxDesc>)
    requires Ok(isMem, s)
    ensures RxRun(isMem, s, FillOps(ds)) == Fills(isMem, s, ds)
    decreases |ds|
  {
    if ds == [] {
    } else {
      assert FillOps(ds)[1..] == FillOps(ds[1..]);
      FillsAreRun(isMem, Fill(isMem, s, ds[0]), ds[1..]);
    }
  }

  /** What the driver's pass does, with descriptors filled meanwhile, is a run of looks, handlings and fills. */
  lemma {:induction false} PassIsRun(isMem: bool, s: RxState, env: seq<seq<RxDesc>>) returns (ops: seq<RxOp>)
    requires Ok(isMem, s)
    ensures RxRun(isMem, s, ops) == Pass(isMem, s, env)
    decreases |env|, Effort(isMem, s)
  {
    if s.pc == Idle {
      ops := [];
    } else {
      var fills := if env == [] then [] else env[0];
      var s1 := CardTurn(isMem, s, env);
      FillsAreRun(isMem, s, fills);
      assert RxRun(isMem, s, FillOps(fills)) == s1;
      StepsEnd(isMem, s1);
      var rest := PassIsRun(isMem, DriverStep(isMem, s1), Rest(env));
      RunStep(isMem, s1, Driver, rest);
      RunAppend(isMem, s, FillOps(fills), [Driver] + rest);
      ops := FillOps(fills) + ([Driver] + rest);
    }
  }
}
