/**
 USB receive reassembly (usb.c). The device delivers one byte stream of records, cut into transfers at
 arbitrary places; the driver carries an unfinished record from one transfer to the next.
 */
module UsbRx {
  import opened Words

  /** RXBUF_HDRSIZE */
  const HDRSIZE: nat := 12
  /** sizeof(rxbuffer_t): the header, an 802.11 header of 30 bytes, and the data part. */
  const RXBUFFER_SIZE: nat := HDRSIZE + 30 + (2346 - 24)

  /** A header at least. */
  type Packet = s: seq<Byte> | HDRSIZE <= |s| witness [0, 0, 0, 0, 0, 0, 0, 0, 0, 0, 0, 0]

  /** What a transfer leads to: a received frame is processed, or a tx status is reported. */
  datatype Record = RxFrame(bytes: Packet) | TxStat(bytes: Packet)

  /** RXBUF_BYTES_USED: the low 12 bits of the little-endian `mac_cnt_rcvd`, and the header. */
  function PacketSize(s: seq<Byte>): (n: nat)
    requires 2 <= |s|
    ensures HDRSIZE <= n
  {
    (s[0] as int + 0x100 * s[1] as int) % 0x1000 + HDRSIZE
  }

  /** RXBUF_IS_TXSTAT */
  predicate IsTxStat(s: seq<Byte>)
    requires 2 <= |s|
  {
    s[1] >= 0x80
  }

  /** A record of the stream: a tx status has no more than its header; a frame fits the receive buffer. */
  predicate HeaderOk(s: seq<Byte>)
    requires 2 <= |s|
  {
    PacketSize(s) <= if IsTxStat(s) then HDRSIZE else RXBUFFER_SIZE
  }

  function RecordOf(s: seq<Byte>): Record
    requires 2 <= |s| && PacketSize(s) <= |s|
  {
    if IsTxStat(s) then TxStat(s[..PacketSize(s)]) else RxFrame(s[..PacketSize(s)])
  }

  // ---- The stream, parsed as a whole ----

  /** The complete records at the start of the stream, and the bytes behind them. */
  datatype Parsed = Parsed(records: seq<Record>, rest: seq<Byte>)

  function Parse(s: seq<Byte>): Parsed
    decreases |s|
  {
    if |s| < HDRSIZE || |s| < PacketSize(s) then Parsed([], s)
    else
      var r := Parse(s[PacketSize(s)..]);
      Parsed([RecordOf(s)] + r.records, r.rest)
  }

  predicate WellFormed(s: seq<Byte>)
    decreases |s|
  {
    |s| < HDRSIZE || (HeaderOk(s) && (PacketSize(s) <= |s| ==> WellFormed(s[PacketSize(s)..])))
  }

  /** The stream so far does not end inside a record header. */
  predicate CutOk(s: seq<Byte>) {
    Parse(s).rest == [] || HDRSIZE <= |Parse(s).rest|
  }

  // ---- The driver, transfer by transfer ----

  /** The loop of `acxusb_complete_rx` over the remaining bytes of a transfer; rest goes to the truncation buffer. */
  function Loop(s: seq<Byte>): Parsed
    decreases |s|
  {
    if |s| < HDRSIZE then Parsed([], [])
    else if IsTxStat(s) then
      var r := if PacketSize(s) <= |s| then Loop(s[PacketSize(s)..]) else Parsed([], []);
      Parsed([TxStat(s[..HDRSIZE])] + r.records, r.rest)
    else if PacketSize(s) > RXBUFFER_SIZE then Parsed([], [])
    else if PacketSize(s) > |s| then Parsed([], s)
    else
      var r := Loop(s[PacketSize(s)..]);
      Parsed([RxFrame(s[..PacketSize(s)])] + r.records, r.rest)
  }

  /** The truncation buffer holds nothing, or the start of one frame that is not complete yet. */
  predicate TruncOk(t: seq<Byte>) {
    t == [] || (HDRSIZE <= |t| && !IsTxStat(t) && |t| < PacketSize(t) <= RXBUFFER_SIZE)
  }

  /** A transfer without an error status, with t in the truncation buffer. */
  function Transfer(t: seq<Byte>, s: seq<Byte>): Parsed
    requires TruncOk(t)
  {
    if t == [] then Loop(s)
    else
      var tailSize := PacketSize(t) - |t|;
      if |s| < tailSize then Parsed([], t + s)
      else
        var r := Loop(s[tailSize..]);
        Parsed([RxFrame(t + s[..tailSize])] + r.records, r.rest)
  }

  lemma {:induction false} LoopKeepsTrunc(s: seq<Byte>)
    ensures TruncOk(Loop(s).rest)
    decreases |s|
  {
    if |s| < HDRSIZE || |s| < PacketSize(s) {
    } else {
      LoopKeepsTrunc(s[PacketSize(s)..]);
    }
  }

  /** Every transfer keeps the invariant of the truncation buffer, whatever the device sends. */
  lemma TransferKeepsTrunc(t: seq<Byte>, s: seq<Byte>)
    requires TruncOk(t)
    ensures TruncOk(Transfer(t, s).rest)
  {
    LoopKeepsTrunc(s);
    if t != [] {
      var tailSize := PacketSize(t) - |t|;
      if tailSize <= |s| {
        LoopKeepsTrunc(s[tailSize..]);
      } else {
        assert PacketSize(t + s) == PacketSize(t);
      }
    }
  }

  // ---- Reassembly ----

  /** What has been handled, and what is held, after a sequence of transfers. */
  function Transfers(chunks: seq<seq<Byte>>): (r: Parsed)
    ensures TruncOk(r.rest)
  {
    if chunks == [] then Parsed([], [])
    else
      var before := Transfers(chunks[..|chunks| - 1]);
      var last := chunks[|chunks| - 1];
      TransferKeepsTrunc(before.rest, last);
      var r := Transfer(before.rest, last);
      Parsed(before.records + r.records, r.rest)
  }

  /** Parsing goes on where it stopped. */
  lemma {:induction false} ParseAppend(s: seq<Byte>, t: seq<Byte>)
    ensures var p := Parse(s);
            var q := Parse(p.rest + t);
            Parse(s + t) == Parsed(p.records + q.records, q.rest)
    decreases |s|
  {
    if |s| < HDRSIZE || |s| < PacketSize(s) {
    } else {
      var n := PacketSize(s);
      assert PacketSize(s + t) == n && (s + t)[n..] == s[n..] + t && (s + t)[..n] == s[..n];
      assert RecordOf(s + t) == RecordOf(s);
      ParseAppend(s[n..], t);
      var p, q := Parse(s[n..]), Parse(Parse(s[n..]).rest + t);
      assert [RecordOf(s)] + (p.records + q.records) == [RecordOf(s)] + p.records + q.records;
    }
  }

  lemma {:induction false} WellFormedAppend(s: seq<Byte>, t: seq<Byte>)
    requires WellFormed(s + t)
    ensures WellFormed(s) && WellFormed(Parse(s).rest + t)
    decreases |s|
  {
    if |s| < HDRSIZE {
    } else {
      assert PacketSize(s + t) == PacketSize(s) && IsTxStat(s + t) == IsTxStat(s);
      if PacketSize(s) <= |s| {
        assert (s + t)[PacketSize(s)..] == s[PacketSize(s)..] + t;
        WellFormedAppend(s[PacketSize(s)..], t);
      }
    }
  }

  /** On a well-formed piece of stream the loop parses it, and loses the end if that is part of a header. */
  lemma {:induction false} LoopParses(s: seq<Byte>)
    requires WellFormed(s)
    ensures var p := Parse(s);
            Loop(s) == Parsed(p.records, if |p.rest| < HDRSIZE then [] else p.rest)
    decreases |s|
  {
    if |s| < HDRSIZE || |s| < PacketSize(s) {
    } else {
      LoopParses(s[PacketSize(s)..]);
    }
  }

  /** With an unfinished record in the buffer, a transfer parses the buffer followed by the transfer. */
  lemma TransferParses(t: seq<Byte>, s: seq<Byte>)
    requires TruncOk(t) && WellFormed(t + s)
    ensures var p := Parse(t + s);
            Transfer(t, s) == Parsed(p.records, if |p.rest| < HDRSIZE then [] else p.rest)
  {
    if t == [] {
      assert t + s == s;
      LoopParses(s);
    } else {
      var n := PacketSize(t);
      assert PacketSize(t + s) == n && IsTxStat(t + s) == IsTxStat(t);
      if n - |t| <= |s| {
        assert (t + s)[n..] == s[n - |t|..] && (t + s)[..n] == t + s[..n - |t|];
        LoopParses(s[n - |t|..]);
      }
    }
  }

  /** What is left over by a parse is an unfinished record, so it can be held. */
  lemma {:induction false} RestIsTrunc(s: seq<Byte>)
    requires WellFormed(s) && CutOk(s)
    ensures TruncOk(Parse(s).rest)
    decreases |s|
  {
    if |s| < HDRSIZE || |s| < PacketSize(s) {
    } else {
      RestIsTrunc(s[PacketSize(s)..]);
    }
  }

  /** No transfer ends inside a header. */
  predicate CutsOk(chunks: seq<seq<Byte>>) {
    chunks == [] || (CutsOk(chunks[..|chunks| - 1]) && CutOk(Concat(chunks)))
  }

  /** If no transfer ends inside a header, the transfers are handled as the whole stream would be. */
  lemma {:induction false} TransfersParse(chunks: seq<seq<Byte>>)
    requires WellFormed(Concat(chunks)) && CutsOk(chunks)
    ensures Transfers(chunks) == Parse(Concat(chunks))
    decreases |chunks|
  {
    if chunks == [] {
    } else {
      var init, last := chunks[..|chunks| - 1], chunks[|chunks| - 1];
      WellFormedAppend(Concat(init), last);
      TransfersParse(init);
      ParseAppend(Concat(init), last);
      RestIsTrunc(Concat(init));
      TransferParses(Parse(Concat(init)).rest, last);
    }
  }

  // ---- Records as the device writes them ----

  /** A record that says itself, in the first two bytes, how long it is and whether it is a tx status. */
  predicate Written(r: Record) {
    && |r.bytes| == 12 + r.bytes[0] as int + 0x100 * (r.bytes[1] as int % 0x10)
    && (r.TxStat? <==> 0x80 <= r.bytes[1])
    && |r.bytes| <= if r.TxStat? then 12 else 2364
  }

  predicate AllWritten(rs: seq<Record>) {
    forall i :: 0 <= i < |rs| ==> Written(rs[i])
  }

  /** The records, one after the other. */
  function Stream(rs: seq<Record>): seq<Byte> {
    if rs == [] then [] else rs[0].bytes + Stream(rs[1..])
  }

  /** The length field, out of its two bytes. */
  lemma LengthOf(b0: Byte, b1: Byte)
    ensures (b0 as int + 0x100 * b1 as int) % 0x1000 == b0 as int + 0x100 * (b1 as int % 0x10)
  {
    var q: int, r: int := b1 / 0x10, b1 % 0x10;
    assert b0 as int + 0x100 * b1 as int == 0x1000 * q + (b0 as int + 0x100 * r);
  }

  lemma FirstRecord(r: Record, rest: seq<Byte>)
    requires Written(r)
    ensures var s := r.bytes + rest;
            && PacketSize(s) == |r.bytes| && IsTxStat(s) == r.TxStat? && HeaderOk(s)
            && RecordOf(s) == r && s[..PacketSize(s)] == r.bytes && s[PacketSize(s)..] == rest
  {
    LengthOf(r.bytes[0], r.bytes[1]);
  }

  /** Parsing inverts writing: what is parsed is what has been written, whatever follows it. */
  lemma {:induction false} ParseInverts(rs: seq<Record>, rest: seq<Byte>)
    requires AllWritten(rs)
    ensures Parse(Stream(rs) + rest) == Parsed(rs + Parse(rest).records, Parse(rest).rest)
    ensures WellFormed(Stream(rs) + rest) <==> WellFormed(rest)
    decreases |rs|
  {
    if rs == [] {
      assert Stream(rs) + rest == rest;
      assert rs + Parse(rest).records == Parse(rest).records;
    } else {
      var r, s := rs[0], Stream(rs[1..]) + rest;
      assert Stream(rs) + rest == r.bytes + s;
      FirstRecord(r, s);
      ParseInverts(rs[1..], rest);
      assert rs == [r] + rs[1..];
      Regroup([r], rs[1..], Parse(rest).records);
    }
  }

  /** The driver's loop handles what has been written, whatever follows it. */
  lemma {:induction false} LoopInverts(rs: seq<Record>, rest: seq<Byte>)
    requires AllWritten(rs)
    ensures Loop(Stream(rs) + rest) == Parsed(rs + Loop(rest).records, Loop(rest).rest)
    decreases |rs|
  {
    if rs == [] {
      assert Stream(rs) + rest == rest;
      assert rs + Loop(rest).records == Loop(rest).records;
    } else {
      var r, s := rs[0], Stream(rs[1..]) + rest;
      assert Stream(rs) + rest == r.bytes + s;
      FirstRecord(r, s);
      LoopInverts(rs[1..], rest);
      assert rs == [r] + rs[1..];
      Regroup([r], rs[1..], Loop(rest).records);
    }
  }

  /**
   What the loop does with anything else: part of a header and all behind an overlong frame are lost, an
   unfinished frame is held, and an overlong tx status is reported out of its first twelve bytes.
   */
  lemma LoopOtherwise(s: seq<Byte>)
    ensures |s| < 12 ==> Loop(s) == Parsed([], [])
    ensures 12 <= |s| ==>
      var n := 12 + s[0] as int + 0x100 * (s[1] as int % 0x10);
      && (s[1] < 0x80 && 2364 < n ==> Loop(s) == Parsed([], []))
      && (s[1] < 0x80 && |s| < n <= 2364 ==> Loop(s) == Parsed([], s))
      && (0x80 <= s[1] && |s| < n ==> Loop(s) == Parsed([TxStat(s[..12])], []))
      && (0x80 <= s[1] && n <= |s| ==>
            Loop(s) == Parsed([TxStat(s[..12])] + Loop(s[n..]).records, Loop(s[n..]).rest))
  {
    if 12 <= |s| {
      LengthOf(s[0], s[1]);
    }
  }

  /** The first n bytes of the stream end inside the header of a record. */
  predicate InHeader(rs: seq<Record>, n: nat) {
    exists i :: 0 <= i < |rs| && |Stream(rs[..i])| < n < |Stream(rs[..i])| + 12
  }

  lemma StreamOfCons(r: Record, rs: seq<Record>, i: nat)
    requires i <= |rs|
    ensures Stream(([r] + rs)[..i + 1]) == r.bytes + Stream(rs[..i])
  {
    assert ([r] + rs)[..i + 1] == [r] + rs[..i];
    assert ([r] + rs[..i])[1..] == rs[..i];
  }

  lemma InHeaderOfCons(r: Record, rs: seq<Record>, n: nat)
    ensures n < 12 ==> (InHeader([r] + rs, n) <==> 0 < n)
    ensures 12 <= n < |r.bytes| ==> !InHeader([r] + rs, n)
    ensures |r.bytes| <= n ==> (InHeader([r] + rs, n) <==> InHeader(rs, n - |r.bytes|))
  {
    var all := [r] + rs;
    assert Stream(all[..0]) == [];
    forall i | 0 <= i < |rs|
      ensures |Stream(all[..i + 1])| == |r.bytes| + |Stream(rs[..i])|
    {
      StreamOfCons(r, rs, i);
    }
    if |r.bytes| <= n && InHeader(rs, n - |r.bytes|) {
      var i :| 0 <= i < |rs| && |Stream(rs[..i])| < n - |r.bytes| < |Stream(rs[..i])| + 12;
      assert |Stream(all[..i + 1])| < n < |Stream(all[..i + 1])| + 12;
    }
    if InHeader(all, n) {
      var i :| 0 <= i < |all| && |Stream(all[..i])| < n < |Stream(all[..i])| + 12;
      if i > 0 {
        assert all[..(i - 1) + 1] == all[..i];
        assert |Stream(all[..i])| == |r.bytes| + |Stream(rs[..i - 1])|;
      }
    }
  }

  /** A stream is cut badly exactly inside a header of one of its records. */
  lemma {:induction false} CutOkIff(rs: seq<Record>, s: seq<Byte>)
    requires AllWritten(rs) && s <= Stream(rs)
    ensures CutOk(s) <==> !InHeader(rs, |s|)
    decreases |rs|
  {
    if rs == [] {
    } else {
      var r, rest := rs[0], Stream(rs[1..]);
      assert rs == [r] + rs[1..];
      InHeaderOfCons(r, rs[1..], |s|);
      FirstRecord(r, rest);
      if |s| < |r.bytes| {
        assert s == r.bytes[..|s|];
        assert 12 <= |s| ==> PacketSize(s) == |r.bytes|;
      } else {
        var s' := s[|r.bytes|..];
        assert s == r.bytes + s' && s' <= rest;
        FirstRecord(r, s');
        CutOkIff(rs[1..], s');
      }
    }
  }

  /** No transfer ends inside a header of one of the records. */
  predicate CutsBetween(rs: seq<Record>, chunks: seq<seq<Byte>>) {
    forall k :: 0 <= k <= |chunks| ==> !InHeader(rs, |Concat(chunks[..k])|)
  }

  lemma {:induction false} CutsOkIff(rs: seq<Record>, chunks: seq<seq<Byte>>)
    requires AllWritten(rs) && Concat(chunks) <= Stream(rs)
    ensures CutsOk(chunks) <==> CutsBetween(rs, chunks)
    decreases |chunks|
  {
    assert chunks[..|chunks|] == chunks;
    CutOkIff(rs, Concat(chunks));
    if chunks == [] {
    } else {
      var init := chunks[..|chunks| - 1];
      CutsOkIff(rs, init);
      assert forall k :: 0 <= k <= |init| ==> init[..k] == chunks[..k];
      if CutsBetween(rs, init) && !InHeader(rs, |Concat(chunks)|) {
        assert forall k :: 0 <= k <= |init| ==> !InHeader(rs, |Concat(init[..k])|);
      }
    }
  }

  // ---- The bytes of a stream are counted ----

  function Size(rs: seq<Record>): nat {
    if rs == [] then 0 else |rs[0].bytes| + Size(rs[1..])
  }

  lemma {:induction false} SizeOfCons(x: Record, rs: seq<Record>)
    ensures Size([x] + rs) == |x.bytes| + Size(rs)
  {
    assert ([x] + rs)[1..] == rs;
  }

  lemma {:induction false} SizeOfAppend(a: seq<Record>, b: seq<Record>)
    ensures Size(a + b) == Size(a) + Size(b)
  {
    if a == [] {
      assert a + b == b;
    } else {
      assert (a + b)[1..] == a[1..] + b;
      SizeOfAppend(a[1..], b);
    }
  }

  lemma {:induction false} ParseKeepsBytes(s: seq<Byte>)
    ensures Size(Parse(s).records) + |Parse(s).rest| == |s|
    decreases |s|
  {
    if |s| < HDRSIZE || |s| < PacketSize(s) {
    } else {
      var r := Parse(s[PacketSize(s)..]);
      ParseKeepsBytes(s[PacketSize(s)..]);
      SizeOfCons(RecordOf(s), r.records);
    }
  }

  lemma {:induction false} LoopLosesBytes(s: seq<Byte>)
    ensures Size(Loop(s).records) + |Loop(s).rest| <= |s|
    decreases |s|
  {
    if |s| < HDRSIZE {
    } else {
      if PacketSize(s) <= |s| {
        LoopLosesBytes(s[PacketSize(s)..]);
        var r := Loop(s[PacketSize(s)..]);
        SizeOfCons(if IsTxStat(s) then TxStat(s[..HDRSIZE]) else RxFrame(s[..PacketSize(s)]), r.records);
      } else {
        SizeOfCons(TxStat(s[..HDRSIZE]), []);
      }
    }
  }

  lemma TransferLosesBytes(t: seq<Byte>, s: seq<Byte>)
    requires TruncOk(t)
    ensures Size(Transfer(t, s).records) + |Transfer(t, s).rest| <= |t| + |s|
  {
    if t == [] {
      LoopLosesBytes(s);
    } else {
      var tailSize := PacketSize(t) - |t|;
      if tailSize <= |s| {
        LoopLosesBytes(s[tailSize..]);
        SizeOfCons(RxFrame(t + s[..tailSize]), Loop(s[tailSize..]).records);
      }
    }
  }

  /** Bytes that a transfer drops inside a header are missing for ever. */
  lemma {:induction false} BadCutLosesBytes(chunks: seq<seq<Byte>>)
    requires WellFormed(Concat(chunks)) && !CutsOk(chunks)
    ensures Size(Transfers(chunks).records) + |Transfers(chunks).rest| < |Concat(chunks)|
    decreases |chunks|
  {
    if chunks == [] {
    } else {
      var init, last := chunks[..|chunks| - 1], chunks[|chunks| - 1];
      WellFormedAppend(Concat(init), last);
      var before := Transfers(init);
      var r := Transfer(before.rest, last);
      SizeOfAppend(before.records, r.records);
      if CutsOk(init) {
        TransfersParse(init);
        ParseKeepsBytes(Concat(init));
        TransferParses(before.rest, last);
        ParseAppend(Concat(init), last);
        ParseKeepsBytes(before.rest + last);
      } else {
        BadCutLosesBytes(init);
        TransferLosesBytes(before.rest, last);
      }
    }
  }

  /**
   Reassembly does not depend on how the stream is cut exactly as long as no transfer ends inside a
   12-byte header: then the records handled over all transfers are those of the whole stream, in order,
   with an unfinished record held in the truncation buffer; otherwise bytes of the stream are lost.
   */
  lemma ReassemblyIff(chunks: seq<seq<Byte>>)
    requires WellFormed(Concat(chunks))
    ensures Transfers(chunks) == Parse(Concat(chunks)) <==> CutsOk(chunks)
  {
    if CutsOk(chunks) {
      TransfersParse(chunks);
    } else {
      BadCutLosesBytes(chunks);
      ParseKeepsBytes(Concat(chunks));
    }
  }

  /** One round of the loop that handles a record. */
  lemma LoopNext(s: seq<Byte>, r: Record)
    requires HDRSIZE <= |s|
    requires if IsTxStat(s) then r == TxStat(s[..HDRSIZE])
             else PacketSize(s) <= RXBUFFER_SIZE && PacketSize(s) <= |s| && r == RxFrame(s[..PacketSize(s)])
    ensures var next := if PacketSize(s) <= |s| then Loop(s[PacketSize(s)..]) else Parsed([], []);
            Loop(s) == Parsed([r] + next.records, next.rest)
  {
  }

  // ---- The driver's code ----

  datatype UrbStatus = Success | Overflow | ConnReset | Shutdown | OtherError

  /**
   A completed transfer: its status and bytes, whether the device is up (ACX_FLAG_HW_UP), and whether the
   bytes are in the driver's own buffer (transfer_buffer == inbuf).
   */
  datatype Urb = Urb(status: UrbStatus, data: seq<Byte>, up: bool, own: bool)

  /** What one completed transfer does to the held bytes t: what is handled, and what is held then. */
  function Completion(t: seq<Byte>, urb: Urb): (r: Parsed)
    requires TruncOk(t)
    ensures TruncOk(r.rest)
  {
    if !urb.up then Parsed([], t)
    else if urb.status != Success then Parsed([], [])
    else if !urb.own then Parsed([], t)
    else
      TransferKeepsTrunc(t, urb.data);
      Transfer(t, urb.data)
  }

  /** What has been handled, and what is held, after a sequence of completed transfers. */
  function Completions(urbs: seq<Urb>): (r: Parsed)
    ensures TruncOk(r.rest)
  {
    if urbs == [] then Parsed([], [])
    else
      var before := Completions(urbs[..|urbs| - 1]);
      var r := Completion(before.rest, urbs[|urbs| - 1]);
      Parsed(before.records + r.records, r.rest)
  }

  lemma CompletionsAdd(urbs: seq<Urb>, urb: Urb)
    ensures var before := Completions(urbs);
            var r := Completion(before.rest, urb);
            Completions(urbs + [urb]) == Parsed(before.records + r.records, r.rest)
  {
    assert (urbs + [urb])[..|urbs|] == urbs;
  }

  lemma CompletionsNext(urbs: seq<Urb>, k: nat)
    requires k < |urbs|
    ensures var before := Completions(urbs[..k]);
            var r := Completion(before.rest, urbs[k]);
            Completions(urbs[..k + 1]) == Parsed(before.records + r.records, r.rest)
  {
    assert urbs[..k + 1] == urbs[..k] + [urbs[k]];
    CompletionsAdd(urbs[..k], urbs[k]);
  }

  /** Transfers without an error. */
  function Successes(chunks: seq<seq<Byte>>): (r: seq<Urb>)
    ensures |r| == |chunks|
  {
    seq(|chunks|, i requires 0 <= i < |chunks| => Urb(Success, chunks[i], true, true))
  }

  lemma SuccessesEnd(chunks: seq<seq<Byte>>)
    requires chunks != []
    ensures Successes(chunks)
            == Successes(chunks[..|chunks| - 1]) + [Urb(Success, chunks[|chunks| - 1], true, true)]
  {
  }

  /** After transfers that leave nothing held, further transfers without an error go on as if they were the first. */
  lemma {:induction false} FreshStart(urbs: seq<Urb>, chunks: seq<seq<Byte>>)
    requires Completions(urbs).rest == []
    ensures var r := Transfers(chunks);
            Completions(urbs + Successes(chunks)) == Parsed(Completions(urbs).records + r.records, r.rest)
  {
    if chunks == [] {
      assert urbs + Successes(chunks) == urbs;
      assert Completions(urbs).records + [] == Completions(urbs).records;
    } else {
      var init, last := chunks[..|chunks| - 1], chunks[|chunks| - 1];
      FreshStart(urbs, init);
      assert Completion(Transfers(init).rest, Urb(Success, last, true, true)) == Transfer(Transfers(init).rest, last);
      SuccessesEnd(chunks);
      assert urbs + Successes(chunks) == urbs + Successes(init) + [Urb(Success, last, true, true)];
      CompletionsAdd(urbs + Successes(init), Urb(Success, last, true, true));
      Regroup(Completions(urbs).records, Transfers(init).records, Transfer(Transfers(init).rest, last).records);
    }
  }

  /**
   Error statuses split the stream: what is handled after one is handled exactly as the parse of the bytes
   since then says, with the unfinished record held, if and only if none of the transfers since then ends
   inside a header.
   */
  lemma ReassemblyAfterErrorIff(urbs: seq<Urb>, error: Urb, chunks: seq<seq<Byte>>)
    requires error.up && error.status != Success && WellFormed(Concat(chunks))
    ensures var before := Completions(urbs).records;
            var whole := Parse(Concat(chunks));
            Completions(urbs + [error] + Successes(chunks)) == Parsed(before + whole.records, whole.rest)
            <==> CutsOk(chunks)
  {
    var before := Completions(urbs).records;
    CompletionsAdd(urbs, error);
    assert before + [] == before;
    FreshStart(urbs + [error], chunks);
    ReassemblyIff(chunks);
    var r, whole := Transfers(chunks), Parse(Concat(chunks));
    assert (before + r.records)[|before|..] == r.records;
    assert (before + whole.records)[|before|..] == whole.records;
  }

  method CopyBytes(dst: array<Byte>, at: nat, src: array<Byte>, from: nat, n: nat)
    requires dst != src && at + n <= dst.Length && from + n <= src.Length
    modifies dst
    ensures dst[..at + n] == old(dst[..at]) + src[from..from + n]
  {
    forall i | 0 <= i < n {
      dst[at + i] := src[from + i];
    }
  }

  /** A transfer is handled as the record it completes, if any, and the loop over the rest. */
  lemma TransferGoesOn(t: seq<Byte>, s: seq<Byte>, ptr: nat, h: seq<Record>)
    requires TruncOk(t) && ptr <= |s| && ptr == if t == [] then 0 else PacketSize(t) - |t|
    ensures var first := if t == [] then [] else [RxFrame(t + s[..ptr])];
            var r := Loop(s[ptr..]);
            Transfer(t, s).rest == r.rest && h + Transfer(t, s).records == h + first + r.records
  {
    var r := Loop(s[ptr..]);
    if t == [] {
      assert s[0..] == s;
      assert h + [] + r.records == h + r.records;
    } else {
      assert h + ([RxFrame(t + s[..ptr])] + r.records) == h + [RxFrame(t + s[..ptr])] + r.records;
    }
  }

  lemma Slices(buf: array<Byte>, ptr: nat, size: nat, n: nat)
    requires ptr + n <= size <= buf.Length
    ensures buf[ptr..size][..n] == buf[ptr..ptr + n] && buf[ptr..size][n..] == buf[ptr + n..size]
  {
  }

  /** The host controller puts the bytes of a transfer into the buffer. */
  method Receive(inbuf: array<Byte>, data: seq<Byte>)
    requires |data| <= inbuf.Length
    modifies inbuf
    ensures inbuf[..|data|] == data
  {
    forall i | 0 <= i < |data| {
      inbuf[i] := data[i];
    }
  }

  class UsbReceiver {
    const rxtruncbuf: array<Byte>
    var rxtruncsize: nat
    var rxErrors: nat
    /** The records handled so far: received frames processed and status records, with their bytes. */
    var handled: seq<Record>

    constructor ()
      ensures Valid() && Held() == [] && handled == [] && fresh(rxtruncbuf)
    {
      rxtruncbuf := new Byte[RXBUFFER_SIZE];
      rxtruncsize, rxErrors, handled := 0, 0, [];
    }

    ghost predicate Valid()
      reads this, rxtruncbuf
    {
      rxtruncbuf.Length == RXBUFFER_SIZE && rxtruncsize <= RXBUFFER_SIZE && TruncOk(Held())
    }

    /** The truncated record that is held between transfers. */
    ghost function Held(): seq<Byte>
      requires rxtruncsize <= rxtruncbuf.Length
      reads this, rxtruncbuf
    {
      rxtruncbuf[..rxtruncsize]
    }

    /** RXBUF_BYTES_USED of the record at ptr */
    method BytesUsed(buf: array<Byte>, ptr: nat) returns (n: nat)
      requires ptr + 2 <= buf.Length
      ensures n == PacketSize(buf[ptr..])
    {
      n := (buf[ptr] as int + 0x100 * buf[ptr + 1] as int) % 0x1000 + HDRSIZE;
    }

    /** `acxusb_complete_rx`; inbuf holds the bytes of the transfer. */
    method CompleteRx(urb: Urb, inbuf: array<Byte>)
      requires Valid() && inbuf != rxtruncbuf && |urb.data| <= inbuf.Length && inbuf[..|urb.data|] == urb.data
      modifies this, rxtruncbuf
      ensures Valid()
      ensures var r := Completion(old(Held()), urb);
        handled == old(handled) + r.records && Held() == r.rest
      ensures !urb.up || (urb.status == Success && !urb.own) ==> handled == old(handled) && Held() == old(Held())
      ensures urb.up && urb.status != Success ==> handled == old(handled) && Held() == []
      ensures rxErrors == old(rxErrors) + if urb.up && urb.status == OtherError then 1 else 0
    {
      assert handled + [] == handled;
      if !urb.up {
        return;
      }
      match urb.status {
        case Success =>
        case Overflow | ConnReset | Shutdown =>
          rxtruncsize := 0;
          return;
        case OtherError =>
          rxtruncsize := 0;
          rxErrors := rxErrors + 1;
          return;
      }
      if !urb.own {
        return;
      }
      HandleTransfer(inbuf, |urb.data|);
    }

    /** All transfers of a stream, one after the other, in a buffer that takes each of them. */
    method CompleteAll(urbs: seq<Urb>, inbuf: array<Byte>)
      requires Valid() && Held() == [] && handled == [] && inbuf != rxtruncbuf
      requires forall i :: 0 <= i < |urbs| ==> |urbs[i].data| <= inbuf.Length
      modifies this, rxtruncbuf, inbuf
      ensures Valid() && Parsed(handled, Held()) == Completions(urbs)
    {
      var k := 0;
      while k < |urbs|
        invariant 0 <= k <= |urbs| && Valid()
        invariant Parsed(handled, Held()) == Completions(urbs[..k])
      {
        var urb := urbs[k];
        CompletionsNext(urbs, k);
        Receive(inbuf, urb.data);
        CompleteRx(urb, inbuf);
        k := k + 1;
      }
      assert urbs[..k] == urbs;
    }

    /** A stream without errors is reassembled as a whole if and only if no transfer ends inside a header. */
    method CompleteStream(chunks: seq<seq<Byte>>, inbuf: array<Byte>)
      requires Valid() && Held() == [] && handled == [] && inbuf != rxtruncbuf && WellFormed(Concat(chunks))
      requires forall i :: 0 <= i < |chunks| ==> |chunks[i]| <= inbuf.Length
      modifies this, rxtruncbuf, inbuf
      ensures Valid() && (Parsed(handled, Held()) == Parse(Concat(chunks)) <==> CutsOk(chunks))
    {
      FreshStart([], chunks);
      assert [] + Successes(chunks) == Successes(chunks);
      assert [] + Transfers(chunks).records == Transfers(chunks).records;
      ReassemblyIff(chunks);
      CompleteAll(Successes(chunks), inbuf);
    }

    /**
     The records rs, in their plain bytes, come out exactly as they went in if and only if no transfer ends
     inside the header of one of them.
     */
    method CompleteRecords(chunks: seq<seq<Byte>>, inbuf: array<Byte>, ghost rs: seq<Record>)
      requires Valid() && Held() == [] && handled == [] && inbuf != rxtruncbuf
      requires forall i :: 0 <= i < |chunks| ==> |chunks[i]| <= inbuf.Length
      requires AllWritten(rs) && Concat(chunks) == Stream(rs)
      modifies this, rxtruncbuf, inbuf
      ensures Valid() && (handled == rs && Held() == [] <==> CutsBetween(rs, chunks))
    {
      assert Stream(rs) + [] == Stream(rs) && rs + [] == rs;
      ParseInverts(rs, []);
      CutsOkIff(rs, chunks);
      CompleteStream(chunks, inbuf);
    }

    /** A transfer without an error status. */
    method HandleTransfer(inbuf: array<Byte>, size: nat)
      requires Valid() && inbuf != rxtruncbuf && size <= inbuf.Length
      modifies this`rxtruncsize, this`handled, rxtruncbuf
      ensures Valid()
      ensures var r := Transfer(old(Held()), inbuf[..size]);
        handled == old(handled) + r.records && Held() == r.rest
    {
      ghost var h, t, s := handled, Held(), inbuf[..size];
      TransferKeepsTrunc(t, s);
      var ptr, done := 0, false;
      if rxtruncsize != 0 {
        ptr, done := Complete(inbuf, size);
      }
      if !done {
        TransferGoesOn(t, s, ptr, h);
        assert s[ptr..] == inbuf[ptr..size] && s[..ptr] == inbuf[..ptr];
        HandleRecords(inbuf, ptr, size);
      }
    }

    /** Appends a transfer to the truncated record; ptr is where the transfer goes on if that completes it. */
    method Complete(inbuf: array<Byte>, size: nat) returns (ptr: nat, done: bool)
      requires Valid() && rxtruncsize != 0 && inbuf != rxtruncbuf && size <= inbuf.Length
      modifies this`rxtruncsize, this`handled, rxtruncbuf
      ensures rxtruncsize <= RXBUFFER_SIZE && ptr <= size
      ensures var t := old(Held());
        if size < PacketSize(t) - |t| then done && Held() == t + inbuf[..size] && handled == old(handled)
        else
          && !done && rxtruncsize == 0 && ptr == PacketSize(t) - |t|
          && handled == old(handled) + [RxFrame(t + inbuf[..ptr])]
    {
      ghost var t := Held();
      assert t[..] == rxtruncbuf[..rxtruncsize] && rxtruncbuf[0..][..rxtruncsize] == t;
      var packetsize := BytesUsed(rxtruncbuf, 0);
      var tailSize := packetsize - rxtruncsize;
      if size < tailSize {
        CopyBytes(rxtruncbuf, rxtruncsize, inbuf, 0, size);
        rxtruncsize := rxtruncsize + size;
        return 0, true;
      }
      CopyBytes(rxtruncbuf, rxtruncsize, inbuf, 0, tailSize);
      handled := handled + [RxFrame(rxtruncbuf[..packetsize])];
      rxtruncsize := 0;
      return tailSize, false;
    }

    /** The loop of `acxusb_complete_rx`: remsize can become negative behind an overlong tx status. */
    method HandleRecords(inbuf: array<Byte>, start: nat, size: nat)
      requires rxtruncbuf.Length == RXBUFFER_SIZE && rxtruncsize == 0
      requires inbuf != rxtruncbuf && start <= size <= inbuf.Length
      modifies this`rxtruncsize, this`handled, rxtruncbuf
      ensures rxtruncsize <= RXBUFFER_SIZE
      ensures var r := Loop(inbuf[start..size]);
        handled == old(handled) + r.records && Held() == r.rest
    {
      var ptr := start;
      var remsize: int := size - start;
      ghost var goal := Left(inbuf, ptr, size);
      while remsize != 0
        invariant rxtruncsize == 0 && remsize == size - ptr
        invariant old(handled) + goal.records == handled + Left(inbuf, ptr, size).records
        invariant goal.rest == Left(inbuf, ptr, size).rest
        decreases if remsize < 0 then 0 else remsize + 1
      {
        if remsize < HDRSIZE {
          break;
        }
        var packetsize, more := HandleNext(inbuf, ptr, size);
        if !more {
          return;
        }
        ptr := ptr + packetsize;
        remsize := remsize - packetsize;
      }
    }

    /** One round of the loop: a record is handled, or the loop ends with or without a truncated frame. */
    method HandleNext(inbuf: array<Byte>, ptr: nat, size: nat) returns (packetsize: nat, more: bool)
      requires rxtruncbuf.Length == RXBUFFER_SIZE && rxtruncsize == 0
      requires inbuf != rxtruncbuf && ptr + HDRSIZE <= size <= inbuf.Length
      modifies this`rxtruncsize, this`handled, rxtruncbuf
      ensures rxtruncsize <= RXBUFFER_SIZE && HDRSIZE <= packetsize
      ensures more ==>
        && rxtruncsize == 0
        && handled + Left(inbuf, ptr + packetsize, size).records == old(handled) + old(Left(inbuf, ptr, size)).records
        && Left(inbuf, ptr + packetsize, size).rest == old(Left(inbuf, ptr, size)).rest
      ensures !more ==> handled == old(handled) && Parsed([], Held()) == old(Left(inbuf, ptr, size))
    {
      ghost var s := inbuf[ptr..size];
      packetsize := BytesUsed(inbuf, ptr);
      assert PacketSize(s) == packetsize && IsTxStat(s) == (inbuf[ptr + 1] >= 0x80);
      if inbuf[ptr + 1] >= 0x80 {
        HandleRecord(TxStat(inbuf[ptr..ptr + HDRSIZE]), inbuf, ptr, packetsize, size);
        more := true;
      } else if packetsize > RXBUFFER_SIZE {
        more := false;
      } else if packetsize > size - ptr {
        Truncate(inbuf, ptr, size);
        more := false;
      } else {
        HandleRecord(RxFrame(inbuf[ptr..ptr + packetsize]), inbuf, ptr, packetsize, size);
        more := true;
      }
    }

    /** Keeps the start of a frame for the next transfer. */
    method Truncate(inbuf: array<Byte>, ptr: nat, size: nat)
      requires rxtruncbuf.Length == RXBUFFER_SIZE && inbuf != rxtruncbuf
      requires ptr + HDRSIZE <= size <= inbuf.Length && !IsTxStat(inbuf[ptr..size])
      requires size - ptr < PacketSize(inbuf[ptr..size]) <= RXBUFFER_SIZE
      modifies this`rxtruncsize, rxtruncbuf
      ensures rxtruncsize <= RXBUFFER_SIZE
      ensures Parsed([], Held()) == old(Left(inbuf, ptr, size))
    {
      CopyBytes(rxtruncbuf, 0, inbuf, ptr, size - ptr);
      rxtruncsize := size - ptr;
    }

    /** Processes or reports a record. */
    method HandleRecord(r: Record, inbuf: array<Byte>, ghost ptr: nat, ghost packetsize: nat, ghost size: nat)
      requires ptr + HDRSIZE <= size <= inbuf.Length && packetsize == PacketSize(inbuf[ptr..size])
      requires if IsTxStat(inbuf[ptr..size]) then r == TxStat(inbuf[ptr..ptr + HDRSIZE])
               else packetsize <= RXBUFFER_SIZE && ptr + packetsize <= size
                    && r == RxFrame(inbuf[ptr..ptr + packetsize])
      modifies this`handled
      ensures handled == old(handled) + [r]
      ensures handled + Left(inbuf, ptr + packetsize, size).records == old(handled) + Left(inbuf, ptr, size).records
      ensures Left(inbuf, ptr + packetsize, size).rest == Left(inbuf, ptr, size).rest
    {
      RecordStep(handled, r, inbuf, ptr, size);
      handled := handled + [r];
    }

    lemma RecordStep(h: seq<Record>, r: Record, inbuf: array<Byte>, ptr: nat, size: nat)
      requires ptr + HDRSIZE <= size <= inbuf.Length
      requires var n := PacketSize(inbuf[ptr..size]);
        if IsTxStat(inbuf[ptr..size]) then r == TxStat(inbuf[ptr..ptr + HDRSIZE])
        else n <= RXBUFFER_SIZE && ptr + n <= size && r == RxFrame(inbuf[ptr..ptr + n])
      ensures var now, next := Left(inbuf, ptr, size), Left(inbuf, ptr + PacketSize(inbuf[ptr..size]), size);
        h + now.records == h + [r] + next.records && now.rest == next.rest
    {
      var s := inbuf[ptr..size];
      var n := PacketSize(s);
      Slices(inbuf, ptr, size, HDRSIZE);
      if n <= |s| {
        Slices(inbuf, ptr, size, n);
      }
      LoopNext(s, r);
      Regroup(h, [r], Left(inbuf, ptr + n, size).records);
    }

    /** What the loop will still do at ptr: nothing, if it is behind the end. */
    ghost function Left(inbuf: array<Byte>, ptr: nat, size: nat): Parsed
      requires size <= inbuf.Length
      reads inbuf
    {
      if ptr <= size then Loop(inbuf[ptr..size]) else Parsed([], [])
    }
  }
}
