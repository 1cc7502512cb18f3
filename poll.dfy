/**
 * The response poll loop shared by the executors of lib/ecc.js
 * (atcaExecuteCommandAsync) and lib/commands/exec.js (execAsync): read the
 * 130-byte receive buffer; on a NACK wait 5 ms and try again, at most
 * floor(2500 / 5) + 1 times in all; stop on data or on any other error.
 */
module Polling {
  import opened Base
  import opened I2c
  import opened Frame

  const PollingInitMs: nat := 2
  const PollingFrequencyMs: nat := 5
  const PollingMaxMs: nat := 2500
  /** Math.floor(POLLING_MAX / POLLING_FREQUENCY) */
  const MaxDelayCount: nat := PollingMaxMs / PollingFrequencyMs
  const ReceiveBufferSize: nat := 130

  const WakeToken: seq<Byte> := [0x00]
  const SleepToken: seq<Byte> := [0x01]
  const IdleToken: seq<Byte> := [0x02]

  datatype PollOutcome =
    | Response(rsp: seq<Byte>)      // `rsp` holds the receive buffer
    | Exhausted                     // every attempt was NACKed; `rsp` stays undefined
    | ReadFailed(error: BusError)   // a read failed with an error other than ENXIO

  /** Why an executor rejects. */
  datatype ExecError =
    | BusFailed(error: BusError)   // a bus error passed on as it is
    | WakeTimeout                  // 'wake timeout' (lib/commands/exec.js)
    | WakeFailed                   // 'failed' (lib/ecc.js)
    | BadWakeResponse              // 'bad response in wake' (src/commands/exec.js)
    | IdleFailed                   // 'idle failed' (src/commands/exec.js)
    | Timeout                      // ETIMEOUT (src/commands/exec.js)
    | NoResponse                   // every poll was NACKed and rsp[0] is read of undefined
    | Rejected(why: ResponseError) // the response failed validation

  /** What an executor makes of the poll loop once the device is idle again:
      the validated response, the read error, or no response at all. */
  function Settle(o: PollOutcome): (r: Result<seq<Byte>, ExecError>)
    requires o.Response? ==> |o.rsp| >= ResponseSizeMin
    ensures r.Ok? <==> o.Response? && Validate(o.rsp).Ok?
    ensures r.Ok? ==> r.value == Validate(o.rsp).value
    ensures o.Response? && r.Err? ==> r.error == Rejected(Validate(o.rsp).error)
    ensures o.Exhausted? <==> r == Err(NoResponse)
    ensures o.ReadFailed? <==> r.Err? && r.error.BusFailed?
    ensures o.ReadFailed? ==> r.error.error == o.error
  {
    match o
    case Response(rsp) =>
      (match Validate(rsp)
       case Ok(body) => Ok(body)
       case Err(why) => Err(Rejected(why)))
    case Exhausted => Err(NoResponse)
    case ReadFailed(e) => Err(BusFailed(e))
  }

  /** A device that sends the wake sentinel (and maybe more) fills the
      4-byte buffer with exactly the sentinel. */
  lemma SentinelRead(bytes: seq<Byte>)
    ensures ReadResult(Data(WakeSentinel + bytes), 4) == Ok(WakeSentinel)
  {
    assert (WakeSentinel + bytes)[..4] == WakeSentinel;
  }

  /** No read of the log returned the wake sentinel. */
  predicate NoSentinel(t: seq<Event>)
  {
    forall i :: 0 <= i < |t| && t[i].Read? ==> ReadResult(t[i].got, t[i].len) != Ok(WakeSentinel)
  }

  /** Every read of the log was answered, by a NACK or by data. */
  predicate NoReadFailure(t: seq<Event>)
  {
    forall i :: 0 <= i < |t| && t[i].Read? ==> !t[i].got.Failure?
  }

  /** k NACKed attempts, each followed by the 5 ms back-off. */
  function NackRounds(dev: nat, k: nat): (t: seq<Event>)
    ensures |t| == 2 * k
  {
    if k == 0 then [] else NackRounds(dev, k - 1) + [Read(dev, ReceiveBufferSize, Nack), Waited(PollingFrequencyMs)]
  }

  lemma {:induction false} NackRoundsFacts(dev: nat, k: nat, len: nat, bytes: seq<Byte>)
    ensures CountReads(NackRounds(dev, k), len) == if len == ReceiveBufferSize then k else 0
    ensures CountWrites(NackRounds(dev, k), bytes) == 0
    ensures LastRead(NackRounds(dev, k)) == if k == 0 then None else Some(Read(dev, ReceiveBufferSize, Nack))
    ensures WritesOnly(NackRounds(dev, k), {})
    ensures forall i :: 0 <= i < |NackRounds(dev, k)| && NackRounds(dev, k)[i].Read? ==>
              NackRounds(dev, k)[i] == Read(dev, ReceiveBufferSize, Nack)
  {
    if k > 0 {
      var round := [Read(dev, ReceiveBufferSize, Nack), Waited(PollingFrequencyMs)];
      NackRoundsFacts(dev, k - 1, len, bytes);
      LogAppend(NackRounds(dev, k - 1), round, len, bytes);
      LogSnoc([], round[0], len, bytes);
      assert [] + [round[0]] == [round[0]];
      LogSnoc([round[0]], round[1], len, bytes);
      assert [round[0]] + [round[1]] == round;
    }
  }

  /** The outcome a poll ending in tail reports: no final read means every
      attempt was NACKed. */
  function PollOutcomeOf(tail: seq<Event>): (o: PollOutcome)
    ensures o.Exhausted? <==> tail == [] || !tail[0].Read?
    ensures o.Response? ==> |o.rsp| == ReceiveBufferSize
  {
    if tail == [] || !tail[0].Read? then Exhausted
    else
      match ReadResult(tail[0].got, ReceiveBufferSize)
      case Ok(b) => Response(b)
      case Err(e) => ReadFailed(e)
  }

  /** The events of one command after the device woke: the frame written,
      and when that succeeded the initial delay, the poll loop and the idle
      token. */
  function CommandEvents(dev: nat, frame: seq<Byte>, sent: WriteOutcome, k: nat,
                         tail: seq<Event>, idle: WriteOutcome): seq<Event>
  {
    if !sent.Done? then [Wrote(dev, frame, sent)]
    else [Wrote(dev, frame, sent), Waited(PollingInitMs)] + NackRounds(dev, k) + tail + [Wrote(dev, IdleToken, idle)]
  }

  /** How an executor settles once the device woke: a failed frame write
      rejects at once; otherwise an idle failure (where the executor awaits
      it) wins; otherwise the poll outcome is settled. */
  function CommandResult(sent: WriteOutcome, tail: seq<Event>, idle: Result<(), BusError>): (r: Result<seq<Byte>, ExecError>)
    ensures r.Ok? <==> && sent.Done? && idle.Ok? && tail != [] && tail[0].Read? && tail[0].got.Data?
                       && Validate(Fit(tail[0].got.bytes, ReceiveBufferSize)).Ok?
    ensures r.Ok? ==> r.value == Validate(Fit(tail[0].got.bytes, ReceiveBufferSize)).value
    ensures sent.Done? && idle.Ok? && (tail == [] || !tail[0].Read?) ==> r == Err(NoResponse)
  {
    if !sent.Done? then Err(BusFailed(WriteResult(sent).error))
    else if idle.Err? then Err(BusFailed(idle.error))
    else Settle(PollOutcomeOf(tail))
  }

  /** The poll loop. `k` counts the NACKed attempts and `tail` is the final
      read when the loop stopped on one. */
  method Poll(bus: Bus) returns (o: PollOutcome, ghost k: nat, ghost tail: seq<Event>)
    modifies bus
    ensures bus.log == old(bus.log) + NackRounds(bus.device, k) + tail
    ensures k <= MaxDelayCount + 1
    ensures o.Exhausted? <==> tail == []
    ensures o.Exhausted? ==> k == MaxDelayCount + 1
    ensures !o.Exhausted? ==>
              && k <= MaxDelayCount && |tail| == 1
              && tail[0].Read? && tail[0].addr == bus.device && tail[0].len == ReceiveBufferSize
              && !tail[0].got.Nack?
              && ReadResult(tail[0].got, ReceiveBufferSize) == (if o.Response? then Ok(o.rsp) else Err(o.error))
    ensures o.Response? ==> |o.rsp| == ReceiveBufferSize
    ensures o == PollOutcomeOf(tail)
    ensures o.ReadFailed? ==> o.error != Enxio
    ensures bus.writeScript == old(bus.writeScript)
    ensures old(bus.NextRead()).Data? ==>
              k == 0 && o == Response(Fit(old(bus.NextRead()).bytes, ReceiveBufferSize)) &&
              tail == [Read(bus.device, ReceiveBufferSize, old(bus.NextRead()))] &&
              bus.readScript == old(bus.readScript)[1..]
  {
    var maxDelayCount := MaxDelayCount;
    k := 0;
    while true
      invariant k + maxDelayCount == MaxDelayCount
      invariant bus.log == old(bus.log) + NackRounds(bus.device, k)
      invariant bus.writeScript == old(bus.writeScript)
      invariant k == 0 ==> bus.readScript == old(bus.readScript)
      invariant k > 0 ==> old(bus.NextRead()).Nack?
      decreases maxDelayCount
    {
      var r := bus.ReadDevice(ReceiveBufferSize);
      if r.Ok? {
        o := Response(r.value);
        tail := [bus.log[|bus.log| - 1]];
        return;
      }
      if r.error != Enxio {
        o := ReadFailed(r.error);
        tail := [bus.log[|bus.log| - 1]];
        return;
      }
      bus.Delay(PollingFrequencyMs);
      k := k + 1;
      // do { ... } while (maxDelayCount-- > 0)
      if maxDelayCount == 0 {
        o := Exhausted;
        tail := [];
        return;
      }
      maxDelayCount := maxDelayCount - 1;
    }
  }

  /** The frame write and the initial delay. */
  lemma SentFacts(w: Event, len: nat, bytes: seq<Byte>)
    requires w.Wrote?
    ensures CountReads([w, Waited(PollingInitMs)], len) == 0
    ensures CountWrites([w, Waited(PollingInitMs)], bytes) == if w.bytes == bytes then 1 else 0
    ensures LastRead([w, Waited(PollingInitMs)]) == None
    ensures CountReads([w], len) == 0 && LastRead([w]) == None
    ensures CountWrites([w], bytes) == if w.bytes == bytes then 1 else 0
  {
    LogSnoc([], w, len, bytes);
    assert [] + [w] == [w];
    LogSnoc([w], Waited(PollingInitMs), len, bytes);
    assert [w] + [Waited(PollingInitMs)] == [w, Waited(PollingInitMs)];
  }

  /** The poll loop's own events: the NACKed rounds and the final read. */
  lemma {:induction false} PolledFacts(dev: nat, k: nat, tail: seq<Event>, len: nat, bytes: seq<Byte>)
    requires tail == [] || (|tail| == 1 && tail[0].Read? && tail[0].len == ReceiveBufferSize)
    ensures CountReads(NackRounds(dev, k) + tail, len) == if len == ReceiveBufferSize then k + |tail| else 0
    ensures CountWrites(NackRounds(dev, k) + tail, bytes) == 0
    ensures LastRead(NackRounds(dev, k) + tail) ==
              if tail != [] then Some(tail[0]) else if k == 0 then None else Some(Read(dev, ReceiveBufferSize, Nack))
  {
    var nr := NackRounds(dev, k);
    NackRoundsFacts(dev, k, len, bytes);
    LogAppend(nr, tail, len, bytes);
    if tail == [] {
      assert CountReads(tail, len) == 0 && CountWrites(tail, bytes) == 0 && LastRead(tail) == None;
    } else {
      LogSnoc([], tail[0], len, bytes);
      assert [] + [tail[0]] == tail;
      assert LastRead(tail) == Some(tail[0]);
    }
  }

  /** Four stretches of a log, the last a single write, grouped as
      CommandEvents groups them. */
  lemma JoinFacts(head: seq<Event>, nr: seq<Event>, tail: seq<Event>, last: Event, len: nat, bytes: seq<Byte>)
    requires last.Wrote?
    ensures CountReads(head + nr + tail + [last], len) == CountReads(head, len) + CountReads(nr + tail, len)
    ensures CountWrites(head + nr + tail + [last], bytes) ==
              CountWrites(head, bytes) + CountWrites(nr + tail, bytes) + (if last.bytes == bytes then 1 else 0)
    ensures LastRead(head + nr + tail + [last]) == if LastRead(nr + tail).Some? then LastRead(nr + tail) else LastRead(head)
  {
    LogAppend(head, nr, len, bytes);
    LogAppend(nr, tail, len, bytes);
    LogAppend(head + nr, tail, len, bytes);
    LogSnoc(head + nr + tail, last, len, bytes);
  }

  /** The events of a command whose frame went out. */
  lemma {:induction false} SentEventsFacts(dev: nat, frame: seq<Byte>, k: nat, tail: seq<Event>,
                                           idle: WriteOutcome, len: nat, bytes: seq<Byte>)
    requires tail == [] || (|tail| == 1 && tail[0].Read? && tail[0].len == ReceiveBufferSize)
    ensures CountWrites(CommandEvents(dev, frame, Done, k, tail, idle), bytes) ==
              (if bytes == frame then 1 else 0) + (if bytes == IdleToken then 1 else 0)
    ensures CountReads(CommandEvents(dev, frame, Done, k, tail, idle), len) ==
              if len == ReceiveBufferSize then k + |tail| else 0
    ensures LastRead(CommandEvents(dev, frame, Done, k, tail, idle)) ==
              if tail != [] then Some(tail[0]) else if k == 0 then None else Some(Read(dev, ReceiveBufferSize, Nack))
  {
    var head := [Wrote(dev, frame, Done), Waited(PollingInitMs)];
    SentFacts(head[0], len, bytes);
    PolledFacts(dev, k, tail, len, bytes);
    JoinFacts(head, NackRounds(dev, k), tail, Wrote(dev, IdleToken, idle), len, bytes);
  }

  /** The events of one command write the frame once and the idle token
      once exactly when the frame went out, read the receive buffer once per
      poll attempt, and do nothing else. */
  lemma CommandEventsFacts(dev: nat, frame: seq<Byte>, sent: WriteOutcome, k: nat,
                           tail: seq<Event>, idle: WriteOutcome, len: nat, bytes: seq<Byte>)
    requires tail == [] || (|tail| == 1 && tail[0].Read? && tail[0].len == ReceiveBufferSize)
    ensures CountWrites(CommandEvents(dev, frame, sent, k, tail, idle), bytes) ==
              (if bytes == frame then 1 else 0) + (if sent.Done? && bytes == IdleToken then 1 else 0)
    ensures CountReads(CommandEvents(dev, frame, sent, k, tail, idle), len) ==
              if sent.Done? && len == ReceiveBufferSize then k + |tail| else 0
    ensures sent.Done? ==>
              LastRead(CommandEvents(dev, frame, sent, k, tail, idle)) ==
              if tail != [] then Some(tail[0]) else if k == 0 then None else Some(Read(dev, ReceiveBufferSize, Nack))
  {
    if sent.Done? {
      SentEventsFacts(dev, frame, k, tail, idle, len, bytes);
    } else {
      SentFacts(Wrote(dev, frame, sent), len, bytes);
    }
  }

  /** The events of one command write nothing but the frame and the idle
      token. */
  lemma CommandEventsWritesOnly(dev: nat, frame: seq<Byte>, sent: WriteOutcome, k: nat,
                                tail: seq<Event>, idle: WriteOutcome)
    requires tail == [] || (|tail| == 1 && tail[0].Read?)
    ensures WritesOnly(CommandEvents(dev, frame, sent, k, tail, idle), {frame, IdleToken})
  {
    if sent.Done? {
      var head := [Wrote(dev, frame, sent), Waited(PollingInitMs)];
      var mid := NackRounds(dev, k) + tail;
      var last := Wrote(dev, IdleToken, idle);
      assert CommandEvents(dev, frame, sent, k, tail, idle) == head + mid + [last];
      NackRoundsFacts(dev, k, 0, []);
      WritesOnlyAppend(NackRounds(dev, k), tail, {frame, IdleToken});
      WritesOnlyAppend(head, mid, {frame, IdleToken});
      WritesOnlyAppend(head + mid, [last], {frame, IdleToken});
    }
  }

  /** A response packet read in full is what the executor returns, whatever
      fills the rest of the receive buffer. */
  lemma CommandReturnsBody(dev: nat, body: seq<Byte>, rest: seq<Byte>)
    requires 1 <= |body| && |body| + 3 <= ReceiveBufferSize
    ensures CommandResult(Done, [Read(dev, ReceiveBufferSize, Data(Encapsulate(body) + rest))], Ok(())) == Ok(body)
  {
    var e := Encapsulate(body);
    FitAppend(e, rest, ReceiveBufferSize);
    ValidateEncapsulate(body, Fit(rest, ReceiveBufferSize - |e|));
  }

  /** What both executors do once the device woke: write the frame, wait
      the initial delay, poll, and send the idle token. lib/commands/exec.js
      awaits the idle write, so its failure rejects; lib/ecc.js starts it
      without awaiting it (awaitIdle false), so its outcome is ignored. A
      failed frame write rejects at once, with no idle token. */
  method Transact(bus: Bus, frame: seq<Byte>, awaitIdle: bool)
    returns (r: Result<seq<Byte>, ExecError>, ghost sent: WriteOutcome, ghost k: nat,
             ghost tail: seq<Event>, ghost idle: WriteOutcome)
    modifies bus
    ensures bus.log == old(bus.log) + CommandEvents(bus.device, frame, sent, k, tail, idle)
    ensures sent == old(bus.NextWrite())
    ensures !sent.Done? ==> k == 0 && tail == []
    ensures sent.Done? ==>
              && k <= MaxDelayCount + 1
              && (tail == [] <==> k == MaxDelayCount + 1)
              && (tail == [] || (|tail| == 1 && IsRead(tail[0], bus.device, ReceiveBufferSize) && !tail[0].got.Nack?))
    ensures r == CommandResult(sent, tail, if awaitIdle then WriteResult(idle) else Ok(()))
    ensures old(bus.writeScript) == [] ==> sent.Done? && idle.Done?
    ensures sent.Done? && old(bus.NextRead()).Data? ==>
              k == 0 && tail == [Read(bus.device, ReceiveBufferSize, old(bus.NextRead()))]
  {
    ghost var log0 := bus.log;
    sent, k, tail, idle := bus.NextWrite(), 0, [], Done;
    var w := bus.Write(bus.device, frame);
    if w.Err? {
      r := Err(BusFailed(w.error));
      return;
    }
    bus.Delay(PollingInitMs);
    var o;
    o, k, tail := Poll(bus);
    idle := bus.NextWrite();
    var i := bus.Write(bus.device, IdleToken);
    assert bus.log == log0 + CommandEvents(bus.device, frame, sent, k, tail, idle);
    if awaitIdle && i.Err? {
      // the idle token goes out before the poll outcome is looked at
      r := Err(BusFailed(i.error));
      return;
    }
    r := Settle(o);
  }
}
