/**
 * The executor of lib/ecc.js (class Ecc): wakeAsync, idleAsync, sleepAsync
 * and atcaExecuteCommandAsync. It differs from lib/commands/exec.js in the
 * wake loop (20 reads, every read error rejects, 1 ms after every read)
 * and in idle and sleep, whose writes are started but never awaited.
 */
module EccExec {
  import opened Base
  import opened I2c
  import opened Frame
  import opened Polling

  const WakeTries: nat := 20
  const WakeDelayMs: nat := 3
  /** The delay of the `finally` clause after every wake read. */
  const TryDelayMs: nat := 1
  const WakeReadSize: nat := 4

  /** Every read of the log was answered with data. */
  predicate AllReadsData(t: seq<Event>)
  {
    forall i :: 0 <= i < |t| && t[i].Read? ==> t[i].got.Data?
  }

  /** idleAsync: the idle token is written and its outcome ignored. */
  method Idle(bus: Bus)
    modifies bus
    ensures bus.log == old(bus.log) + [Wrote(bus.device, IdleToken, old(bus.NextWrite()))]
    ensures bus.readScript == old(bus.readScript)
  {
    var ignored := bus.Write(bus.device, IdleToken);
  }

  /** sleepAsync: the sleep token is written and its outcome ignored. */
  method Sleep(bus: Bus)
    modifies bus
    ensures bus.log == old(bus.log) + [Wrote(bus.device, SleepToken, old(bus.NextWrite()))]
    ensures bus.readScript == old(bus.readScript)
  {
    var ignored := bus.Write(bus.device, SleepToken);
  }

  /** The dummy write and the first delay. */
  lemma StartFacts(e: Event)
    requires IsWrite(e, GeneralCall, WakeToken)
    ensures CountReads([e, Waited(WakeDelayMs)], WakeReadSize) == 0
    ensures CountReads([e, Waited(WakeDelayMs)], ReceiveBufferSize) == 0
    ensures LastRead([e, Waited(WakeDelayMs)]) == None
    ensures WritesOnly([e, Waited(WakeDelayMs)], {WakeToken})
    ensures NoSentinel([e, Waited(WakeDelayMs)]) && AllReadsData([e, Waited(WakeDelayMs)])
  {
    assert [] + [e] == [e];
    assert [e] + [Waited(WakeDelayMs)] == [e, Waited(WakeDelayMs)];
    LogSnoc([], e, WakeReadSize, []);
    LogSnoc([], e, ReceiveBufferSize, []);
    LogSnoc([e], Waited(WakeDelayMs), WakeReadSize, []);
    LogSnoc([e], Waited(WakeDelayMs), ReceiveBufferSize, []);
  }

  /** A wake read followed by the delay of the `finally` clause. */
  lemma TryFacts(t: seq<Event>, e: Event)
    requires e.Read? && e.len == WakeReadSize
    ensures CountReads(t + [e, Waited(TryDelayMs)], WakeReadSize) == CountReads(t, WakeReadSize) + 1
    ensures CountReads(t + [e, Waited(TryDelayMs)], ReceiveBufferSize) == CountReads(t, ReceiveBufferSize)
    ensures LastRead(t + [e, Waited(TryDelayMs)]) == Some(e)
    ensures WritesOnly(t, {WakeToken}) ==> WritesOnly(t + [e, Waited(TryDelayMs)], {WakeToken})
    ensures NoSentinel(t) && ReadResult(e.got, WakeReadSize) != Ok(WakeSentinel) ==>
              NoSentinel(t + [e, Waited(TryDelayMs)])
    ensures AllReadsData(t) && e.got.Data? ==> AllReadsData(t + [e, Waited(TryDelayMs)])
  {
    assert t + [e, Waited(TryDelayMs)] == t + [e] + [Waited(TryDelayMs)];
    LogSnoc(t, e, WakeReadSize, []);
    LogSnoc(t + [e], Waited(TryDelayMs), WakeReadSize, []);
    LogSnoc(t, e, ReceiveBufferSize, []);
    LogSnoc(t + [e], Waited(TryDelayMs), ReceiveBufferSize, []);
    if WritesOnly(t, {WakeToken}) {
      WritesOnlyAppend(t, [e, Waited(TryDelayMs)], {WakeToken});
    }
    forall i | 0 <= i < |t + [e, Waited(TryDelayMs)]| && (t + [e, Waited(TryDelayMs)])[i].Read?
      ensures (t + [e, Waited(TryDelayMs)])[i] == if i < |t| then t[i] else e
    {
    }
  }

  /** One wake read and the delay of its `finally` clause. */
  method Try(bus: Bus) returns (data: Result<seq<Byte>, BusError>, ghost e: Event)
    modifies bus
    ensures e == Read(bus.device, WakeReadSize, old(bus.NextRead()))
    ensures bus.log == old(bus.log) + [e, Waited(TryDelayMs)]
    ensures data == ReadResult(e.got, WakeReadSize)
    ensures bus.readScript == (if old(bus.readScript) == [] then [] else old(bus.readScript)[1..])
    ensures bus.writeScript == old(bus.writeScript)
  {
    e := Read(bus.device, WakeReadSize, bus.NextRead());
    data := bus.ReadDevice(WakeReadSize);
    bus.Delay(TryDelayMs);
  }

  /** wakeAsync. The dummy write's outcome is ignored; after 3 ms up to 20
      reads of 4 bytes follow, each followed by 1 ms. The wake sentinel ends
      the wake, other data tries again, and any read error, a NACK
      included, rejects. `t` is the log of the call. */
  method Wake(bus: Bus) returns (r: Result<(), ExecError>, ghost t: seq<Event>)
    modifies bus
    ensures bus.log == old(bus.log) + t
    ensures |t| >= 2 && IsWrite(t[0], GeneralCall, WakeToken) && t[1] == Waited(WakeDelayMs)
    ensures CountReads(t, WakeReadSize) <= WakeTries && CountReads(t, ReceiveBufferSize) == 0
    ensures WritesOnly(t, {WakeToken})
    ensures CountReads(t, WakeReadSize) > 0 ==> t[|t| - 1] == Waited(TryDelayMs)
    ensures r.Ok? ==>
              && LastRead(t).Some? && IsRead(LastRead(t).value, bus.device, WakeReadSize)
              && ReadResult(LastRead(t).value.got, WakeReadSize) == Ok(WakeSentinel)
    ensures r.Err? ==> NoSentinel(t) && (r.error == WakeFailed || r.error.BusFailed?)
    ensures r == Err(WakeFailed) ==> CountReads(t, WakeReadSize) == WakeTries && AllReadsData(t)
    ensures r.Err? && r.error.BusFailed? ==>
              && LastRead(t).Some? && !LastRead(t).value.got.Data?
              && Err(r.error.error) == ReadResult(LastRead(t).value.got, WakeReadSize)
    ensures old(bus.NextRead()) == Data(WakeSentinel) ==>
              r.Ok? && CountReads(t, WakeReadSize) == 1 && bus.readScript == old(bus.readScript)[1..]
    ensures old(bus.writeScript) == [] ==> bus.writeScript == []
  {
    ghost var log0 := bus.log;
    var ignored := bus.Write(GeneralCall, WakeToken);
    bus.Delay(WakeDelayMs);
    t := bus.log[|log0|..];
    assert t == [t[0], Waited(WakeDelayMs)];
    StartFacts(t[0]);
    var i := 0;
    while i < WakeTries
      invariant 0 <= i <= WakeTries
      invariant bus.log == log0 + t
      invariant |t| >= 2 && IsWrite(t[0], GeneralCall, WakeToken) && t[1] == Waited(WakeDelayMs)
      invariant CountReads(t, WakeReadSize) == i && CountReads(t, ReceiveBufferSize) == 0
      invariant i > 0 ==> t[|t| - 1] == Waited(TryDelayMs)
      invariant WritesOnly(t, {WakeToken})
      invariant NoSentinel(t) && AllReadsData(t)
      invariant i == 0 ==> bus.readScript == old(bus.readScript)
      invariant i > 0 ==> old(bus.NextRead()) != Data(WakeSentinel)
      invariant old(bus.writeScript) == [] ==> bus.writeScript == []
    {
      ghost var before := bus.log;
      var data;
      ghost var e;
      data, e := Try(bus);
      LogExtends(log0, t, before, [e, Waited(TryDelayMs)]);
      TryFacts(t, e);
      t := t + [e, Waited(TryDelayMs)];
      if data.Err? {
        r := Err(BusFailed(data.error));
        return;
      }
      if data.value == WakeSentinel {
        r := Ok(());
        return;
      }
      i := i + 1;
    }
    r := Err(WakeFailed);
  }

  /** atcaExecuteCommandAsync. As in lib/commands/exec.js, except that the
      idle token's outcome never matters (`idle` only shapes the log). */
  method Execute(bus: Bus, p: Packet)
    returns (r: Result<seq<Byte>, ExecError>, ghost tw: seq<Event>, ghost woke: bool,
             ghost sent: WriteOutcome, ghost k: nat, ghost tail: seq<Event>, ghost idle: WriteOutcome)
    modifies bus
    ensures bus.log == old(bus.log) + tw + (if woke then CommandEvents(bus.device, Encode(p), sent, k, tail, idle) else [])
    ensures |tw| >= 2 && IsWrite(tw[0], GeneralCall, WakeToken)
    ensures WritesOnly(tw, {WakeToken}) && CountReads(tw, ReceiveBufferSize) == 0
    ensures CountReads(tw, WakeReadSize) <= WakeTries
    ensures woke <==> !NoSentinel(tw)
    ensures !woke ==> r.Err? && (r.error == WakeFailed || r.error.BusFailed?)
    ensures woke ==>
              && LastRead(tw).Some? && IsRead(LastRead(tw).value, bus.device, WakeReadSize)
              && ReadResult(LastRead(tw).value.got, WakeReadSize) == Ok(WakeSentinel)
    ensures woke && sent.Done? ==>
              && k <= MaxDelayCount + 1
              && (tail == [] <==> k == MaxDelayCount + 1)
              && (tail == [] || (|tail| == 1 && IsRead(tail[0], bus.device, ReceiveBufferSize) && !tail[0].got.Nack?))
    ensures woke ==> r == CommandResult(sent, tail, Ok(()))
    ensures && |old(bus.readScript)| >= 2 && old(bus.readScript)[0] == Data(WakeSentinel)
            && old(bus.readScript)[1].Data? && old(bus.writeScript) == [] ==>
              && woke && sent.Done?
              && tail == [Read(bus.device, ReceiveBufferSize, old(bus.readScript)[1])]
  {
    var frame := Encode(p);
    var wr;
    wr, tw := Wake(bus);
    woke := wr.Ok?;
    if wr.Err? {
      r := Err(wr.error);
      sent, k, tail, idle := Done, 0, [], Done;
      assert bus.log == old(bus.log) + tw + [];
      return;
    }
    r, sent, k, tail, idle := Transact(bus, frame, false);
  }

  /** A device that wakes at once and answers with a well-formed response
      packet makes atcaExecuteCommandAsync return exactly the packet's body. */
  method ExecuteReturnsResponse(body: seq<Byte>, p: Packet) returns (r: Result<seq<Byte>, ExecError>)
    requires 1 <= |body| && |body| + 3 <= ReceiveBufferSize
    ensures r == Ok(body)
  {
    var bus := new Bus(0xC0 / 2, [Data(WakeSentinel), Data(Encapsulate(body))], [], 0);
    ghost var tw, woke, sent, k, tail, idle;
    r, tw, woke, sent, k, tail, idle := Execute(bus, p);
    assert Encapsulate(body) + [] == Encapsulate(body);
    CommandReturnsBody(bus.device, body, []);
  }
}
