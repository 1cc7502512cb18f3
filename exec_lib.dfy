/**
 * The executor of lib/commands/exec.js: wake the device with the wake
 * token, send one command frame, poll the receive buffer, put the device
 * back to idle and validate the response. Every rejection of the bus is
 * passed on, except where the code deliberately ignores it.
 */
module CommandsExec {
  import opened Base
  import opened I2c
  import opened Frame
  import opened Polling

  /** maxDelayCount of wakeAsync: one read, then up to 1000 more. */
  const WakeRetries: nat := 1000
  const WakeDelayMs: nat := 3
  const WakeReadSize: nat := 4

  /** idleAsync: the idle token to the device; a failed write rejects. */
  method Idle(bus: Bus) returns (r: Result<(), BusError>)
    modifies bus
    ensures r == WriteResult(old(bus.NextWrite()))
    ensures bus.log == old(bus.log) + [Wrote(bus.device, IdleToken, old(bus.NextWrite()))]
    ensures bus.readScript == old(bus.readScript)
  {
    r := bus.Write(bus.device, IdleToken);
  }

  /** sleepAsync: the sleep token to the device; a failed write rejects. */
  method Sleep(bus: Bus) returns (r: Result<(), BusError>)
    modifies bus
    ensures r == WriteResult(old(bus.NextWrite()))
    ensures bus.log == old(bus.log) + [Wrote(bus.device, SleepToken, old(bus.NextWrite()))]
    ensures bus.readScript == old(bus.readScript)
    ensures old(bus.writeScript) == [] ==> bus.writeScript == []
  {
    r := bus.Write(bus.device, SleepToken);
  }

  /** A wait followed by a read of the wake response, appended to a log. */
  lemma AttemptFacts(t: seq<Event>, ms: nat, e: Event)
    requires e.Read? && e.len == WakeReadSize
    ensures CountReads(t + [Waited(ms), e], WakeReadSize) == CountReads(t, WakeReadSize) + 1
    ensures CountReads(t + [Waited(ms), e], ReceiveBufferSize) == CountReads(t, ReceiveBufferSize)
    ensures LastRead(t + [Waited(ms), e]) == Some(e)
    ensures WritesOnly(t, {WakeToken}) ==> WritesOnly(t + [Waited(ms), e], {WakeToken})
    ensures NoSentinel(t) && ReadResult(e.got, WakeReadSize) != Ok(WakeSentinel) ==> NoSentinel(t + [Waited(ms), e])
    ensures NoReadFailure(t) && !e.got.Failure? ==> NoReadFailure(t + [Waited(ms), e])
  {
    assert t + [Waited(ms), e] == t + [Waited(ms)] + [e];
    LogSnoc(t, Waited(ms), WakeReadSize, SleepToken);
    LogSnoc(t + [Waited(ms)], e, WakeReadSize, SleepToken);
    LogSnoc(t, Waited(ms), ReceiveBufferSize, SleepToken);
    LogSnoc(t + [Waited(ms)], e, ReceiveBufferSize, SleepToken);
    if WritesOnly(t, {WakeToken}) {
      WritesOnlyAppend(t, [Waited(ms), e], {WakeToken});
    }
    forall i | 0 <= i < |t + [Waited(ms), e]| && (t + [Waited(ms), e])[i].Read?
      ensures (t + [Waited(ms), e])[i] == if i < |t| then t[i] else e
    {
    }
  }

  /** The sleep token written after a failed read. */
  lemma SleepFacts(t: seq<Event>, s: Event)
    requires s.Wrote? && s.bytes == SleepToken && WritesOnly(t, {WakeToken})
    ensures CountReads(t + [s], WakeReadSize) == CountReads(t, WakeReadSize)
    ensures CountReads(t + [s], ReceiveBufferSize) == CountReads(t, ReceiveBufferSize)
    ensures CountWrites(t + [s], SleepToken) == CountWrites(t, SleepToken) + 1
    ensures LastRead(t + [s]) == LastRead(t)
    ensures WritesOnly(t + [s], {WakeToken, SleepToken})
    ensures NoSentinel(t) ==> NoSentinel(t + [s])
  {
    LogSnoc(t, s, WakeReadSize, SleepToken);
    LogSnoc(t, s, ReceiveBufferSize, SleepToken);
    WritesOnlyAppend(t, [s], {WakeToken, SleepToken});
    forall i | 0 <= i < |t + [s]| && (t + [s])[i].Read?
      ensures i < |t| && (t + [s])[i] == t[i]
    {
    }
  }

  /** The wake token alone. */
  lemma TokenFacts(e: Event)
    requires IsWrite(e, GeneralCall, WakeToken)
    ensures CountReads([e], WakeReadSize) == 0 && CountReads([e], ReceiveBufferSize) == 0
    ensures WritesOnly([e], {WakeToken}) && NoSentinel([e]) && NoReadFailure([e])
  {
    assert [] + [e] == [e];
    LogSnoc([], e, WakeReadSize, SleepToken);
    LogSnoc([], e, ReceiveBufferSize, SleepToken);
  }

  /** One pass of the wakeAsync loop up to the checks: 3 ms, then a read. */
  method Attempt(bus: Bus) returns (data: Result<seq<Byte>, BusError>, ghost e: Event)
    modifies bus
    ensures e == Read(bus.device, WakeReadSize, old(bus.NextRead()))
    ensures bus.log == old(bus.log) + [Waited(WakeDelayMs), e]
    ensures data == ReadResult(e.got, WakeReadSize)
    ensures bus.readScript == (if old(bus.readScript) == [] then [] else old(bus.readScript)[1..])
    ensures bus.writeScript == old(bus.writeScript)
  {
    bus.Delay(WakeDelayMs);
    e := Read(bus.device, WakeReadSize, bus.NextRead());
    data := bus.ReadDevice(WakeReadSize);
  }

  /** The reaction to a read error other than a NACK: put the device to
      sleep and reject with the sleep's error, or else the read's. */
  method GiveUp(bus: Bus, error: BusError, ghost t0: seq<Event>) returns (r: Result<(), ExecError>, ghost t: seq<Event>)
    requires error.Other? && t0 != [] && LastRead(t0).Some? && LastRead(t0).value.got == Failure(error.code)
    requires WritesOnly(t0, {WakeToken}) && NoSentinel(t0)
    modifies bus
    ensures t == t0 + [Wrote(bus.device, SleepToken, old(bus.NextWrite()))]
    ensures bus.log == old(bus.log) + [t[|t| - 1]]
    ensures CountReads(t, WakeReadSize) == CountReads(t0, WakeReadSize)
    ensures CountReads(t, ReceiveBufferSize) == CountReads(t0, ReceiveBufferSize)
    ensures WritesOnly(t, {WakeToken, SleepToken}) && NoSentinel(t)
    ensures IsWrite(t[|t| - 1], bus.device, SleepToken) && CountWrites(t, SleepToken) == 1
    ensures LastRead(t) == LastRead(t0)
    ensures r.Err? && r.error.BusFailed?
    ensures r.error.error == if t[|t| - 1].wrote.Done? then error else WriteResult(t[|t| - 1].wrote).error
    ensures bus.readScript == old(bus.readScript)
    ensures old(bus.writeScript) == [] ==> bus.writeScript == []
  {
    WritesOnlyCount(t0, {WakeToken}, SleepToken);
    ghost var s := Wrote(bus.device, SleepToken, bus.NextWrite());
    var slept := Sleep(bus);
    SleepFacts(t0, s);
    t := t0 + [s];
    r := Err(BusFailed(if slept.Err? then slept.error else error));
  }

  /** wakeAsync. The wake token goes to address 0 and its outcome is never
      looked at. Then up to 1001 times: wait 3 ms and read 4 bytes; the wake
      sentinel ends the wake, a NACK or other data tries again, any other
      read error puts the device to sleep and rejects. `t` is the log of the
      call.  */
  method Wake(bus: Bus) returns (r: Result<(), ExecError>, ghost t: seq<Event>)
    modifies bus
    ensures bus.log == old(bus.log) + t
    ensures |t| >= 1 && IsWrite(t[0], GeneralCall, WakeToken)
    ensures CountReads(t, WakeReadSize) <= WakeRetries + 1 && CountReads(t, ReceiveBufferSize) == 0
    ensures WritesOnly(t, {WakeToken, SleepToken})
    ensures r.Ok? ==>
              && IsRead(t[|t| - 1], bus.device, WakeReadSize)
              && ReadResult(t[|t| - 1].got, WakeReadSize) == Ok(WakeSentinel)
              && CountWrites(t, SleepToken) == 0
    ensures r.Err? ==> NoSentinel(t) && (r.error == WakeTimeout || r.error.BusFailed?)
    ensures r == Err(WakeTimeout) ==>
              CountReads(t, WakeReadSize) == WakeRetries + 1 && NoReadFailure(t) && CountWrites(t, SleepToken) == 0
    ensures r.Err? && r.error.BusFailed? ==>
              && IsWrite(t[|t| - 1], bus.device, SleepToken)
              && CountWrites(t, SleepToken) == 1
              && LastRead(t).Some? && LastRead(t).value.got.Failure?
              && r.error.error == if t[|t| - 1].wrote.Done? then Other(LastRead(t).value.got.code)
                                  else WriteResult(t[|t| - 1].wrote).error
    ensures old(bus.NextRead()) == Data(WakeSentinel) ==>
              r.Ok? && CountReads(t, WakeReadSize) == 1 && bus.readScript == old(bus.readScript)[1..]
    ensures old(bus.writeScript) == [] ==> bus.writeScript == []
  {
    ghost var log0 := bus.log;
    var ignored := bus.Write(GeneralCall, WakeToken);
    t := [bus.log[|bus.log| - 1]];
    TokenFacts(t[0]);
    var maxDelayCount := WakeRetries;
    ghost var n := 0;
    while true
      invariant bus.log == log0 + t
      invariant |t| >= 1 && IsWrite(t[0], GeneralCall, WakeToken)
      invariant n + maxDelayCount == WakeRetries
      invariant CountReads(t, WakeReadSize) == n && CountReads(t, ReceiveBufferSize) == 0
      invariant WritesOnly(t, {WakeToken})
      invariant NoSentinel(t) && NoReadFailure(t)
      invariant n == 0 ==> bus.readScript == old(bus.readScript)
      invariant n > 0 ==> old(bus.NextRead()) != Data(WakeSentinel)
      invariant old(bus.writeScript) == [] ==> bus.writeScript == []
      decreases maxDelayCount
    {
      var data;
      ghost var e;
      ghost var before := bus.log;
      data, e := Attempt(bus);
      LogExtends(log0, t, before, [Waited(WakeDelayMs), e]);
      AttemptFacts(t, WakeDelayMs, e);
      t := t + [Waited(WakeDelayMs), e];
      n := n + 1;

      if data.Ok? && data.value == WakeSentinel {
        WritesOnlyCount(t, {WakeToken}, SleepToken);
        r := Ok(());
        return;
      }
      if data.Err? && data.error != Enxio {
        ghost var t0, before := t, bus.log;
        r, t := GiveUp(bus, data.error, t);
        LogExtends(log0, t0, before, [t[|t| - 1]]);
        return;
      }
      // } while (maxDelayCount-- > 0)
      if maxDelayCount == 0 {
        break;
      }
      maxDelayCount := maxDelayCount - 1;
    }
    WritesOnlyCount(t, {WakeToken}, SleepToken);
    r := Err(WakeTimeout);
  }

  /** `data || Buffer.alloc(0)` */
  function Payload(data: Option<seq<Byte>>): (d: seq<Byte>)
    ensures data.Some? ==> d == data.value
    ensures data.None? ==> d == []
  {
    if data.Some? then data.value else []
  }

  /** execAsync. A missing data field is taken as no data. The wake's log is
      `tw`; when the wake succeeded (`woke`) the command's own events follow,
      shaped by how the frame write went (`sent`), how many polls were NACKed
      (`k`), the final read if any (`tail`) and how the idle write went
      (`idle`). */
  method Exec(bus: Bus, txsize: nat, opcode: Byte, param1: nat, param2: nat, data: Option<seq<Byte>>)
    returns (r: Result<seq<Byte>, ExecError>, ghost tw: seq<Event>, ghost woke: bool,
             ghost sent: WriteOutcome, ghost k: nat, ghost tail: seq<Event>, ghost idle: WriteOutcome)
    modifies bus
    ensures bus.log == old(bus.log) + tw +
              (if woke then CommandEvents(bus.device, Encode(Packet(txsize, opcode, param1, param2, Payload(data), 0)),
                                          sent, k, tail, idle)
               else [])
    ensures |tw| >= 1 && IsWrite(tw[0], GeneralCall, WakeToken)
    ensures WritesOnly(tw, {WakeToken, SleepToken}) && CountReads(tw, ReceiveBufferSize) == 0
    ensures CountReads(tw, WakeReadSize) <= WakeRetries + 1
    ensures woke <==> !NoSentinel(tw)
    ensures !woke ==> r.Err? && (r.error == WakeTimeout || r.error.BusFailed?)
    ensures woke ==>
              && IsRead(tw[|tw| - 1], bus.device, WakeReadSize)
              && ReadResult(tw[|tw| - 1].got, WakeReadSize) == Ok(WakeSentinel)
    ensures woke && sent.Done? ==>
              && k <= MaxDelayCount + 1
              && (tail == [] <==> k == MaxDelayCount + 1)
              && (tail == [] || (|tail| == 1 && IsRead(tail[0], bus.device, ReceiveBufferSize) && !tail[0].got.Nack?))
    ensures woke ==> r == CommandResult(sent, tail, WriteResult(idle))
    ensures && |old(bus.readScript)| >= 2 && old(bus.readScript)[0] == Data(WakeSentinel)
            && old(bus.readScript)[1].Data? && old(bus.writeScript) == [] ==>
              && woke && sent.Done? && idle.Done?
              && tail == [Read(bus.device, ReceiveBufferSize, old(bus.readScript)[1])]
  {
    var frame := Encode(Packet(txsize, opcode, param1, param2, Payload(data), 0));
    var wr;
    wr, tw := Wake(bus);
    woke := wr.Ok?;
    if wr.Err? {
      r := Err(wr.error);
      sent, k, tail, idle := Done, 0, [], Done;
      assert bus.log == old(bus.log) + tw + [];
      return;
    }
    r, sent, k, tail, idle := Transact(bus, frame, true);
  }

  /** A device that wakes at once and answers with a well-formed response
      packet makes execAsync return exactly the packet's body. */
  method ExecReturnsResponse(body: seq<Byte>, txsize: nat, opcode: Byte, param1: nat, param2: nat)
    returns (r: Result<seq<Byte>, ExecError>)
    requires 1 <= |body| && |body| + 3 <= ReceiveBufferSize
    ensures r == Ok(body)
  {
    var bus := new Bus(0xC0 / 2, [Data(WakeSentinel), Data(Encapsulate(body))], [], 0);
    ghost var tw, woke, sent, k, tail, idle;
    r, tw, woke, sent, k, tail, idle := Exec(bus, txsize, opcode, param1, param2, None);
    assert Encapsulate(body) + [] == Encapsulate(body);
    CommandReturnsBody(bus.device, body, []);
  }
}
