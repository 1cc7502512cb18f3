/**
 * The bus helpers of src/commands/exec.js: wake with a single check of the
 * wake sentinel, idle confirmed by the device going silent, a sleep that
 * tolerates every error, and sleepWakeAsync, which alternates sleep and
 * wake until the device answers or 2 seconds have passed. The scenarios
 * of test/exec.js close the module. The file calls i2cReadAsync and
 * i2cWriteAsync without defining or importing them; here they are a read
 * and a write of the bus device, as lib/commands/exec.js defines them.
 */
module SrcExec {
  import opened Base
  import opened I2c
  import opened Frame
  import opened Polling

  /** tWLO + tWHI stay below 2 ms; the code waits 4 ms. */
  const WakeDelayMs: nat := 4
  const SleepDelayMs: nat := 4
  const WakeReadSize: nat := 4
  /** sleepWakeAsync gives up once more than this many ms have passed. */
  const SleepWakeLimitMs: nat := 2000
  /** Each round waits twice 4 ms, so at most 2000 / 8 + 1 rounds run. */
  const RoundMs: nat := SleepDelayMs + WakeDelayMs
  const MaxRounds: nat := SleepWakeLimitMs / RoundMs + 1

  /** The events of one wake: the token, the delay and the read. */
  function WakeEvents(dev: nat, token: WriteOutcome, got: ReadOutcome): seq<Event>
  {
    [Wrote(GeneralCall, WakeToken, token), Waited(WakeDelayMs), Read(dev, WakeReadSize, got)]
  }

  /** wakeAysnc. The token's outcome is ignored; a failed read rejects with
      its error; any answer but the wake sentinel is 'bad response in
      wake'. */
  method Wake(bus: Bus) returns (r: Result<(), ExecError>)
    modifies bus
    ensures bus.log == old(bus.log) + WakeEvents(bus.device, old(bus.NextWrite()), old(bus.NextRead()))
    ensures r.Ok? <==> ReadResult(old(bus.NextRead()), WakeReadSize) == Ok(WakeSentinel)
    ensures r.Err? ==>
              r.error == if old(bus.NextRead()).Data? then BadWakeResponse
                         else BusFailed(ReadResult(old(bus.NextRead()), WakeReadSize).error)
    ensures bus.now >= old(bus.now) + WakeDelayMs
    ensures bus.readScript == (if old(bus.readScript) == [] then [] else old(bus.readScript)[1..])
    ensures bus.writeScript == (if old(bus.writeScript) == [] then [] else old(bus.writeScript)[1..])
  {
    var ignored := bus.Write(GeneralCall, WakeToken);
    bus.Delay(WakeDelayMs);
    var rsp := bus.ReadDevice(WakeReadSize);
    if rsp.Err? {
      r := Err(BusFailed(rsp.error));
    } else if rsp.value != WakeSentinel {
      r := Err(BadWakeResponse);
    } else {
      r := Ok(());
    }
  }

  /** idleAsync. A failed idle write rejects; after it the device must not
      answer: a NACK confirms the idle, any data is 'idle failed' and any
      other read error rejects. */
  method Idle(bus: Bus) returns (r: Result<(), ExecError>)
    modifies bus
    ensures old(bus.NextWrite()).Done? ==>
              bus.log == old(bus.log) + [Wrote(bus.device, IdleToken, Done), Read(bus.device, WakeReadSize, old(bus.NextRead()))]
    ensures !old(bus.NextWrite()).Done? ==>
              bus.log == old(bus.log) + [Wrote(bus.device, IdleToken, old(bus.NextWrite()))]
    ensures r.Ok? <==> old(bus.NextWrite()).Done? && old(bus.NextRead()).Nack?
    ensures !old(bus.NextWrite()).Done? ==> r == Err(BusFailed(WriteResult(old(bus.NextWrite())).error))
    ensures old(bus.NextWrite()).Done? && old(bus.NextRead()).Data? ==> r == Err(IdleFailed)
    ensures old(bus.NextWrite()).Done? && old(bus.NextRead()).Failure? ==>
              r == Err(BusFailed(Other(old(bus.NextRead()).code)))
  {
    var w := bus.Write(bus.device, IdleToken);
    if w.Err? {
      r := Err(BusFailed(w.error));
      return;
    }
    var rsp := bus.ReadDevice(WakeReadSize);
    if rsp.Err? {
      r := if rsp.error == Enxio then Ok(()) else Err(BusFailed(rsp.error));
    } else {
      r := Err(IdleFailed);
    }
  }

  /** sleepAsync: the sleep token; every error is swallowed. */
  method Sleep(bus: Bus)
    modifies bus
    ensures bus.log == old(bus.log) + [Wrote(bus.device, SleepToken, old(bus.NextWrite()))]
    ensures bus.readScript == old(bus.readScript)
    ensures bus.writeScript == (if old(bus.writeScript) == [] then [] else old(bus.writeScript)[1..])
    ensures bus.now >= old(bus.now)
  {
    var ignored := bus.Write(bus.device, SleepToken);
  }

  /** One round of sleepWakeAsync: the sleep token, 4 ms, and a wake. */
  function Round(dev: nat, slept: WriteOutcome, token: WriteOutcome, got: ReadOutcome): seq<Event>
  {
    [Wrote(dev, SleepToken, slept), Waited(SleepDelayMs)] + WakeEvents(dev, token, got)
  }

  lemma RoundFacts(t: seq<Event>, round: seq<Event>)
    requires |round| == 5 && round[0].Wrote? && round[2].Wrote? && round[4].Read?
    requires round == Round(round[4].addr, round[0].wrote, round[2].wrote, round[4].got)
    ensures CountReads(t + round, WakeReadSize) == CountReads(t, WakeReadSize) + 1
    ensures CountReads(t + round, ReceiveBufferSize) == CountReads(t, ReceiveBufferSize)
    ensures LastRead(t + round) == Some(round[4])
    ensures WritesOnly(t, {SleepToken, WakeToken}) ==> WritesOnly(t + round, {SleepToken, WakeToken})
  {
    var e0, e1, e2, e3, e4 := round[0], round[1], round[2], round[3], round[4];
    assert t + round == t + [e0] + [e1] + [e2] + [e3] + [e4];
    LogSnoc(t, e0, WakeReadSize, []);
    LogSnoc(t + [e0], e1, WakeReadSize, []);
    LogSnoc(t + [e0] + [e1], e2, WakeReadSize, []);
    LogSnoc(t + [e0] + [e1] + [e2], e3, WakeReadSize, []);
    LogSnoc(t + [e0] + [e1] + [e2] + [e3], e4, WakeReadSize, []);
    LogSnoc(t, e0, ReceiveBufferSize, []);
    LogSnoc(t + [e0], e1, ReceiveBufferSize, []);
    LogSnoc(t + [e0] + [e1], e2, ReceiveBufferSize, []);
    LogSnoc(t + [e0] + [e1] + [e2], e3, ReceiveBufferSize, []);
    LogSnoc(t + [e0] + [e1] + [e2] + [e3], e4, ReceiveBufferSize, []);
    if WritesOnly(t, {SleepToken, WakeToken}) {
      WritesOnlyAppend(t, round, {SleepToken, WakeToken});
    }
  }

  /** The body of the sleepWakeAsync loop up to the clock check. */
  method SleepThenWake(bus: Bus) returns (r: Result<(), ExecError>, ghost round: seq<Event>)
    modifies bus
    ensures bus.log == old(bus.log) + round
    ensures |round| == 5 && round[0].Wrote? && round[2].Wrote? && round[4].Read?
    ensures round == Round(bus.device, old(bus.NextWrite()), round[2].wrote, old(bus.NextRead()))
    ensures round[4].addr == bus.device
    ensures r.Ok? <==> ReadResult(old(bus.NextRead()), WakeReadSize) == Ok(WakeSentinel)
    ensures bus.now >= old(bus.now) + RoundMs
    ensures bus.readScript == (if old(bus.readScript) == [] then [] else old(bus.readScript)[1..])
    ensures old(bus.writeScript) == [] ==> bus.writeScript == []
  {
    ghost var slept := bus.NextWrite();
    Sleep(bus);
    bus.Delay(SleepDelayMs);
    ghost var token, got := bus.NextWrite(), bus.NextRead();
    r := Wake(bus);
    round := Round(bus.device, slept, token, got);
  }

  /** sleepWakeAsync. Each round sends the sleep token (errors ignored),
      waits 4 ms and wakes; a successful wake ends the call, any failed one
      is ignored unless more than 2000 ms have passed since the start, which
      rejects with ETIMEOUT. `t` is the log, `n` the number of rounds. */
  method SleepWake(bus: Bus) returns (r: Result<(), ExecError>, ghost t: seq<Event>, ghost n: nat)
    modifies bus
    ensures bus.log == old(bus.log) + t
    ensures 1 <= n <= MaxRounds
    ensures CountReads(t, WakeReadSize) == n && CountReads(t, ReceiveBufferSize) == 0
    ensures WritesOnly(t, {SleepToken, WakeToken})
    ensures bus.now >= old(bus.now) + RoundMs * n
    ensures r.Ok? ==>
              && LastRead(t).Some? && IsRead(LastRead(t).value, bus.device, WakeReadSize)
              && ReadResult(LastRead(t).value.got, WakeReadSize) == Ok(WakeSentinel)
    ensures r.Err? ==> r.error == Timeout && bus.now > old(bus.now) + SleepWakeLimitMs
    ensures ReadResult(old(bus.NextRead()), WakeReadSize) == Ok(WakeSentinel) ==>
              r.Ok? && n == 1 && bus.readScript == (if old(bus.readScript) == [] then [] else old(bus.readScript)[1..])
    ensures old(bus.writeScript) == [] ==> bus.writeScript == []
  {
    var start := bus.now;
    ghost var log0 := bus.log;
    t, n := [], 0;
    while true
      invariant bus.log == log0 + t
      invariant start <= bus.now <= start + SleepWakeLimitMs
      invariant bus.now >= start + RoundMs * n
      invariant CountReads(t, WakeReadSize) == n
      invariant CountReads(t, ReceiveBufferSize) == 0
      invariant WritesOnly(t, {SleepToken, WakeToken})
      invariant n == 0 ==> bus.readScript == old(bus.readScript) && t == []
      invariant n > 0 ==> ReadResult(old(bus.NextRead()), WakeReadSize) != Ok(WakeSentinel)
      invariant old(bus.writeScript) == [] ==> bus.writeScript == []
      decreases start + SleepWakeLimitMs - bus.now
    {
      var woke;
      ghost var round;
      ghost var before := bus.log;
      woke, round := SleepThenWake(bus);
      LogExtends(log0, t, before, round);
      RoundFacts(t, round);
      t := t + round;
      n := n + 1;
      if woke.Ok? {
        r := Ok(());
        return;
      }
      var end := bus.now;
      if end - start > SleepWakeLimitMs {
        r := Err(Timeout);
        return;
      }
    }
  }

  // ---- test/exec.js ----

  /** 'sleep-wake, sleep-wake, idle' against a device that answers every
      wake and then goes silent: both wakes and the idle succeed. */
  method SleepWakeTwiceThenIdle() returns (first: Result<(), ExecError>, second: Result<(), ExecError>,
                                           idle: Result<(), ExecError>)
    ensures first.Ok? && second.Ok? && idle.Ok?
  {
    SentinelRead([]);
    assert WakeSentinel + [] == WakeSentinel;
    var bus := new Bus(0xC0 / 2, [Data(WakeSentinel), Data(WakeSentinel)], [], 0);
    ghost var t, n;
    first, t, n := SleepWake(bus);
    second, t, n := SleepWake(bus);
    idle := Idle(bus);
  }

  /** 'sleep-wake, sleep' against a device that answers the first wake:
      the wake succeeds in one round and the sleep that follows cannot
      fail. */
  method SleepWakeThenSleep() returns (woke: Result<(), ExecError>, ghost rounds: nat)
    ensures woke.Ok? && rounds == 1
  {
    SentinelRead([]);
    assert WakeSentinel + [] == WakeSentinel;
    var bus := new Bus(0xC0 / 2, [Data(WakeSentinel)], [], 0);
    ghost var t;
    woke, t, rounds := SleepWake(bus);
    Sleep(bus);
  }
}
