/**
 * The I2C bus as the executors see it. What the bus answers is an oracle:
 * a script of read outcomes and a script of write outcomes, consumed in
 * order. Every transfer and every delay is recorded in a ghost log, and a
 * clock (the value Date and setTimeout observe) never runs backwards.
 */
module I2c {
  import opened Base

  /** What one read transfer yields: bytes, a NACK (ENXIO) or another error. */
  datatype ReadOutcome = Data(bytes: seq<Byte>) | Nack | Failure(code: nat)
  datatype WriteOutcome = Done | WriteNack | WriteFailure(code: nat)

  /** The error a failed transfer rejects with; only ENXIO is told apart. */
  datatype BusError = Enxio | Other(code: nat)

  datatype Event =
    | Wrote(addr: nat, bytes: seq<Byte>, wrote: WriteOutcome)
    | Read(addr: nat, len: nat, got: ReadOutcome)
    | Waited(ms: nat)

  predicate IsWrite(e: Event, addr: nat, bytes: seq<Byte>)
  {
    e.Wrote? && e.addr == addr && e.bytes == bytes
  }

  predicate IsRead(e: Event, addr: nat, len: nat)
  {
    e.Read? && e.addr == addr && e.len == len
  }

  /** Bus address 0: the wake token goes to this address. */
  const GeneralCall: nat := 0x00

  /** The receive buffer is Buffer.alloc(len), filled by what the device sent. */
  function Fit(bytes: seq<Byte>, len: nat): (b: seq<Byte>)
    ensures |b| == len
    ensures |bytes| >= len ==> b == bytes[..len]
  {
    if |bytes| >= len then bytes[..len] else bytes + Zeros(len - |bytes|)
  }

  /** Fitting a longer reply keeps its head: what lies after it is fitted
      into what remains of the buffer. */
  lemma FitAppend(a: seq<Byte>, b: seq<Byte>, len: nat)
    requires |a| <= len
    ensures Fit(a + b, len) == a + Fit(b, len - |a|)
  {
    if |a + b| >= len {
      assert (a + b)[..len] == a + b[..len - |a|];
    } else {
      assert a + b + Zeros(len - |a + b|) == a + (b + Zeros(len - |a| - |b|));
    }
  }

  function ReadResult(o: ReadOutcome, len: nat): (r: Result<seq<Byte>, BusError>)
    ensures r.Ok? <==> o.Data?
    ensures r.Ok? ==> |r.value| == len
    ensures r == Err(Enxio) <==> o.Nack?
  {
    match o
    case Data(b) => Ok(Fit(b, len))
    case Nack => Err(Enxio)
    case Failure(c) => Err(Other(c))
  }

  function WriteResult(o: WriteOutcome): (r: Result<(), BusError>)
    ensures r.Ok? <==> o.Done?
    ensures r == Err(Enxio) <==> o.WriteNack?
  {
    match o
    case Done => Ok(())
    case WriteNack => Err(Enxio)
    case WriteFailure(c) => Err(Other(c))
  }

  /** Number of read transfers of len bytes in a log. */
  function CountReads(t: seq<Event>, len: nat): nat
  {
    if t == [] then 0
    else CountReads(t[..|t| - 1], len) + (if t[|t| - 1].Read? && t[|t| - 1].len == len then 1 else 0)
  }

  /** Number of write transfers of exactly these bytes in a log. */
  function CountWrites(t: seq<Event>, bytes: seq<Byte>): nat
  {
    if t == [] then 0
    else CountWrites(t[..|t| - 1], bytes) + (if t[|t| - 1].Wrote? && t[|t| - 1].bytes == bytes then 1 else 0)
  }

  /** The last read transfer of a log, if any. */
  function LastRead(t: seq<Event>): (e: Option<Event>)
    ensures e.Some? ==> e.value.Read? && e.value in t
  {
    if t == [] then None
    else if t[|t| - 1].Read? then Some(t[|t| - 1])
    else LastRead(t[..|t| - 1])
  }

  /** Every write transfer of the log carries one of the given byte strings. */
  predicate WritesOnly(t: seq<Event>, allowed: set<seq<Byte>>)
  {
    forall i :: 0 <= i < |t| && t[i].Wrote? ==> t[i].bytes in allowed
  }

  /** A log that extends log0 by t, extended by step, extends log0 by
      t + step. */
  lemma LogExtends(log0: seq<Event>, t: seq<Event>, log: seq<Event>, step: seq<Event>)
    requires log == log0 + t
    ensures log + step == log0 + (t + step)
  {
  }

  lemma LogSnoc(t: seq<Event>, e: Event, len: nat, bytes: seq<Byte>)
    ensures CountReads(t + [e], len) == CountReads(t, len) + (if e.Read? && e.len == len then 1 else 0)
    ensures CountWrites(t + [e], bytes) == CountWrites(t, bytes) + (if e.Wrote? && e.bytes == bytes then 1 else 0)
    ensures LastRead(t + [e]) == if e.Read? then Some(e) else LastRead(t)
  {
    assert (t + [e])[..|t + [e]| - 1] == t;
  }

  lemma {:induction false} LogAppend(a: seq<Event>, b: seq<Event>, len: nat, bytes: seq<Byte>)
    ensures CountReads(a + b, len) == CountReads(a, len) + CountReads(b, len)
    ensures CountWrites(a + b, bytes) == CountWrites(a, bytes) + CountWrites(b, bytes)
    ensures LastRead(a + b) == if LastRead(b).Some? then LastRead(b) else LastRead(a)
    decreases |b|
  {
    if b == [] {
      assert a + b == a;
    } else {
      var b' := b[..|b| - 1];
      var e := b[|b| - 1];
      assert b == b' + [e];
      assert a + b == (a + b') + [e];
      LogAppend(a, b', len, bytes);
      LogSnoc(a + b', e, len, bytes);
      LogSnoc(b', e, len, bytes);
    }
  }

  lemma WritesOnlyAppend(a: seq<Event>, b: seq<Event>, allowed: set<seq<Byte>>)
    requires WritesOnly(a, allowed) && WritesOnly(b, allowed)
    ensures WritesOnly(a + b, allowed)
  {
    forall i | 0 <= i < |a + b| && (a + b)[i].Wrote?
      ensures (a + b)[i].bytes in allowed
    {
      if i >= |a| {
        assert (a + b)[i] == b[i - |a|];
      }
    }
  }

  /** A string no write of the log carries is written zero times. */
  lemma {:induction false} WritesOnlyCount(t: seq<Event>, allowed: set<seq<Byte>>, bytes: seq<Byte>)
    requires WritesOnly(t, allowed) && bytes !in allowed
    ensures CountWrites(t, bytes) == 0
    decreases |t|
  {
    if t != [] {
      WritesOnlyCount(t[..|t| - 1], allowed, bytes);
    }
  }

  class Bus {
    /** The device's 7-bit bus address (the 8-bit address shifted right). */
    const device: nat
    /** Outcomes still to come; when a script runs out, reads are NACKed
        and writes succeed. */
    var readScript: seq<ReadOutcome>
    var writeScript: seq<WriteOutcome>
    /** Milliseconds, as Date.getTime() reads them. */
    var now: nat
    ghost var log: seq<Event>

    constructor (device: nat, readScript: seq<ReadOutcome>, writeScript: seq<WriteOutcome>, now: nat)
      ensures this.device == device && this.readScript == readScript && this.writeScript == writeScript
      ensures this.now == now && log == []
    {
      this.device := device;
      this.readScript := readScript;
      this.writeScript := writeScript;
      this.now := now;
      log := [];
    }

    function NextRead(): ReadOutcome
      reads this
    {
      if readScript == [] then Nack else readScript[0]
    }

    function NextWrite(): WriteOutcome
      reads this
    {
      if writeScript == [] then Done else writeScript[0]
    }

    /** Reads len bytes from the device. */
    method ReadDevice(len: nat) returns (r: Result<seq<Byte>, BusError>)
      modifies this
      ensures r == ReadResult(old(NextRead()), len)
      ensures log == old(log) + [Read(device, len, old(NextRead()))]
      ensures readScript == (if old(readScript) == [] then [] else old(readScript)[1..])
      ensures writeScript == old(writeScript) && now >= old(now)
    {
      var o := NextRead();
      r := ReadResult(o, len);
      if readScript != [] {
        readScript := readScript[1..];
      }
      log := log + [Read(device, len, o)];
    }

    /** Writes bytes to the bus address addr. */
    method Write(addr: nat, bytes: seq<Byte>) returns (r: Result<(), BusError>)
      modifies this
      ensures r == WriteResult(old(NextWrite()))
      ensures log == old(log) + [Wrote(addr, bytes, old(NextWrite()))]
      ensures writeScript == (if old(writeScript) == [] then [] else old(writeScript)[1..])
      ensures readScript == old(readScript) && now >= old(now)
    {
      var o := NextWrite();
      r := WriteResult(o);
      if writeScript != [] {
        writeScript := writeScript[1..];
      }
      log := log + [Wrote(addr, bytes, o)];
    }

    /** Promise.delay / setTimeout: waits at least ms milliseconds. */
    method Delay(ms: nat)
      modifies this
      ensures now >= old(now) + ms
      ensures log == old(log) + [Waited(ms)]
      ensures readScript == old(readScript) && writeScript == old(writeScript)
    {
      now := now + ms;
      log := log + [Waited(ms)];
    }
  }
}
