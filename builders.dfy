/**
 * The packets the zone, lock and key-generation commands hand to an
 * executor: lib/ecc.js (atcabReadZoneAsync, atcabWriteAsync,
 * atcabWriteZoneAsync, the lock family, atcabGenKeyBaseAsync),
 * lib/commands/write.js (atWriteAsync, writeZoneAsync) and
 * src/commands/commands.js (readZoneAsync).
 */
module Builders {
  import opened Base
  import opened Frame
  import opened Zone
  import opened AtcaCommand

  /** Buffer.slice(0, n). */
  function Take(s: seq<Byte>, n: nat): (r: seq<Byte>)
    ensures |r| == if |s| < n then |s| else n
    ensures r == s[..|r|]
  {
    if |s| < n then s else s[..n]
  }

  /** Bit 7 of a byte is set exactly when the byte is at least 0x80. */
  lemma Bit7(b: Byte)
    ensures TestBit(b, 7) <==> b >= 0x80
  {
    assert Pow2(7) == 0x80 by { assert Pow2(4) == 16; }
  }

  /** zone | ATCA_ZONE_READWRITE_32 */
  function With32Flag(zone: Byte): (z: Byte)
    ensures z == if TestBit(zone, 7) then zone else zone + 0x80
    ensures TestBit(z, 7) && z % 0x80 == zone % 0x80
  {
    Bit7(zone);
    Or80(zone);
    Bit7(OrByte(zone, 0x80));
    OrByte(zone, 0x80)
  }

  lemma Or80(b: Byte)
    ensures OrByte(b, 0x80) == if b >= 0x80 then b else b + 0x80
  {
    Bit7(b);
    BitOrPow2(b, 7);
  }

  // ---- Read ----

  /** atcabReadZoneAsync (lib/ecc.js): the length must be 4 or 32; a 32-byte
      read sets zone bit 7, which also selects the 35-byte response. */
  function AtcabReadZone(zone: Byte, slot: Byte, block: Byte, offset: Byte, len: nat): (r: Result<Packet, ParamError>)
    ensures r.Err? <==> (len != 4 && len != 32) || zone % 4 == ZoneMask
    ensures r.Err? ==> r.error == BadParam
    ensures r.Ok? ==>
      var p := r.value;
      && p.opcode == OpRead && p.data == [] && p.txsize == 7 + |p.data|
      && p.param1 == (if len == 32 then With32Flag(zone) else zone)
      && p.param2 == Address(zone % 4, slot, block, offset)
      && p.rxsize == ReadRspSize(p.param1)
  {
    if len != 4 && len != BlockSize then Err(BadParam)
    else
      var addr :- AtcabGetAddr(zone, slot, block, offset);
      var z := if len == BlockSize then With32Flag(zone) else zone;
      Ok(Packet(ReadCount, OpRead, z, addr, [],
                if TestBit(z, 7) then Read32RspSize else Read4RspSize))
  }

  /** A read asks for exactly the number of bytes its length names, unless
      the caller already set bit 7 on a 4-byte read. */
  lemma ReadZoneResponseSize(zone: Byte, slot: Byte, block: Byte, offset: Byte, len: nat)
    requires AtcabReadZone(zone, slot, block, offset, len).Ok?
    requires !TestBit(zone, 7)
    ensures AtcabReadZone(zone, slot, block, offset, len).value.rxsize == len + PacketOverhead
  {
  }

  /** atRead (lib/atca_command.js) applied to the packet atcabReadZoneAsync
      builds changes nothing: the call left commented out there is
      redundant. */
  lemma AtReadAgreesWithReadZone(zone: Byte, slot: Byte, block: Byte, offset: Byte, len: nat)
    requires AtcabReadZone(zone, slot, block, offset, len).Ok?
    ensures var p := AtcabReadZone(zone, slot, block, offset, len).value;
            p.opcode == OpRead && p.txsize == ReadCount && p.rxsize == ReadRspSize(p.param1)
  {
  }

  /** readZoneAsync (src/commands/commands.js). The source names the
      address field `parma2`, so the executor would see no param2; the
      model passes the address as param2. The length is not checked here;
      the literal has no rxsize and no executor reads one, so it is 0. */
  function ReadZonePacket(zone: Byte, slot: Byte, block: Byte, offset: Byte, len: nat): (r: Result<Packet, ParamError>)
    ensures r.Err? <==> zone % 4 == ZoneMask
    ensures r.Err? ==> r.error == BadZone
    ensures r.Ok? ==>
      var p := r.value;
      && p.txsize == 7 && p.opcode == OpRead && p.data == []
      && (TestBit(p.param1, 7) <==> len == 32 || TestBit(zone, 7))
      && p.param1 % 0x80 == zone % 0x80
      && p.param2 == Address(zone % 4, slot, block, offset)
  {
    Bit7(zone);
    var addr :- GetAddr(zone, slot, block, offset);
    Ok(Packet(7, OpRead, if len == 32 then With32Flag(zone) else zone, addr, [], 0))
  }

  /** For the two valid lengths both read builders describe the same frame. */
  lemma ReadBuildersAgree(zone: Byte, slot: Byte, block: Byte, offset: Byte, len: nat)
    requires len == 4 || len == 32
    ensures AtcabReadZone(zone, slot, block, offset, len).Ok? == ReadZonePacket(zone, slot, block, offset, len).Ok?
    ensures AtcabReadZone(zone, slot, block, offset, len).Ok? ==>
              Encode(AtcabReadZone(zone, slot, block, offset, len).value) ==
              Encode(ReadZonePacket(zone, slot, block, offset, len).value)
  {
  }

  // ---- Write ----

  /** atcabWriteAsync (lib/ecc.js): with zone bit 7 the payload is the first
      32 data bytes followed by the first 32 mac bytes (when a mac is
      given), otherwise the first 4 data bytes; txsize covers the payload. */
  function AtcabWrite(zone: Byte, addr: nat, data: seq<Byte>, mac: Option<seq<Byte>>): (p: Packet)
    ensures p.opcode == OpWrite && p.param1 == zone && p.param2 == addr
    ensures p.txsize == 7 + |p.data|
    ensures |p.data| <= 64
    ensures TestBit(zone, 7) ==> p.data == Take(data, 32) + (if mac.Some? then Take(mac.value, 32) else [])
    ensures !TestBit(zone, 7) ==> p.data == Take(data, 4)
  {
    var payload :=
      if TestBit(zone, 7) then
        Take(data, 32) + (if mac.Some? then Take(mac.value, 32) else [])
      else Take(data, 4);
    Packet(7 + |payload|, OpWrite, zone, addr, payload, WriteRspSize)
  }

  /** atcabWriteZoneAsync (lib/ecc.js): the length must be 4 or 32 and a
      32-byte write sets zone bit 7. */
  function AtcabWriteZone(zone: Byte, slot: Byte, block: Byte, offset: Byte, data: seq<Byte>): (r: Result<Packet, ParamError>)
    ensures r.Err? <==> (|data| != 4 && |data| != 32) || zone % 4 == ZoneMask
    ensures r.Err? ==> r.error == BadParam
    ensures r.Ok? ==>
      var p := r.value;
      && p.opcode == OpWrite && p.data == data && p.txsize == 7 + |data|
      && p.param1 == (if |data| == 32 then With32Flag(zone) else zone)
      && p.param2 == Address(zone % 4, slot, block, offset)
  {
    if |data| != 4 && |data| != BlockSize then Err(BadParam)
    else
      var addr :- AtcabGetAddr(zone, slot, block, offset);
      var z := if |data| == BlockSize then With32Flag(zone) else zone;
      Ok(AtcabWrite(z, addr, data, None))
  }

  /** atWriteAsync (lib/commands/write.js) as written: txsize counts the
      data argument, not the payload. (The file also never defines
      ATCA_WRITE; the model uses the Write opcode 0x12.) */
  function AtWriteAsWritten(zone: Byte, addr: nat, data: seq<Byte>, mac: seq<Byte>): (p: Packet)
    ensures p.txsize == 7 + |data| && p.opcode == OpWrite && p.param1 == zone && p.param2 == addr
    ensures TestBit(zone, 7) ==> p.data == Take(data, 32) + Take(mac, 32)
    ensures !TestBit(zone, 7) ==> p.data == Take(data, 4)
  {
    Packet(7 + |data|, OpWrite, zone, addr,
           if TestBit(zone, 7) then Take(data, 32) + Take(mac, 32) else Take(data, 4), 0)
  }

  /** With a mac the as-written count disagrees with the frame it heads:
      32 data bytes and a 32-byte mac give txsize 39 over a 64-byte payload. */
  lemma AtWriteMacCountMismatch(addr: nat, data: seq<Byte>, mac: seq<Byte>)
    requires |data| == 32 && |mac| == 32
    ensures AtWriteAsWritten(0x82, addr, data, mac).txsize == 39
    ensures |AtWriteAsWritten(0x82, addr, data, mac).data| == 64
    ensures |Encode(AtWriteAsWritten(0x82, addr, data, mac))| != AtWriteAsWritten(0x82, addr, data, mac).txsize + 1
  {
    assert TestBit(0x82, 7) by { assert Pow2(7) == 128 by { assert Pow2(4) == 16; } }
  }

  /** atWriteAsync as intended: the count covers the payload, as in
      lib/ecc.js. Without a mac, for the 4- and 32-byte writes its callers
      make, it sends the same frame as the code as written. */
  function AtWrite(zone: Byte, addr: nat, data: seq<Byte>, mac: seq<Byte>): (p: Packet)
    ensures p.txsize == 7 + |p.data|
    ensures |Encode(p)| == p.txsize + 1
    ensures p == AtcabWrite(zone, addr, data, if mac == [] then None else Some(mac)).(rxsize := 0)
  {
    var payload := if TestBit(zone, 7) then Take(data, 32) + Take(mac, 32) else Take(data, 4);
    assert mac == [] ==> Take(data, 32) + Take(mac, 32) == Take(data, 32);
    Packet(7 + |payload|, OpWrite, zone, addr, payload, 0)
  }

  lemma AtWriteFixAgreesWithoutMac(zone: Byte, addr: nat, data: seq<Byte>)
    requires |data| == 4 || |data| == 32
    requires |data| == 32 ==> TestBit(zone, 7)
    ensures AtWrite(zone, addr, data, []) == AtWriteAsWritten(zone, addr, data, [])
  {
    assert Take(data, 32) + Take([], 32) == Take(data, 32);
    if |data| == 4 && TestBit(zone, 7) {
      assert Take(data, 32) == data;
    }
  }

  /** writeZoneAsync (lib/commands/write.js): 'bad param' for a length other
      than 4 or 32, then the address from getAddr. */
  function WriteZone(zone: Byte, slot: Byte, block: Byte, offset: Byte, data: seq<Byte>): (r: Result<Packet, ParamError>)
    ensures r.Err? <==> (|data| != 4 && |data| != 32) || zone % 4 == ZoneMask
    ensures r.Err? ==> (r.error == BadParam <==> |data| != 4 && |data| != 32)
    ensures r.Ok? ==>
      var p := r.value;
      && p.opcode == OpWrite && p.data == data && p.txsize == 7 + |data|
      && p.param1 == (if |data| == 32 then With32Flag(zone) else zone)
      && p.param2 == Address(zone % 4, slot, block, offset)
  {
    if |data| != 4 && |data| != 32 then Err(BadParam)
    else
      var addr :- GetAddr(zone, slot, block, offset);
      var z := if |data| == 32 then With32Flag(zone) else zone;
      assert Take(data, 32) + Take([], 32) == Take(data, 32);
      Ok(AtWrite(z, addr, data, []))
  }

  /** The two write-zone copies send the same frame. */
  lemma WriteZoneCopiesAgree(zone: Byte, slot: Byte, block: Byte, offset: Byte, data: seq<Byte>)
    ensures AtcabWriteZone(zone, slot, block, offset, data).Ok? == WriteZone(zone, slot, block, offset, data).Ok?
    ensures WriteZone(zone, slot, block, offset, data).Ok? ==>
              Encode(AtcabWriteZone(zone, slot, block, offset, data).value) ==
              Encode(WriteZone(zone, slot, block, offset, data).value)
  {
  }

  // ---- Lock ----

  const LockZoneConfig: nat := 0x00
  const LockZoneData: nat := 0x01
  const LockZoneDataSlot: nat := 0x02
  const LockZoneNoCrc: nat := 0x80

  /** atcabLockAsync (lib/ecc.js): mode in param1, summary CRC in param2. */
  function Lock(mode: nat, summaryCrc: nat): (p: Packet)
    ensures p.txsize == LockCount == 7 + |p.data| && p.opcode == OpLock
    ensures p.param1 == mode && p.param2 == summaryCrc && p.rxsize == LockRspSize
  {
    Packet(LockCount, OpLock, mode, summaryCrc, [], LockRspSize)
  }

  function LockConfigZone(): (p: Packet)
    ensures p.param1 == 0x80 && p.param2 == 0 && p.opcode == OpLock
  {
    Lock(BitOr(LockZoneNoCrc, LockZoneConfig), 0)
  }

  function LockConfigZoneCrc(summaryCrc: nat): (p: Packet)
    ensures p.param1 == 0x00 && p.param2 == summaryCrc && p.opcode == OpLock
  {
    Lock(LockZoneConfig, summaryCrc)
  }

  function LockDataZone(): (p: Packet)
    ensures p.param1 == 0x81 && p.param2 == 0 && p.opcode == OpLock
  {
    Lock(BitOr(LockZoneNoCrc, LockZoneData), 0)
  }

  function LockDataZoneCrc(summaryCrc: nat): (p: Packet)
    ensures p.param1 == 0x01 && p.param2 == summaryCrc && p.opcode == OpLock
  {
    Lock(LockZoneData, summaryCrc)
  }

  /** atcabLockDataSlot: `slot << 2 | LOCK_ZONE_DATA_SLOT`. */
  function LockDataSlot(slot: nat): (p: Packet)
    ensures p.param1 == 4 * slot + 2 && p.param2 == 0 && p.opcode == OpLock
    ensures p.param1 % 4 == LockZoneDataSlot && p.param1 / 4 == slot
  {
    assert Pow2(2) == 4;
    BitOrDisjoint(slot, LockZoneDataSlot, 2);
    Lock(BitOr(slot * 4, LockZoneDataSlot), 0)
  }

  /** The bit set in bits 0-1 of a lock mode names what gets locked, and
      bit 7 says the summary CRC is ignored. */
  lemma LockModesDistinct(slot: nat)
    ensures LockConfigZone().param1 % 4 == LockZoneConfig && LockDataZone().param1 % 4 == LockZoneData
    ensures LockDataSlot(slot).param1 % 4 == LockZoneDataSlot
    ensures TestBit(LockConfigZone().param1, 7) && TestBit(LockDataZone().param1, 7)
    ensures slot < 32 ==> !TestBit(LockDataSlot(slot).param1, 7)
  {
    assert Pow2(7) == 128 by { assert Pow2(4) == 16; }
  }

  // ---- GenKey ----

  const GenKeyModePrivate: Byte := 0x04
  const GenKeyModePublic: Byte := 0x00
  const GenKeyModePubKeyDigest: Byte := 0x10

  /** atcabGenKeyBaseAsync (lib/ecc.js): other data, when given, must be
      3 bytes; the 10-byte count is chosen by mode bit 4 alone. */
  function GenKeyBase(mode: Byte, keyId: nat, data: Option<seq<Byte>>): (r: Result<Packet, ParamError>)
    ensures r.Err? <==> data.Some? && |data.value| != GenKeyOtherDataSize
    ensures r.Err? ==> r.error == InvalidData
    ensures r.Ok? ==>
      var p := r.value;
      && p.opcode == OpGenKey && p.param1 == mode && p.param2 == keyId
      && p.data == (if data.Some? then data.value else [])
      && (p.txsize == GenKeyCountData <==> TestBit(mode, 4))
      && (p.txsize == GenKeyCount <==> !TestBit(mode, 4))
  {
    if data.Some? && |data.value| != GenKeyOtherDataSize then Err(InvalidData)
    else
      var txsize := if TestBit(mode, 4) then GenKeyCountData else GenKeyCount;
      Ok(Packet(txsize, OpGenKey, mode, keyId, if data.Some? then data.value else [], 0))
  }

  /** The count matches the frame exactly when other data is given in
      digest mode, or omitted otherwise. */
  lemma GenKeyCountMatchesFrame(mode: Byte, keyId: nat, data: Option<seq<Byte>>)
    requires GenKeyBase(mode, keyId, data).Ok?
    ensures var p := GenKeyBase(mode, keyId, data).value;
            p.txsize == 7 + |p.data| <==> (data.Some? <==> TestBit(mode, 4))
  {
  }

  /** atcabGenKeyAsync / atcabGenPubKeyAsync: no other data, 7-byte count. */
  function GenKey(keyId: nat): (p: Packet)
    ensures p.param1 == GenKeyModePrivate && p.param2 == keyId && p.txsize == 7 + |p.data| && p.data == []
  {
    assert !TestBit(GenKeyModePrivate, 4) by { assert Pow2(4) == 16; }
    GenKeyBase(GenKeyModePrivate, keyId, None).value
  }

  function GenPubKey(keyId: nat): (p: Packet)
    ensures p.param1 == GenKeyModePublic && p.param2 == keyId && p.txsize == 7 + |p.data| && p.data == []
  {
    assert !TestBit(GenKeyModePublic, 4);
    GenKeyBase(GenKeyModePublic, keyId, None).value
  }
}
