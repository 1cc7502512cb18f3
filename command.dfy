/**
 * Packet sizes, opcodes and the Read command's packet set-up
 * (lib/atca_command.js, mirrored in the constant block of lib/ecc.js).
 */
module AtcaCommand {
  import opened Base
  import opened Frame

  const OpRead: Byte := 0x02
  const OpWrite: Byte := 0x12
  const OpLock: Byte := 0x17
  const OpGenKey: Byte := 0x40

  /** Count byte through second CRC byte of the shortest command. */
  const CmdSizeMin: nat := 7
  const CountSize: nat := 1
  const CrcSize: nat := 2
  const PacketOverhead: nat := CountSize + CrcSize

  const PubKeySize: nat := 64

  const RspSizeMin: nat := 4
  const RspSizeVal: nat := 7
  const RspSize4: nat := 7
  const RspSize16: nat := 19
  const RspSize32: nat := 35
  const RspSize64: nat := 67
  const RspSize72: nat := 75
  const RspSizeMax: nat := 75

  const ReadCount: nat := CmdSizeMin
  const Read4RspSize: nat := RspSizeVal
  const Read32RspSize: nat := RspSize32

  const LockCount: nat := CmdSizeMin
  const LockRspSize: nat := RspSizeMin
  const WriteRspSize: nat := RspSizeMin

  const GenKeyCount: nat := CmdSizeMin
  const GenKeyCountData: nat := 10
  const GenKeyOtherDataSize: nat := 3

  const EcdhCount: nat := CmdSizeMin + PubKeySize
  const NonceCountShort: nat := CmdSizeMin + 20
  const NonceCountLong: nat := CmdSizeMin + 32
  const NonceCountLong64: nat := CmdSizeMin + 64

  /** A response carrying n data bytes is n plus the count byte plus the
      CRC; every command size is the minimum plus its data. */
  lemma SizeConstantsConsistent()
    ensures PacketOverhead == 3 && RspSizeMin == 1 + PacketOverhead
    ensures RspSize4 == 4 + PacketOverhead && RspSize16 == 16 + PacketOverhead
    ensures RspSize32 == 32 + PacketOverhead && RspSize64 == 64 + PacketOverhead
    ensures RspSize72 == 72 + PacketOverhead && RspSizeMax == RspSize72
    ensures Read4RspSize == RspSize4 && ReadCount == CmdSizeMin
    ensures GenKeyCountData == CmdSizeMin + GenKeyOtherDataSize
    ensures EcdhCount == 71 && NonceCountShort == 27 && NonceCountLong == 39 && NonceCountLong64 == 71
  {
  }

  /** rxsize of a Read: a 32-byte response when bit 7 of the zone is set. */
  function ReadRspSize(param1: nat): (n: nat)
    ensures n == PacketOverhead + (if TestBit(param1, 7) then 32 else 4)
  {
    if !TestBit(param1, 7) then Read4RspSize else Read32RspSize
  }

  /** A packet object whose fields the command set-up functions assign. */
  class PacketObject {
    var txsize: nat
    var opcode: Byte
    var param1: nat
    var param2: nat
    var data: seq<Byte>
    var rxsize: nat

    function Value(): Packet
      reads this
    {
      Packet(txsize, opcode, param1, param2, data, rxsize)
    }

    constructor (p: Packet)
      ensures Value() == p
    {
      txsize := p.txsize;
      opcode := p.opcode;
      param1 := p.param1;
      param2 := p.param2;
      data := p.data;
      rxsize := p.rxsize;
    }

    /** atRead: sets the opcode, the command size and the response size
        from bit 7 of param1; zone, address and data are left as given. */
    method AtRead()
      modifies this
      ensures opcode == OpRead && txsize == ReadCount
      ensures rxsize == ReadRspSize(param1)
      ensures param1 == old(param1) && param2 == old(param2) && data == old(data)
    {
      opcode := OpRead;
      txsize := ReadCount;
      if !TestBit(param1, 7) {
        rxsize := Read4RspSize;
      } else {
        rxsize := Read32RspSize;
      }
    }
  }
}
