/**
 * The device's memory zones and how a (zone, slot, block, word) location
 * becomes the 16-bit address carried in param2 of Read and Write commands.
 * Two copies exist in the source: atcabGetAddr / atcabGetZoneSize of
 * lib/ecc.js and getAddr / getZoneSize of src/commands/commands.js.
 */
module Zone {
  import opened Base

  const ZoneConfig: nat := 0x00
  const ZoneOtp: nat := 0x01
  const ZoneData: nat := 0x02
  const ZoneMask: nat := 0x03
  /** Zone bit 6: the write is encrypted. */
  const ZoneEncrypted: nat := 0x40
  /** Zone bit 7: the access moves 32 bytes instead of 4. */
  const ZoneReadWrite32: nat := 0x80

  const BlockSize: nat := 32
  const WordSize: nat := 4

  datatype ParamError =
    | BadParam   // lib/ecc.js: 'BAD_PARAM' / 'bad param'
    | BadZone    // src/commands/commands.js: 'bad zone'
    | BadSlot    // src/commands/commands.js: 'bad slot'
    | InvalidData  // lib/ecc.js GenKey: 'invalid data'

  /** The 16-bit address of a location: Config and OTP put the block above
      the three word bits; Data puts the slot there and the block from bit 8
      up. A slot past 31 spills into the block bits, exactly as in the
      source. */
  function Address(memZone: nat, slot: Byte, block: Byte, offset: Byte): (addr: nat)
    requires memZone < 3
    ensures addr < 0x1_0000
    ensures offset < 8 && memZone != ZoneData && block < 32 ==> addr == block * 8 + offset
    ensures offset < 8 && memZone == ZoneData && slot < 32 ==> addr == block * 256 + slot * 8 + offset
  {
    var word := offset % 8;
    AddressFacts(memZone, slot, block, word);
    if memZone == ZoneConfig || memZone == ZoneOtp then BitOr(block * 8, word)
    else BitOr(BitOr(slot * 8, word), block * 256)
  }

  lemma AddressFacts(memZone: nat, slot: Byte, block: Byte, word: nat)
    requires word < 8
    ensures BitOr(block * 8, word) == block * 8 + word
    ensures BitOr(BitOr(slot * 8, word), block * 256) < 0x1_0000
    ensures slot < 32 ==> BitOr(BitOr(slot * 8, word), block * 256) == block * 256 + slot * 8 + word
  {
    assert Pow2(3) == 8;
    assert Pow2(8) == 256 by { assert Pow2(4) == 16; }
    assert Pow2(11) == 2048 && Pow2(16) == 0x1_0000;
    BitOrDisjoint(block, word, 3);
    BitOrDisjoint(slot, word, 3);
    BitOrBound(slot * 8, word, 11);
    BitOrBound(BitOr(slot * 8, word), block * 256, 16);
    BitOrCommutes(BitOr(slot * 8, word), block * 256);
    if slot < 32 {
      BitOrDisjoint(block, slot * 8 + word, 8);
    }
  }

  /** atcabGetAddr (lib/ecc.js): masks the zone to its two low bits, rejects
      the masked value 3, keeps the low three bits of the word offset. */
  function AtcabGetAddr(zone: Byte, slot: Byte, block: Byte, offset: Byte): (r: Result<nat, ParamError>)
    ensures r.Err? <==> zone % 4 == ZoneMask
    ensures r.Err? ==> r.error == BadParam
    ensures r.Ok? ==> r.value == Address(zone % 4, slot, block, offset)
  {
    var memZone := zone % 4;
    if memZone != ZoneConfig && memZone != ZoneData && memZone != ZoneOtp then
      Err(BadParam)
    else
      var word := offset % 8;
      if memZone == ZoneConfig || memZone == ZoneOtp then
        Ok(BitOr(block * 8, word))
      else
        Ok(BitOr(BitOr(slot * 8, word), block * 256))
  }

  /** getAddr (src/commands/commands.js): a switch on zone & 0x03. */
  function GetAddr(zone: Byte, slot: Byte, block: Byte, offset: Byte): (r: Result<nat, ParamError>)
    ensures r.Err? <==> zone % 4 == ZoneMask
    ensures r.Err? ==> r.error == BadZone
    ensures r.Ok? ==> r.value == Address(zone % 4, slot, block, offset)
  {
    match zone % 4
    case 0 => Ok(BitOr(block * 8, offset % 8))
    case 1 => Ok(BitOr(block * 8, offset % 8))
    case 2 => Ok(BitOr(BitOr(slot * 8, offset % 8), block * 256))
    case _ => Err(BadZone)
  }

  /** The two copies compute the same address and fail on the same inputs;
      only the error message differs. */
  lemma GetAddrCopiesAgree(zone: Byte, slot: Byte, block: Byte, offset: Byte)
    ensures AtcabGetAddr(zone, slot, block, offset).Ok? == GetAddr(zone, slot, block, offset).Ok?
    ensures GetAddr(zone, slot, block, offset).Ok? ==>
              AtcabGetAddr(zone, slot, block, offset).value == GetAddr(zone, slot, block, offset).value
  {
  }

  /** The flag bits 0x40 (encrypted) and 0x80 (32-byte) of the zone, and
      the offset bits above bit 2, never reach the address. */
  lemma GetAddrIgnoresHighBits(zone: Byte, slot: Byte, block: Byte, offset: Byte)
    ensures zone < 0x40 ==> GetAddr(zone + ZoneEncrypted, slot, block, offset) == GetAddr(zone, slot, block, offset)
    ensures zone < 0x80 ==> GetAddr(zone + ZoneReadWrite32, slot, block, offset) == GetAddr(zone, slot, block, offset)
    ensures GetAddr(zone, slot, block, offset) == GetAddr(zone, slot, block, offset % 8)
  {
    assert (zone + ZoneEncrypted) % 4 == zone % 4 && (zone + ZoneReadWrite32) % 4 == zone % 4;
    assert offset % 8 % 8 == offset % 8;
  }

  lemma GetAddrExamples()
    ensures GetAddr(ZoneData, 3, 1, 2) == Ok(282)
    ensures GetAddr(ZoneConfig, 9, 2, 5) == Ok(21)
    ensures GetAddr(ZoneMask, 0, 0, 0) == Err(BadZone)
  {
    AddressFacts(ZoneData, 3, 1, 2);
    AddressFacts(ZoneConfig, 9, 2, 5);
  }

  /** Distinct locations of one zone have distinct addresses: within the
      Data zone (slots below 32) and within Config/OTP (blocks below 32). */
  lemma AddressInjective(memZone: nat, s1: Byte, b1: Byte, w1: Byte, s2: Byte, b2: Byte, w2: Byte)
    requires memZone < 3 && w1 < 8 && w2 < 8
    requires memZone == ZoneData ==> s1 < 32 && s2 < 32
    requires memZone != ZoneData ==> b1 < 32 && b2 < 32
    requires Address(memZone, s1, b1, w1) == Address(memZone, s2, b2, w2)
    ensures w1 == w2 && b1 == b2
    ensures memZone == ZoneData ==> s1 == s2
  {
    var a := Address(memZone, s1, b1, w1);
    if memZone == ZoneData {
      DivUnique(a, 256, b1, s1 * 8 + w1);
      DivUnique(a, 256, b2, s2 * 8 + w2);
      DivUnique(s1 * 8 + w1, 8, s1, w1);
      DivUnique(s2 * 8 + w2, 8, s2, w2);
    } else {
      DivUnique(a, 8, b1, w1);
      DivUnique(a, 8, b2, w2);
    }
  }

  /** atcabGetZoneSize (lib/ecc.js): the zone is compared unmasked. */
  function AtcabGetZoneSize(zone: nat, slot: nat): (r: Result<nat, ParamError>)
    ensures r.Ok? <==> (zone == ZoneConfig || zone == ZoneOtp || (zone == ZoneData && slot < 16))
    ensures r.Err? ==> r.error == BadParam
    ensures r.Ok? ==> r.value % WordSize == 0 && 36 <= r.value <= 416
  {
    if zone == ZoneConfig then Ok(128)
    else if zone == ZoneOtp then Ok(64)
    else if zone == ZoneData then
      if slot < 8 then Ok(36)
      else if slot == 8 then Ok(416)
      else if slot < 16 then Ok(72)
      else Err(BadParam)
    else Err(BadParam)
  }

  /** getZoneSize (src/commands/commands.js): 'bad slot' for a Data slot
      past 15, 'bad zone' for anything but 0, 1, 2. */
  function GetZoneSize(zone: nat, slot: nat): (r: Result<nat, ParamError>)
    ensures r.Ok? <==> (zone == ZoneConfig || zone == ZoneOtp || (zone == ZoneData && slot < 16))
    ensures r.Err? ==> (r.error == BadSlot <==> zone == ZoneData)
    ensures r.Ok? ==> r.value % WordSize == 0 && 36 <= r.value <= 416
  {
    match zone
    case 0 => Ok(128)
    case 1 => Ok(64)
    case 2 =>
      if slot < 8 then Ok(36)
      else if slot == 8 then Ok(416)
      else if slot < 16 then Ok(72)
      else Err(BadSlot)
    case _ => Err(BadZone)
  }

  lemma ZoneSizeCopiesAgree(zone: nat, slot: nat)
    ensures AtcabGetZoneSize(zone, slot).Ok? == GetZoneSize(zone, slot).Ok?
    ensures GetZoneSize(zone, slot).Ok? ==> AtcabGetZoneSize(zone, slot).value == GetZoneSize(zone, slot).value
  {
  }

  lemma ZoneSizeTable()
    ensures GetZoneSize(ZoneConfig, 0) == Ok(128) && GetZoneSize(ZoneOtp, 0) == Ok(64)
    ensures GetZoneSize(ZoneData, 7) == Ok(36) && GetZoneSize(ZoneData, 8) == Ok(416)
    ensures GetZoneSize(ZoneData, 9) == Ok(72) && GetZoneSize(ZoneData, 15) == Ok(72)
    ensures GetZoneSize(ZoneData, 16) == Err(BadSlot)
    ensures AtcabGetZoneSize(ZoneData, 16) == Err(BadParam)
  {
  }
}
