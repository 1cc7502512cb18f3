/**
 * The chip-status and provisioning logic of lib/ecc2.js: decoding the
 * 128-byte configuration zone into serial number, revision, lock flags and
 * per-slot key records (chipStatusAsync), and the sequence that writes a
 * configuration, reads it back and locks the chip (presetAsync). The zone
 * reads, writes, locks and key-validity queries come from a command layer
 * that is an oracle here.
 */
module Chip {
  import opened Base

  const ConfigSize: nat := 128
  const KeyTypeEcc: nat := 4

  // Byte offsets in the configuration zone.
  const I2cAddress: nat := 16
  const SlotConfig: nat := 20
  const UserExtra: nat := 84
  const LockValue: nat := 86
  const LockConfig: nat := 87
  const SlotLocked: nat := 88
  const X509Format: nat := 92
  const KeyConfig: nat := 96

  /** What LockValue and LockConfig hold while the zone is unlocked. */
  const Unlocked: Byte := 0x55

  // ---------------------------------------------------------------------
  // Revision.

  datatype ChipType = Atecc608 | Atecc508

  /** revMap.get(rev.readUInt32BE()). */
  function RevType(rev: seq<Byte>): Option<ChipType>
    requires |rev| == 4
  {
    var v := BeValue(rev);
    if v == 0x00006001 || v == 0x00006002 then Some(Atecc608)
    else if v == 0x00005000 then Some(Atecc508)
    else None
  }

  /** readUInt32BE of four bytes. */
  lemma Be4(s: seq<Byte>)
    requires |s| == 4
    ensures BeValue(s) == ((s[0] as int * 256 + s[1] as int) * 256 + s[2] as int) * 256 + s[3] as int
  {
    assert Pow256(1) == 256 && Pow256(2) == 65536 && Pow256(3) == 16777216;
    var s1 := s[1..];
    var s2 := s1[1..];
    var s3 := s2[1..];
    assert s3[1..] == [];
    assert BeValue(s3) == s[3] as int;
    assert BeValue(s2) == s[2] as int * 256 + s[3] as int;
    assert BeValue(s1) == s[1] as int * 65536 + s[2] as int * 256 + s[3] as int;
  }

  /** Four bytes are determined by the number they denote. */
  lemma Be4Injective(s: seq<Byte>, t: seq<Byte>)
    requires |s| == 4 && |t| == 4 && BeValue(s) == BeValue(t)
    ensures s == t
  {
    Be4(s);
    Be4(t);
    var v := BeValue(s);
    DivUnique(v, 256, (s[0] as int * 256 + s[1] as int) * 256 + s[2] as int, s[3]);
    DivUnique(v, 256, (t[0] as int * 256 + t[1] as int) * 256 + t[2] as int, t[3]);
    var w := v / 256;
    DivUnique(w, 256, s[0] as int * 256 + s[1] as int, s[2]);
    DivUnique(w, 256, t[0] as int * 256 + t[1] as int, t[2]);
    var u := w / 256;
    DivUnique(u, 256, s[0], s[1]);
    DivUnique(u, 256, t[0], t[1]);
    assert s == [s[0], s[1], s[2], s[3]] && t == [t[0], t[1], t[2], t[3]];
  }

  /** The revision names an ATECC608A exactly for 00 00 60 01 and 00 00 60 02,
      an ATECC508A exactly for 00 00 50 00, and nothing otherwise. */
  lemma RevTypeIff(rev: seq<Byte>)
    requires |rev| == 4
    ensures RevType(rev) == Some(Atecc608) <==> rev == [0x00, 0x00, 0x60, 0x01] || rev == [0x00, 0x00, 0x60, 0x02]
    ensures RevType(rev) == Some(Atecc508) <==> rev == [0x00, 0x00, 0x50, 0x00]
    ensures RevType(rev) == None <==>
              rev != [0x00, 0x00, 0x60, 0x01] && rev != [0x00, 0x00, 0x60, 0x02] && rev != [0x00, 0x00, 0x50, 0x00]
  {
    var a: seq<Byte> := [0x00, 0x00, 0x60, 0x01];
    var b: seq<Byte> := [0x00, 0x00, 0x60, 0x02];
    var c: seq<Byte> := [0x00, 0x00, 0x50, 0x00];
    Be4(a);
    Be4(b);
    Be4(c);
    if BeValue(rev) == BeValue(a) { Be4Injective(rev, a); }
    if BeValue(rev) == BeValue(b) { Be4Injective(rev, b); }
    if BeValue(rev) == BeValue(c) { Be4Injective(rev, c); }
  }

  // ---------------------------------------------------------------------
  // Serial number, as Buffer.toString('hex') writes it.

  function HexDigit(d: nat): char
    requires d < 16
  {
    if d < 10 then ('0' as int + d) as char else ('a' as int + d - 10) as char
  }

  function Hex(bs: seq<Byte>): (h: string)
    ensures |h| == 2 * |bs|
  {
    if bs == [] then [] else [HexDigit(bs[0] / 16), HexDigit(bs[0] % 16)] + Hex(bs[1..])
  }

  function DigitValue(c: char): nat
  {
    if '0' <= c <= '9' then c as int - '0' as int
    else if 'a' <= c <= 'f' then c as int - 'a' as int + 10
    else 0
  }

  function Unhex(h: string): seq<Byte>
    requires |h| % 2 == 0
  {
    if h == [] then [] else
      assert DigitValue(h[0]) < 16 && DigitValue(h[1]) < 16;
      [DigitValue(h[0]) * 16 + DigitValue(h[1])] + Unhex(h[2..])
  }

  /** The hex string gives the bytes back. */
  lemma {:induction false} HexRoundTrip(bs: seq<Byte>)
    ensures Unhex(Hex(bs)) == bs
  {
    if bs != [] {
      var h := Hex(bs);
      assert h[2..] == Hex(bs[1..]);
      assert DigitValue(HexDigit(bs[0] / 16)) == bs[0] / 16;
      assert DigitValue(HexDigit(bs[0] % 16)) == bs[0] % 16;
      HexRoundTrip(bs[1..]);
    }
  }

  /** The nine serial-number bytes: 0..3 and 8..12. */
  function SerialNumber(cfg: seq<Byte>): (sn: seq<Byte>)
    requires |cfg| == ConfigSize
    ensures |sn| == 9
    ensures sn[..4] == cfg[0..4] && sn[4..] == cfg[8..13]
  {
    cfg[0..4] + cfg[8..13]
  }

  // ---------------------------------------------------------------------
  // Slot records.

  function SlotConfigOf(cfg: seq<Byte>, i: nat): nat
    requires |cfg| == ConfigSize && i < 16
  {
    LE16(cfg, SlotConfig + 2 * i)
  }

  function KeyConfigOf(cfg: seq<Byte>, i: nat): nat
    requires |cfg| == ConfigSize && i < 16
  {
    LE16(cfg, KeyConfig + 2 * i)
  }

  /** One decoded slot; keyValid is None where the chip was not asked. */
  datatype Slot = Slot(
    isPrivate: bool,
    pubInfo: bool,
    keyType: nat,
    lockable: bool,
    reqRandom: bool,
    reqAuth: bool,
    authKey: nat,
    readKey: nat,
    noMac: bool,
    limitedUse: bool,
    encryptedRead: bool,
    isSecret: bool,
    writeKey: nat,
    writeConfig: nat,
    keyValid: Option<bool>,
    locked: bool)

  /** KeyConfig bit 1, PubInfo. */
  predicate PubInfo(keyConfig: nat)
  {
    keyConfig / 2 % 2 == 1
  }

  /** `keyConfig & (1 << 2)` as lib/ecc2.js:81 reads PubInfo: bit 2, which
      is also the low bit of KeyType (bits 2..4). */
  predicate PubInfoAsWritten(keyConfig: nat)
  {
    keyConfig / 4 % 2 == 1
  }

  function KeyType(keyConfig: nat): nat
  {
    keyConfig / 4 % 8
  }

  /** Whether chipStatusAsync asks the chip whether slot i holds a valid
      key: for ECC keys that are private or have PubInfo set. */
  predicate NeedsKeyValid(keyConfig: nat)
  {
    KeyType(keyConfig) == KeyTypeEcc && (keyConfig % 2 == 1 || PubInfo(keyConfig))
  }

  predicate NeedsKeyValidAsWritten(keyConfig: nat)
  {
    KeyType(keyConfig) == KeyTypeEcc && (keyConfig % 2 == 1 || PubInfoAsWritten(keyConfig))
  }

  /** Read as written, PubInfo is always clear for an ECC key, so a public
      ECC key is never checked. */
  lemma PubInfoAsWrittenClearForEcc(keyConfig: nat)
    ensures KeyType(keyConfig) == KeyTypeEcc ==> !PubInfoAsWritten(keyConfig)
    ensures NeedsKeyValidAsWritten(keyConfig) <==> KeyType(keyConfig) == KeyTypeEcc && keyConfig % 2 == 1
  {
  }

  /** KeyConfig 0x0012, a public ECC key with PubInfo set: it should be
      checked, and as written it is not. */
  lemma PublicEccKeySkipped()
    ensures KeyType(0x0012) == KeyTypeEcc && 0x0012 % 2 == 0 && PubInfo(0x0012)
    ensures NeedsKeyValid(0x0012) && !NeedsKeyValidAsWritten(0x0012)
  {
  }

  function Bit(x: nat, p: nat): bool
    requires p > 0
  {
    x / p % 2 == 1
  }

  /** The record for slot i, given the chip's answer to keyValidAsync(i). */
  function SlotOf(cfg: seq<Byte>, i: nat, keyValid: bool): Slot
    requires |cfg| == ConfigSize && i < 16
  {
    var sc := SlotConfigOf(cfg, i);
    var kc := KeyConfigOf(cfg, i);
    Slot(
      kc % 2 == 1, PubInfo(kc), KeyType(kc), Bit(kc, 32), Bit(kc, 64), Bit(kc, 128), kc / 256 % 16,
      sc % 16, Bit(sc, 16), Bit(sc, 32), Bit(sc, 64), Bit(sc, 128), sc / 256 % 16, sc / 4096 % 16,
      if NeedsKeyValid(kc) then Some(keyValid) else None,
      !TestBit(LE16(cfg, SlotLocked), i))
  }

  function B(b: bool): nat
  {
    if b then 1 else 0
  }

  lemma Distribute(a: nat, b: nat, d: nat, e: nat)
    ensures a * (b * d + e) == (a * b) * d + a * e
  {
  }

  /** (a * q + r) regrouped around a * b, when q = b * d + e. */
  lemma Recombine(a: nat, b: nat, q: nat, r: nat, d: nat, e: nat)
    requires r < a && e < b && q == b * d + e
    ensures a * q + r == (a * b) * d + (a * e + r) && a * e + r < a * b
  {
    Distribute(a, b, d, e);
    MulLe(a, e, b - 1);
    Distribute(a, 1, b - 1, 1);
  }

  /** x's remainder modulo a * b, split at a. */
  lemma ModSplit(x: nat, a: nat, b: nat)
    requires a > 0 && b > 0
    ensures x % (a * b) == x % a + a * (x / a % b)
    ensures x / a / b == x / (a * b)
  {
    Recombine(a, b, x / a, x % a, x / a / b, x / a % b);
    DivModUnique(x, a * b, x / a / b, x % a + a * (x / a % b));
  }

  /** The KeyConfig fields Private, PubInfo, KeyType, Lockable, ReqRandom,
      ReqAuth and AuthKey put back together give the word's low 12 bits:
      none overlaps another and none is missing. */
  lemma KeyConfigWord(kc: nat)
    ensures kc % 2 + 2 * (kc / 2 % 2) + 4 * KeyType(kc) + 32 * (kc / 32 % 2) + 64 * (kc / 64 % 2)
              + 128 * (kc / 128 % 2) + 256 * (kc / 256 % 16) == kc % 4096
  {
    ModSplit(kc, 2, 2048);
    ModSplit(kc / 2, 2, 1024);
    ModSplit(kc, 2, 2);
    ModSplit(kc / 4, 8, 128);
    ModSplit(kc, 4, 8);
    ModSplit(kc / 32, 2, 64);
    ModSplit(kc, 32, 2);
    ModSplit(kc / 64, 2, 32);
    ModSplit(kc, 64, 2);
    ModSplit(kc / 128, 2, 16);
    ModSplit(kc, 128, 2);
  }

  /** The SlotConfig fields ReadKey, NoMac, LimitedUse, EncryptRead,
      IsSecret, WriteKey and WriteConfig put back together give the whole
      16-bit word. */
  lemma SlotConfigWord(sc: nat)
    requires sc < 65536
    ensures sc % 16 + 16 * (sc / 16 % 2) + 32 * (sc / 32 % 2) + 64 * (sc / 64 % 2) + 128 * (sc / 128 % 2)
              + 256 * (sc / 256 % 16) + 4096 * (sc / 4096 % 16) == sc
  {
    SlotConfigLowByte(sc);
    ModSplit(sc, 256, 16);
    ModSplit(sc, 4096, 16);
  }

  /** The low byte of a SlotConfig word from ReadKey and the four flags. */
  lemma SlotConfigLowByte(sc: nat)
    ensures sc % 16 + 16 * (sc / 16 % 2) + 32 * (sc / 32 % 2) + 64 * (sc / 64 % 2) + 128 * (sc / 128 % 2) == sc % 256
  {
    ModSplit(sc, 16, 2);
    ModSplit(sc, 32, 2);
    ModSplit(sc, 64, 2);
    ModSplit(sc, 128, 2);
  }

  /** The decoded record carries every KeyConfig bit below 12 once. */
  lemma KeyConfigFields(cfg: seq<Byte>, i: nat, keyValid: bool)
    requires |cfg| == ConfigSize && i < 16
    ensures var s := SlotOf(cfg, i, keyValid);
            B(s.isPrivate) + 2 * B(s.pubInfo) + 4 * s.keyType + 32 * B(s.lockable) + 64 * B(s.reqRandom)
              + 128 * B(s.reqAuth) + 256 * s.authKey == KeyConfigOf(cfg, i) % 4096
  {
    KeyConfigWord(KeyConfigOf(cfg, i));
  }

  /** The decoded record carries every SlotConfig bit once. */
  lemma SlotConfigFields(cfg: seq<Byte>, i: nat, keyValid: bool)
    requires |cfg| == ConfigSize && i < 16
    ensures var s := SlotOf(cfg, i, keyValid);
            s.readKey + 16 * B(s.noMac) + 32 * B(s.limitedUse) + 64 * B(s.encryptedRead)
              + 128 * B(s.isSecret) + 256 * s.writeKey + 4096 * s.writeConfig == SlotConfigOf(cfg, i)
  {
    SlotConfigWord(SlotConfigOf(cfg, i));
  }

  /** Adding a multiple of m leaves the remainder modulo m alone. */
  lemma ModAdd(x: nat, m: nat, k: nat)
    requires m > 0
    ensures (x + m * k) % m == x % m
  {
    DivUnique(x + m * k, m, x / m + k, x % m);
  }

  /** A field lying in the low byte of a 16-bit word, found in that byte. */
  lemma LowField(lo: Byte, hi: Byte, p: nat, m: nat, c: nat)
    requires p > 0 && m > 0 && p * (m * c) == 256
    ensures (lo as nat + 256 * hi as nat) / p % m == lo / p % m
  {
    var w := lo as nat + 256 * hi as nat;
    Distribute(p, m * c * hi, 1, 0);
    assert w == p * (lo / p + m * (c * hi)) + lo % p;
    DivUnique(w, p, lo / p + m * (c * hi), lo % p);
    ModAdd(lo / p, m, c * hi);
  }

  /** The low nibble, the high nibble and the single bits of a 16-bit word,
      read off its two bytes. */
  lemma WordBytes(lo: Byte, hi: Byte)
    ensures var w := lo as nat + 256 * hi as nat;
            && w % 16 == lo % 16 && w % 2 == lo % 2
            && w / 2 % 2 == lo / 2 % 2 && w / 4 % 8 == lo / 4 % 8
            && w / 16 % 2 == lo / 16 % 2 && w / 32 % 2 == lo / 32 % 2
            && w / 64 % 2 == lo / 64 % 2 && w / 128 % 2 == lo / 128 % 2
            && w / 256 % 16 == hi % 16 && w / 4096 % 16 == hi / 16
  {
    var w := lo as nat + 256 * hi as nat;
    LowField(lo, hi, 1, 16, 16);
    LowField(lo, hi, 1, 2, 128);
    LowField(lo, hi, 2, 2, 64);
    LowField(lo, hi, 4, 8, 8);
    LowField(lo, hi, 16, 2, 8);
    LowField(lo, hi, 32, 2, 4);
    LowField(lo, hi, 64, 2, 2);
    LowField(lo, hi, 128, 2, 1);
    DivUnique(w, 256, hi, lo);
    ModSplit(w, 256, 16);
    DivUnique(hi, 16, hi / 16, hi % 16);
  }

  /** Each field of slot i read straight off the configuration bytes:
      SlotConfig at 20 + 2i, 21 + 2i and KeyConfig at 96 + 2i, 97 + 2i. */
  lemma SlotBytes(cfg: seq<Byte>, i: nat, keyValid: bool)
    requires |cfg| == ConfigSize && i < 16
    ensures var s := SlotOf(cfg, i, keyValid);
            var k, c := cfg[KeyConfig + 2 * i], cfg[SlotConfig + 2 * i];
            && s.isPrivate == (k % 2 == 1) && s.pubInfo == (k / 2 % 2 == 1)
            && s.keyType == k / 4 % 8 && s.lockable == (k / 32 % 2 == 1)
            && s.reqRandom == (k / 64 % 2 == 1) && s.reqAuth == (k / 128 % 2 == 1)
            && s.authKey == cfg[KeyConfig + 2 * i + 1] % 16
            && s.readKey == c % 16 && s.noMac == (c / 16 % 2 == 1)
            && s.limitedUse == (c / 32 % 2 == 1) && s.encryptedRead == (c / 64 % 2 == 1)
            && s.isSecret == (c / 128 % 2 == 1)
            && s.writeKey == cfg[SlotConfig + 2 * i + 1] % 16
            && s.writeConfig == cfg[SlotConfig + 2 * i + 1] / 16
            && (s.keyValid.Some? <==> k / 4 % 8 == KeyTypeEcc && (k % 2 == 1 || k / 2 % 2 == 1))
  {
    WordBytes(cfg[KeyConfig + 2 * i], cfg[KeyConfig + 2 * i + 1]);
    WordBytes(cfg[SlotConfig + 2 * i], cfg[SlotConfig + 2 * i + 1]);
  }

  // ---------------------------------------------------------------------
  // chipStatusAsync.

  datatype Status = Status(
    sn: string,
    chipType: Option<ChipType>,
    i2cAddr: Byte,
    dataLocked: bool,
    configLocked: bool,
    slots: seq<Slot>)

  /** The status record of a configuration zone, given the answer
      keyValid[i] the chip would give for slot i. */
  function StatusOf(cfg: seq<Byte>, keyValid: seq<bool>): Status
    requires |cfg| == ConfigSize && |keyValid| == 16
  {
    Status(
      Hex(SerialNumber(cfg)), RevType(cfg[4..8]), cfg[I2cAddress],
      cfg[LockValue] != Unlocked, cfg[LockConfig] != Unlocked,
      seq(16, i requires 0 <= i < 16 => SlotOf(cfg, i, keyValid[i])))
  }

  /** The positions below n where the mask is set, in order. */
  function Selected(mask: seq<bool>, n: nat): seq<nat>
    requires n <= |mask|
  {
    if n == 0 then []
    else Selected(mask, n - 1) + (if mask[n - 1] then [n - 1] else [])
  }

  /** Selected lists, in strictly ascending order, exactly the set positions
      below n. */
  lemma {:induction false} SelectedIff(mask: seq<bool>, n: nat)
    requires n <= |mask|
    ensures forall i :: i in Selected(mask, n) <==> 0 <= i < n && mask[i]
    ensures forall j, k :: 0 <= j < k < |Selected(mask, n)| ==> Selected(mask, n)[j] < Selected(mask, n)[k]
  {
    if n > 0 {
      SelectedIff(mask, n - 1);
      var init := Selected(mask, n - 1);
      if mask[n - 1] {
        forall j, k | 0 <= j < k < |Selected(mask, n)|
          ensures Selected(mask, n)[j] < Selected(mask, n)[k]
        {
          assert Selected(mask, n)[j] == init[j];
          assert init[j] in init;
          if k < |init| {
            assert Selected(mask, n)[k] == init[k];
          }
        }
      } else {
        assert Selected(mask, n) == init;
      }
      assert forall i :: i in Selected(mask, n) <==> i in init || (mask[n - 1] && i == n - 1);
    }
  }

  /** Which slots need a key-validity query. */
  function NeedsMask(cfg: seq<Byte>): (m: seq<bool>)
    requires |cfg| == ConfigSize
    ensures |m| == 16 && forall i :: 0 <= i < 16 ==> m[i] == NeedsKeyValid(KeyConfigOf(cfg, i))
  {
    seq(16, i requires 0 <= i < 16 => NeedsKeyValid(KeyConfigOf(cfg, i)))
  }

  /** The slots whose key validity chipStatusAsync queries, in order. */
  function Queried(cfg: seq<Byte>): seq<nat>
    requires |cfg| == ConfigSize
  {
    Selected(NeedsMask(cfg), 16)
  }

  /** The queries go to exactly the ECC slots that are private or have
      PubInfo set, each once, in ascending slot order. */
  lemma QueriedIff(cfg: seq<Byte>)
    requires |cfg| == ConfigSize
    ensures forall i :: i in Queried(cfg) <==> 0 <= i < 16 && NeedsKeyValid(KeyConfigOf(cfg, i))
    ensures forall j, k :: 0 <= j < k < |Queried(cfg)| ==> Queried(cfg)[j] < Queried(cfg)[k]
  {
    SelectedIff(NeedsMask(cfg), 16);
  }

  /** What the status says, stated against the configuration bytes. */
  lemma StatusFacts(cfg: seq<Byte>, keyValid: seq<bool>)
    requires |cfg| == ConfigSize && |keyValid| == 16
    ensures var st := StatusOf(cfg, keyValid);
            && |st.sn| == 18 && Unhex(st.sn) == cfg[0..4] + cfg[8..13]
            && st.i2cAddr == cfg[16]
            && (st.dataLocked <==> cfg[86] != 0x55) && (st.configLocked <==> cfg[87] != 0x55)
            && |st.slots| == 16
            && (forall i :: 0 <= i < 16 ==> (st.slots[i].locked <==> !TestBit(LE16(cfg, 88), i)))
            && (forall i :: 0 <= i < 16 ==> st.slots[i].keyValid.Some? ==> st.slots[i].keyValid == Some(keyValid[i]))
  {
    HexRoundTrip(SerialNumber(cfg));
  }

  /** The branches of chipStatusAsync that decide whether keyValidAsync is
      called for a slot with this KeyConfig. */
  method AsksKeyValid(keyConfig: nat) returns (asked: bool)
    ensures asked <==> NeedsKeyValid(keyConfig)
    ensures asked ==> KeyType(keyConfig) == KeyTypeEcc
  {
    asked := false;
    if keyConfig / 4 % 8 == KeyTypeEcc {
      if keyConfig % 2 == 1 {
        asked := true;
      } else if keyConfig / 2 % 2 == 1 {
        asked := true;
      }
    }
  }

  /** The slot loop of chipStatusAsync: 16 records, and the key-validity
      queries made on the way. */
  method DecodeSlots(cfg: seq<Byte>, keyValid: seq<bool>) returns (slots: seq<Slot>, queried: seq<nat>)
    requires |cfg| == ConfigSize && |keyValid| == 16
    ensures slots == StatusOf(cfg, keyValid).slots
    ensures queried == Queried(cfg)
  {
    slots := [];
    ghost var mask := NeedsMask(cfg);
    queried := [];
    var i := 0;
    while i < 16
      invariant 0 <= i <= 16
      invariant |slots| == i
      invariant forall j :: 0 <= j < i ==> slots[j] == SlotOf(cfg, j, keyValid[j])
      invariant |mask| == 16
      invariant queried == Selected(mask, i)
    {
      var asked := AsksKeyValid(KeyConfigOf(cfg, i));
      if asked {
        queried := queried + [i];
      }
      var slot := SlotOf(cfg, i, keyValid[i]);
      slots := slots + [slot];
      i := i + 1;
    }
  }

  /** chipStatusAsync on a configuration zone. keyValid[i] is the chip's
      answer for slot i; `queried` lists the slots asked, in the order asked. */
  method ChipStatus(cfg: seq<Byte>, keyValid: seq<bool>) returns (st: Status, queried: seq<nat>)
    requires |cfg| == ConfigSize && |keyValid| == 16
    ensures st == StatusOf(cfg, keyValid)
    ensures queried == Queried(cfg)
  {
    var sn := Hex(cfg[0..4] + cfg[8..13]);
    var chipType := RevType(cfg[4..8]);
    var slots;
    slots, queried := DecodeSlots(cfg, keyValid);
    st := Status(sn, chipType, cfg[I2cAddress], cfg[LockValue] != Unlocked, cfg[LockConfig] != Unlocked, slots);
  }

  // ---------------------------------------------------------------------
  // presetAsync.

  /** The command-layer calls presetAsync makes, all on the configuration
      zone (zone 0, slot 0). */
  datatype Op =
    | ConfigRead
    | RangeRead(offset: nat, length: nat)
    | RangeWrite(offset: nat, data: seq<Byte>)
    | ConfigLock
    | DataLock

  /** The single error presetAsync throws ('failed'). */
  datatype PresetError = Failed

  /** Bytes 84..91 of a factory-fresh chip: UserExtra, Selector, LockValue,
      LockConfig, SlotLocked and two reserved bytes. */
  const LockBytes: seq<Byte> := [0x00, 0x00, 0x55, 0x55, 0xFF, 0xFF, 0x00, 0x00]
  /** The same bytes once both zones are locked. */
  const LockedBytes: seq<Byte> := [0x00, 0x00, 0x00, 0x00, 0xFF, 0xFF, 0x00, 0x00]

  /** The k-th answer of a list of read answers; an exhausted list answers
      with no bytes. */
  function Answer(answers: seq<seq<Byte>>, k: nat): seq<Byte>
  {
    if k < |answers| then answers[k] else []
  }

  /** The answers left after k reads. */
  function Drop(answers: seq<seq<Byte>>, k: nat): seq<seq<Byte>>
  {
    if k <= |answers| then answers[k..] else []
  }

  /** Buffer.slice(k): the bytes from k on, none when k is past the end. */
  function SliceFrom(s: seq<Byte>, k: nat): seq<Byte>
  {
    if k <= |s| then s[k..] else []
  }

  predicate IsUnlocked(cfg: seq<Byte>)
  {
    |cfg| > LockConfig && cfg[LockConfig] == Unlocked
  }

  /** The part of the configuration written before the lock bytes. */
  function Head(abel: seq<Byte>): (h: seq<Byte>)
    requires |abel| == ConfigSize
    ensures |h| == UserExtra - I2cAddress
  {
    abel[I2cAddress..UserExtra]
  }

  /** The part written after them. */
  function Tail(abel: seq<Byte>): (t: seq<Byte>)
    requires |abel| == ConfigSize
    ensures |t| == ConfigSize - X509Format
  {
    abel[X509Format..]
  }

  function CheckTrace(): seq<Op>
  {
    [ConfigRead, RangeRead(UserExtra, 8)]
  }

  function HeadTrace(abel: seq<Byte>): seq<Op>
    requires |abel| == ConfigSize
  {
    CheckTrace() + [RangeWrite(I2cAddress, Head(abel)), RangeRead(I2cAddress, |Head(abel)|)]
  }

  function TailTrace(abel: seq<Byte>): seq<Op>
    requires |abel| == ConfigSize
  {
    HeadTrace(abel) + [RangeWrite(X509Format, Tail(abel)), RangeRead(X509Format, |Tail(abel)|)]
  }

  function FullTrace(abel: seq<Byte>): seq<Op>
    requires |abel| == ConfigSize
  {
    TailTrace(abel) + [ConfigLock, DataLock, ConfigRead]
  }

  /** presetAsync as a function of the successive read answers and the
      configuration `abel` to install: the outcome and the calls made. */
  function PresetSpec(answers: seq<seq<Byte>>, abel: seq<Byte>): (Result<(), PresetError>, seq<Op>)
    requires |abel| == ConfigSize
  {
    if !IsUnlocked(Answer(answers, 0)) then (Ok(()), [ConfigRead])
    else if Answer(answers, 1) != LockBytes then (Err(Failed), CheckTrace())
    else if Answer(answers, 2) != Head(abel) then (Err(Failed), HeadTrace(abel))
    else if Answer(answers, 3) != Tail(abel) then (Err(Failed), TailTrace(abel))
    else if SliceFrom(Answer(answers, 4), I2cAddress) != Head(abel) + LockedBytes + Tail(abel) then
      (Err(Failed), FullTrace(abel))
    else (Ok(()), FullTrace(abel))
  }

  /** A chip whose LockConfig byte does not say unlocked is only read. */
  lemma PresetOnLockedChip(answers: seq<seq<Byte>>, abel: seq<Byte>)
    requires |abel| == ConfigSize && !IsUnlocked(Answer(answers, 0))
    ensures PresetSpec(answers, abel) == (Ok(()), [ConfigRead])
  {
  }

  /** presetAsync succeeds exactly when the chip is locked already or when
      every check passes: factory lock bytes, both read-backs, and the
      re-read configuration from byte 16 on. */
  lemma PresetOkIff(answers: seq<seq<Byte>>, abel: seq<Byte>)
    requires |abel| == ConfigSize
    ensures PresetSpec(answers, abel).0.Ok? <==>
              || !IsUnlocked(Answer(answers, 0))
              || (&& Answer(answers, 1) == LockBytes && Answer(answers, 2) == Head(abel)
                  && Answer(answers, 3) == Tail(abel)
                  && SliceFrom(Answer(answers, 4), I2cAddress) == Head(abel) + LockedBytes + Tail(abel))
  {
  }

  /** Nothing is written unless the chip is unlocked and its lock bytes hold
      their factory value; the zones are locked exactly when, besides, both
      halves read back as written, and the run then makes every call. */
  lemma PresetGuards(answers: seq<seq<Byte>>, abel: seq<Byte>)
    requires |abel| == ConfigSize
    ensures var ops := PresetSpec(answers, abel).1;
            && ((exists i :: 0 <= i < |ops| && ops[i].RangeWrite?) <==>
                  IsUnlocked(Answer(answers, 0)) && Answer(answers, 1) == LockBytes)
            && (ConfigLock in ops <==>
                  && IsUnlocked(Answer(answers, 0)) && Answer(answers, 1) == LockBytes
                  && Answer(answers, 2) == Head(abel) && Answer(answers, 3) == Tail(abel))
            && (DataLock in ops <==> ConfigLock in ops)
            && (ConfigLock in ops ==> ops == FullTrace(abel))
  {
    var ops := PresetSpec(answers, abel).1;
    var h, t := Head(abel), Tail(abel);
    var w := RangeWrite(I2cAddress, h);
    if IsUnlocked(Answer(answers, 0)) && Answer(answers, 1) == LockBytes {
      assert ops[2] == w;
    } else {
      assert ops == [ConfigRead] || ops == CheckTrace();
    }
  }

  /** A write that puts `abel`'s own bytes at their own offsets, within
      bytes 16..83 or 92..127: never the chip-specific bytes 0..15 nor the
      lock bytes 84..91. */
  predicate SafeWrite(op: Op, abel: seq<Byte>)
    requires |abel| == ConfigSize
  {
    op.RangeWrite? ==>
      && op.offset + |op.data| <= ConfigSize
      && op.data == abel[op.offset..op.offset + |op.data|]
      && ((I2cAddress <= op.offset && op.offset + |op.data| <= UserExtra)
          || (X509Format <= op.offset && op.offset + |op.data| <= ConfigSize))
  }

  lemma FullTraceListed(abel: seq<Byte>)
    requires |abel| == ConfigSize
    ensures FullTrace(abel) == [
              ConfigRead, RangeRead(UserExtra, 8),
              RangeWrite(I2cAddress, Head(abel)), RangeRead(I2cAddress, |Head(abel)|),
              RangeWrite(X509Format, Tail(abel)), RangeRead(X509Format, |Tail(abel)|),
              ConfigLock, DataLock, ConfigRead]
  {
  }

  /** Every call presetAsync makes is one of the calls of a full run, in
      the same order, and every write in it is safe. */
  lemma PresetWritesAvoidLockBytes(answers: seq<seq<Byte>>, abel: seq<Byte>)
    requires |abel| == ConfigSize
    ensures var ops := PresetSpec(answers, abel).1;
            && |ops| <= |FullTrace(abel)| && ops == FullTrace(abel)[..|ops|]
            && forall i :: 0 <= i < |ops| ==> SafeWrite(ops[i], abel)
  {
    var full := FullTrace(abel);
    FullTraceListed(abel);
    assert forall i :: 0 <= i < |full| ==> SafeWrite(full[i], abel);
    var ops := PresetSpec(answers, abel).1;
    assert ops == full[..1] || ops == full[..2] || ops == full[..4] || ops == full[..6] || ops == full[..9];
  }

  /** A chip that stores what is written and clears LockValue and
      LockConfig when it is locked passes presetAsync after all five
      calls. */
  lemma PresetOnFactoryChip(cfg0: seq<Byte>, abel: seq<Byte>)
    requires |cfg0| == ConfigSize && |abel| == ConfigSize && cfg0[UserExtra..X509Format] == LockBytes
    ensures var locked := cfg0[..I2cAddress] + Head(abel) + LockedBytes + Tail(abel);
            PresetSpec([cfg0, cfg0[UserExtra..X509Format], Head(abel), Tail(abel), locked], abel)
              == (Ok(()), FullTrace(abel))
  {
    assert cfg0[LockConfig] == cfg0[UserExtra..X509Format][3];
    var locked := cfg0[..I2cAddress] + Head(abel) + LockedBytes + Tail(abel);
    assert locked[I2cAddress..] == Head(abel) + LockedBytes + Tail(abel);
  }

  /** How many of the calls read something. */
  function Reads(ops: seq<Op>): nat
  {
    if ops == [] then 0 else (if ops[0].ConfigRead? || ops[0].RangeRead? then 1 else 0) + Reads(ops[1..])
  }

  /** The command layer as an oracle: it answers reads from a list and
      records every call. */
  class Commands {
    var answers: seq<seq<Byte>>
    var log: seq<Op>

    constructor (answers: seq<seq<Byte>>)
      ensures this.answers == answers && log == []
    {
      this.answers := answers;
      log := [];
    }

    method Next() returns (data: seq<Byte>)
      modifies this
      ensures data == Answer(old(answers), 0) && answers == Drop(old(answers), 1)
      ensures log == old(log)
    {
      data := Answer(answers, 0);
      answers := Drop(answers, 1);
    }

    /** readConfigZoneAsync. */
    method ReadConfigZone() returns (cfg: seq<Byte>)
      modifies this
      ensures cfg == Answer(old(answers), 0) && answers == Drop(old(answers), 1)
      ensures log == old(log) + [ConfigRead]
    {
      cfg := Next();
      log := log + [ConfigRead];
    }

    /** readBytesZoneAsync(0, 0, offset, length). */
    method ReadBytes(offset: nat, length: nat) returns (data: seq<Byte>)
      modifies this
      ensures data == Answer(old(answers), 0) && answers == Drop(old(answers), 1)
      ensures log == old(log) + [RangeRead(offset, length)]
    {
      data := Next();
      log := log + [RangeRead(offset, length)];
    }

    /** writeBytesZoneAsync(0, 0, offset, data). */
    method WriteBytes(offset: nat, data: seq<Byte>)
      modifies this
      ensures answers == old(answers) && log == old(log) + [RangeWrite(offset, data)]
    {
      log := log + [RangeWrite(offset, data)];
    }

    /** lockConfigZoneAsync. */
    method LockConfigZone()
      modifies this
      ensures answers == old(answers) && log == old(log) + [ConfigLock]
    {
      log := log + [ConfigLock];
    }

    /** lockDataZoneAsync. */
    method LockDataZone()
      modifies this
      ensures answers == old(answers) && log == old(log) + [DataLock]
    {
      log := log + [DataLock];
    }
  }

  /** After k reads the next answer is the k-th, and one more read leaves
      the answers after k + 1. */
  lemma DropDrop(answers: seq<seq<Byte>>, k: nat)
    ensures Answer(Drop(answers, k), 0) == Answer(answers, k)
    ensures Drop(Drop(answers, k), 1) == Drop(answers, k + 1)
  {
  }

  /** The number of reads in each trace. */
  lemma TraceReads(abel: seq<Byte>)
    requires |abel| == ConfigSize
    ensures Reads([ConfigRead]) == 1 && Reads(CheckTrace()) == 2 && Reads(HeadTrace(abel)) == 3
    ensures Reads(TailTrace(abel)) == 4 && Reads(FullTrace(abel)) == 5
  {
    var h, t := Head(abel), Tail(abel);
    ReadsAppend([ConfigRead], RangeRead(UserExtra, 8));
    assert [ConfigRead] + [RangeRead(UserExtra, 8)] == CheckTrace();
    ReadsAppend(CheckTrace(), RangeWrite(I2cAddress, h));
    ReadsAppend(CheckTrace() + [RangeWrite(I2cAddress, h)], RangeRead(I2cAddress, |h|));
    assert CheckTrace() + [RangeWrite(I2cAddress, h)] + [RangeRead(I2cAddress, |h|)] == HeadTrace(abel);
    ReadsAppend(HeadTrace(abel), RangeWrite(X509Format, t));
    ReadsAppend(HeadTrace(abel) + [RangeWrite(X509Format, t)], RangeRead(X509Format, |t|));
    assert HeadTrace(abel) + [RangeWrite(X509Format, t)] + [RangeRead(X509Format, |t|)] == TailTrace(abel);
    var tt := TailTrace(abel);
    ReadsAppend(tt, ConfigLock);
    ReadsAppend(tt + [ConfigLock], DataLock);
    ReadsAppend(tt + [ConfigLock] + [DataLock], ConfigRead);
    assert tt + [ConfigLock] + [DataLock] + [ConfigRead] == FullTrace(abel);
  }

  lemma ReadsAppend(ops: seq<Op>, op: Op)
    ensures Reads(ops + [op]) == Reads(ops) + (if op.ConfigRead? || op.RangeRead? then 1 else 0)
  {
    if ops != [] {
      assert (ops + [op])[1..] == ops[1..] + [op];
      ReadsAppend(ops[1..], op);
    }
  }

  /** presetAsync. On a chip whose LockConfig byte says unlocked it checks
      the lock bytes, writes and reads back the two halves of `abel` around
      them, locks both zones and checks the re-read configuration. */
  method Preset(dev: Commands, abel: seq<Byte>) returns (r: Result<(), PresetError>)
    requires |abel| == ConfigSize
    modifies dev
    ensures r == PresetSpec(old(dev.answers), abel).0
    ensures dev.log == old(dev.log) + PresetSpec(old(dev.answers), abel).1
    ensures dev.answers == Drop(old(dev.answers), Reads(PresetSpec(old(dev.answers), abel).1))
  {
    ghost var a, log0 := dev.answers, dev.log;
    TraceReads(abel);
    var config := dev.ReadConfigZone();
    if !(|config| > LockConfig && config[LockConfig] == Unlocked) {
      r := Ok(());
      return;
    }
    var read := dev.ReadBytes(UserExtra, 8);
    DropDrop(a, 1);
    assert dev.log == log0 + CheckTrace();
    if read != LockBytes {
      r := Err(Failed);
      return;
    }
    var head := abel[I2cAddress..UserExtra];
    var tail := abel[X509Format..];
    dev.WriteBytes(I2cAddress, head);
    read := dev.ReadBytes(I2cAddress, |head|);
    DropDrop(a, 2);
    assert dev.log == log0 + HeadTrace(abel);
    if read != head {
      r := Err(Failed);
      return;
    }
    dev.WriteBytes(X509Format, tail);
    read := dev.ReadBytes(X509Format, |tail|);
    DropDrop(a, 3);
    assert dev.log == log0 + TailTrace(abel);
    if read != tail {
      r := Err(Failed);
      return;
    }
    dev.LockConfigZone();
    dev.LockDataZone();
    config := dev.ReadConfigZone();
    DropDrop(a, 4);
    assert dev.log == log0 + FullTrace(abel);
    var lockedConfig := head + LockedBytes + tail;
    if SliceFrom(config, I2cAddress) != lockedConfig {
      r := Err(Failed);
      return;
    }
    r := Ok(());
  }
}
