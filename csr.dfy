/**
 * The DER building blocks of lib/csr.js: length octets, TLV and the
 * universal types used by a certification request (BIT STRING, INTEGER,
 * SEQUENCE, SET, UTF8String, OBJECT IDENTIFIER), each a pure function of
 * its bytes, as in ITU-T X.690.
 */
module Csr {
  import opened Base
  import Der

  // ---- length octets ----

  /** The first `reduce` of L: leading zero bytes dropped. */
  function DropLeadingZeros(s: seq<Byte>): (t: seq<Byte>)
    ensures |t| <= |s|
  {
    if s == [] then []
    else if s[0] == 0 then DropLeadingZeros(s[1..])
    else s
  }

  /** L, the length octets of v (at most 32 bits of length): |v| itself
      below 128, else 0x80 | k followed by the big-endian bytes of |v|
      without leading zeros. csr.js:11-12 as written puts the Buffer v
      where its length belongs and takes the result of writeUInt32BE (an
      offset) for the written bytes; the octets meant are built here with
      the same two reductions. */
  function L(v: seq<Byte>): seq<Byte>
    requires |v| < Der.MaxLength
  {
    if |v| < 128 then [|v|]
    else
      var t := DropLeadingZeros(BigEndian(|v|, 4));
      [OrByte(|t|, 0x80)] + t
  }

  /** Widening a big-endian number puts zero bytes in front. */
  lemma {:induction false} BigEndianWiden(n: nat, k: nat, m: nat)
    requires k <= m && n < Pow256(k)
    ensures BigEndian(n, m) == Zeros(m - k) + BigEndian(n, k)
    decreases m
  {
    if m > k {
      if k == 0 {
        BigEndianWiden(0, 0, m - 1);
      } else {
        Der.Scale256(n, Pow256(k - 1));
        BigEndianWiden(n / 256, k - 1, m - 1);
      }
    }
  }

  /** Leading zeros are dropped, and nothing else is. */
  lemma {:induction false} DropZeros(j: nat, s: seq<Byte>)
    requires s != [] && s[0] != 0
    ensures DropLeadingZeros(Zeros(j) + s) == s
  {
    if j > 0 {
      assert Zeros(j) + s == [0] + (Zeros(j - 1) + s) by {
        ZerosCons(j);
      }
      DropZeros(j - 1, s);
    }
  }

  lemma {:induction false} ZerosCons(j: nat)
    requires j > 0
    ensures Zeros(j) == [0] + Zeros(j - 1)
  {
    if j > 1 {
      ZerosCons(j - 1);
    }
  }

  /** L agrees with the length octets of lib/der.js's encodeLength. */
  lemma LMatchesDer(v: seq<Byte>)
    requires |v| < Der.MaxLength
    ensures L(v) == Der.LengthOctets(|v|)
  {
    var n := |v|;
    if n >= 128 {
      var k := Der.ByteCount(n);
      Der.LongFormFacts(n, k);
      Der.MaxLengthIsPow256();
      BigEndianWiden(n, k, 4);
      DropZeros(4 - k, BigEndian(n, k));
      Der.LongFormFlag(k);
      BitOrCommutes(k, 0x80);
    }
  }

  // ---- TLV and the universal types ----

  /** TLV: the tag, the length octets of v, then v. */
  function Tlv(t: Byte, v: seq<Byte>): seq<Byte>
    requires |v| < Der.MaxLength
  {
    [t] + L(v) + v
  }

  /** A TLV is read back by decodeLength: the tag, then the length of v
      carried by exactly L(v), then v, whatever follows. */
  lemma TlvReadBack(t: Byte, v: seq<Byte>, rest: seq<Byte>)
    requires |v| < Der.MaxLength
    ensures var buf := Tlv(t, v) + rest;
            && buf[0] == t
            && Der.LengthAt(buf, 1) == Some(Der.Decoded(|v|, L(v)))
            && buf[1 + |L(v)|..1 + |L(v)| + |v|] == v
  {
    var buf := Tlv(t, v) + rest;
    TlvParts(t, L(v), v, rest);
    LMatchesDer(v);
    Der.LengthRoundTrip(|v|, v + rest);
    Der.LengthAtShift(buf, 1, L(v) + (v + rest));
  }

  /** Where the parts of a tag, length octets, value and trailer sit. */
  lemma TlvParts(t: Byte, lo: seq<Byte>, v: seq<Byte>, rest: seq<Byte>)
    ensures var buf := [t] + lo + v + rest;
            && buf[0] == t
            && buf[1..] == lo + (v + rest)
            && buf[1 + |lo|..1 + |lo| + |v|] == v
  {
    var buf := [t] + lo + v + rest;
    assert buf[1..] == lo + (v + rest);
  }

  function BitString(buf: seq<Byte>, unused: Byte): seq<Byte>
    requires |buf| + 1 < Der.MaxLength
  {
    Tlv(0x03, [unused] + buf)
  }

  function Integer(buf: seq<Byte>): seq<Byte>
    requires |buf| < Der.MaxLength
  {
    Tlv(0x02, buf)
  }

  /** UInteger: one 0x00 in front unless the first byte is below 128 (the
      comparison with the undefined first byte of an empty buffer is
      false, so an empty buffer becomes 00). */
  function UInteger(buf: seq<Byte>): seq<Byte>
    requires |buf| + 1 < Der.MaxLength
  {
    if |buf| > 0 && buf[0] < 128 then Integer(buf) else Integer([0x00] + buf)
  }

  function Sequence(buf: seq<Byte>): seq<Byte>
    requires |buf| < Der.MaxLength
  {
    Tlv(0x30, buf)
  }

  function Set(buf: seq<Byte>): seq<Byte>
    requires |buf| < Der.MaxLength
  {
    Tlv(0x31, buf)
  }

  function Utf8String(buf: seq<Byte>): seq<Byte>
    requires |buf| < Der.MaxLength
  {
    Tlv(0x0C, buf)
  }

  /** The content UInteger encodes starts below 0x80, so it reads as a
      non-negative INTEGER, and its value is the unsigned value of buf. */
  lemma UIntegerContent(buf: seq<Byte>)
    requires |buf| + 1 < Der.MaxLength
    ensures var c := if |buf| > 0 && buf[0] < 128 then buf else [0x00] + buf;
            && UInteger(buf) == Integer(c)
            && c[0] < 0x80 && Der.SignedValue(c) == BeValue(buf)
  {
    if !(|buf| > 0 && buf[0] < 128) {
      var c := [0x00] + buf;
      assert c[1..] == buf;
    }
  }

  /** Where buf has no redundant leading zero, UInteger is what
      encodeInteger of lib/der.js emits for an unsigned value. */
  lemma UIntegerMatchesDer(buf: seq<Byte>)
    requires 0 < |buf| && |buf| + 1 < Der.MaxLength
    requires |buf| >= 2 ==> !Der.Redundant(buf[0], buf[1])
    ensures UInteger(buf) == Der.IntegerTlv(buf, true)
  {
    if buf[0] < 128 {
      assert Der.IntegerContent(buf, true) == buf;
      LMatchesDer(buf);
    } else {
      LMatchesDer([0x00] + buf);
    }
  }

  /** The BIT STRING of lib/der.js's encodeEcdsaSignature is
      BitString(Sequence(r s), 0) in the terms of this file. */
  lemma SignatureMatchesDer(r: seq<Byte>, s: seq<Byte>)
    requires |r| + |s| <= 70
    ensures Der.SignatureOf(r, s) == BitString(Sequence(r + s), 0x00)
  {
    assert [0x00] + Sequence(r + s) == [0x00, 0x30, |r| + |s|] + (r + s);
  }

  // ---- OBJECT IDENTIFIER ----

  /** The big-endian 7-bit groups of n: as many as n's binary digits fill,
      one for 0, as after padding `n.toString(2)` to a multiple of 7. */
  function Septets(n: nat): (g: seq<nat>)
    ensures |g| >= 1 && forall i :: 0 <= i < |g| ==> g[i] < 128
  {
    if n < 128 then [n] else Septets(n / 128) + [n % 128]
  }

  /** Every group with bit 7 set (`x | 0x80`). */
  function Marks(h: seq<nat>): (s: seq<Byte>)
    requires forall i :: 0 <= i < |h| ==> h[i] < 128
    ensures |s| == |h|
  {
    if h == [] then [] else [OrByte(h[0], 0x80)] + Marks(h[1..])
  }

  /** base128: the groups, bit 7 set on all but the last. */
  function Base128(n: nat): seq<Byte>
  {
    var g := Septets(n);
    Marks(g[..|g| - 1]) + [g[|g| - 1]]
  }

  /** x | 0x80 is x + 0x80 for a group x. */
  lemma MarkByte(x: nat)
    requires x < 128
    ensures OrByte(x, 0x80) == x + 0x80
  {
    Der.LongFormFlag(x);
    BitOrCommutes(x, 0x80);
  }

  lemma {:induction false} MarksHigh(h: seq<nat>)
    requires forall i :: 0 <= i < |h| ==> h[i] < 128
    ensures forall i :: 0 <= i < |h| ==> Marks(h)[i] == h[i] + 0x80
  {
    if h != [] {
      MarkByte(h[0]);
      MarksHigh(h[1..]);
      assert Marks(h) == [OrByte(h[0], 0x80)] + Marks(h[1..]);
    }
  }

  /** The leading group of a positive number is not zero. */
  lemma {:induction false} SeptetsLead(n: nat)
    requires n > 0
    ensures Septets(n)[0] > 0
  {
    if n >= 128 {
      SeptetsLead(n / 128);
    }
  }

  /** base128 ends with its only byte below 0x80, every other byte has
      bit 7 set, its first group is not zero unless n is, and 0 gives 00. */
  lemma Base128Facts(n: nat)
    ensures var s := Base128(n);
            && |s| >= 1 && s[|s| - 1] < 0x80
            && (forall i :: 0 <= i < |s| - 1 ==> s[i] >= 0x80)
            && (|s| > 1 ==> s[0] != 0x80)
            && (n == 0 <==> s == [0])
  {
    var g := Septets(n);
    var s := Base128(n);
    MarksHigh(g[..|g| - 1]);
    if n > 0 {
      SeptetsLead(n);
      if |g| == 1 {
        assert s == [g[0]];
      }
    }
  }

  /** The arcs read back from concatenated subidentifiers: bytes with bit
      7 set accumulate seven bits each, a byte without ends the arc. */
  function ParseArcs(s: seq<Byte>, acc: nat): seq<nat>
    decreases |s|
  {
    if s == [] then []
    else if s[0] >= 0x80 then ParseArcs(s[1..], acc * 128 + (s[0] - 0x80))
    else [acc * 128 + s[0]] + ParseArcs(s[1..], 0)
  }

  /** Groups folded into a number from acc, most significant first. */
  function Fold(acc: nat, g: seq<nat>): nat
    decreases |g|
  {
    if g == [] then acc else Fold(acc * 128 + g[0], g[1..])
  }

  lemma {:induction false} FoldSnoc(acc: nat, g: seq<nat>, x: nat)
    ensures Fold(acc, g + [x]) == Fold(acc, g) * 128 + x
    decreases |g|
  {
    if g != [] {
      assert (g + [x])[1..] == g[1..] + [x];
      FoldSnoc(acc * 128 + g[0], g[1..], x);
    }
  }

  /** The groups of n fold back to n. */
  lemma {:induction false} SeptetsFold(n: nat)
    ensures Fold(0, Septets(n)) == n
  {
    if n >= 128 {
      SeptetsFold(n / 128);
      FoldSnoc(0, Septets(n / 128), n % 128);
    }
  }

  /** Marked groups and a last group parse as one arc. */
  lemma {:induction false} ParseMarked(h: seq<nat>, last: nat, rest: seq<Byte>, acc: nat)
    requires forall i :: 0 <= i < |h| ==> h[i] < 128
    requires last < 128
    ensures ParseArcs(Marks(h) + [last] + rest, acc) == [Fold(acc, h + [last])] + ParseArcs(rest, 0)
    decreases |h|
  {
    if h == [] {
      assert Marks(h) + [last] + rest == [last] + rest;
    } else {
      MarkByte(h[0]);
      assert Marks(h) + [last] + rest == [OrByte(h[0], 0x80)] + (Marks(h[1..]) + [last] + rest);
      ParseMarked(h[1..], last, rest, acc * 128 + h[0]);
      assert (h + [last])[1..] == h[1..] + [last];
    }
  }

  /** base128 of n, followed by anything, parses as n and then the rest. */
  lemma Base128RoundTrip(n: nat, rest: seq<Byte>)
    ensures ParseArcs(Base128(n) + rest, 0) == [n] + ParseArcs(rest, 0)
  {
    var g := Septets(n);
    ParseMarked(g[..|g| - 1], g[|g| - 1], rest, 0);
    assert g[..|g| - 1] + [g[|g| - 1]] == g;
    SeptetsFold(n);
  }

  lemma Base128Examples()
    ensures Base128(0) == [0x00]
    ensures Base128(840) == [0x86, 0x48]
    ensures Base128(10045) == [0xCE, 0x3D]
  {
    Base128At840();
    Base128At10045();
  }

  /** The subidentifiers of a list of arcs, each arc on its own. */
  function Subidentifiers(arcs: seq<nat>): seq<Byte>
  {
    if arcs == [] then [] else Base128(arcs[0]) + Subidentifiers(arcs[1..])
  }

  /** The subidentifiers parse back into the arcs. */
  lemma {:induction false} SubidentifiersRoundTrip(arcs: seq<nat>)
    ensures ParseArcs(Subidentifiers(arcs), 0) == arcs
  {
    if arcs != [] {
      Base128RoundTrip(arcs[0], Subidentifiers(arcs[1..]));
      SubidentifiersRoundTrip(arcs[1..]);
    }
  }

  /** OID as written in csr.js:40-41, on the arcs of the dotted string:
      every arc is its own subidentifier. */
  function Oid(arcs: seq<nat>): seq<Byte>
    requires |Subidentifiers(arcs)| < Der.MaxLength
  {
    Tlv(0x06, Subidentifiers(arcs))
  }

  /** An OBJECT IDENTIFIER as X.690 section 8.19.4 encodes it: the first
      two arcs X.Y share the subidentifier 40 X + Y. */
  predicate ValidArcs(arcs: seq<nat>)
  {
    |arcs| >= 2 && arcs[0] <= 2 && (arcs[0] < 2 ==> arcs[1] < 40)
  }

  function OidContent(arcs: seq<nat>): seq<Byte>
    requires ValidArcs(arcs)
  {
    Base128(40 * arcs[0] + arcs[1]) + Subidentifiers(arcs[2..])
  }

  function StandardOid(arcs: seq<nat>): seq<Byte>
    requires ValidArcs(arcs) && |OidContent(arcs)| < Der.MaxLength
  {
    Tlv(0x06, OidContent(arcs))
  }

  /** Splitting the first subidentifier back into two arcs, as X.690
      section 8.19.4 prescribes. */
  function SplitFirst(v: nat): (nat, nat)
  {
    if v < 40 then (0, v) else if v < 80 then (1, v - 40) else (2, v - 80)
  }

  /** The standard content parses back into the arcs: the first value
      splits into the first two arcs, the others are the remaining arcs. */
  lemma StandardOidRoundTrip(arcs: seq<nat>)
    requires ValidArcs(arcs)
    ensures var parsed := ParseArcs(OidContent(arcs), 0);
            && |parsed| == |arcs| - 1
            && SplitFirst(parsed[0]) == (arcs[0], arcs[1])
            && parsed[1..] == arcs[2..]
  {
    Base128RoundTrip(40 * arcs[0] + arcs[1], Subidentifiers(arcs[2..]));
    SubidentifiersRoundTrip(arcs[2..]);
  }

  /** An arc below 128 is one byte. */
  lemma SmallArc(n: nat)
    requires n < 128
    ensures Base128(n) == [n]
  {
  }

  /** Subidentifiers of one arc more. */
  lemma SubidentifiersCons(x: nat, arcs: seq<nat>)
    ensures Subidentifiers([x] + arcs) == Base128(x) + Subidentifiers(arcs)
  {
    assert ([x] + arcs)[1..] == arcs;
  }

  lemma Base128At840()
    ensures Base128(840) == [0x86, 0x48]
  {
    MarkByte(6);
    assert Septets(840) == [6, 72];
  }

  lemma Base128At10045()
    ensures Base128(10045) == [0xCE, 0x3D]
  {
    MarkByte(78);
    assert Septets(10045) == [78, 61];
  }

  /** The arcs 2.1 that end id-ecPublicKey. */
  lemma EcArcsTail()
    ensures Subidentifiers([2, 1]) == [0x02, 0x01]
  {
    SmallArc(1);
    SmallArc(2);
    SubidentifiersCons(1, []);
    SubidentifiersCons(2, [1]);
    assert [2, 1] == [2] + [1];
  }

  /** The arcs 840.10045.2.1 of id-ecPublicKey after the first two. */
  lemma EcArcs()
    ensures Subidentifiers([840, 10045, 2, 1]) == [0x86, 0x48, 0xCE, 0x3D, 0x02, 0x01]
  {
    Base128At840();
    Base128At10045();
    EcArcsTail();
    var a2: seq<nat> := [2, 1];
    var a1: seq<nat> := [10045] + a2;
    SubidentifiersCons(10045, a2);
    SubidentifiersCons(840, a1);
    assert [840] + a1 == [840, 10045, 2, 1];
  }

  /** The arcs of id-ecPublicKey, 1.2.840.10045.2.1. */
  const EcPublicKey: seq<nat> := [1, 2, 840, 10045, 2, 1]

  /** Two leading arcs, each on its own. */
  lemma SubidentifiersCons2(x: nat, y: nat, arcs: seq<nat>)
    ensures Subidentifiers([x, y] + arcs) == Base128(x) + Base128(y) + Subidentifiers(arcs)
  {
    SubidentifiersCons(y, arcs);
    assert [x, y] + arcs == [x] + ([y] + arcs);
    SubidentifiersCons(x, [y] + arcs);
  }

  /** The content of an X.690 OBJECT IDENTIFIER split at its first
      subidentifier. */
  lemma OidContentCons2(x: nat, y: nat, arcs: seq<nat>)
    requires ValidArcs([x, y] + arcs)
    ensures OidContent([x, y] + arcs) == Base128(40 * x + y) + Subidentifiers(arcs)
  {
    assert ([x, y] + arcs)[2..] == arcs;
  }

  /** A TLV whose value is shorter than 128 octets has a one-octet length. */
  lemma ShortTlv(t: Byte, v: seq<Byte>)
    requires |v| < 128
    ensures Tlv(t, v) == [t, |v| as Byte] + v
  {
  }

  /** Each arc on its own: 01 02 86 48 CE 3D 02 01. */
  lemma EcPublicKeySubidentifiers()
    ensures Subidentifiers(EcPublicKey) == [0x01, 0x02, 0x86, 0x48, 0xCE, 0x3D, 0x02, 0x01]
  {
    var six: seq<Byte> := [0x86, 0x48, 0xCE, 0x3D, 0x02, 0x01];
    assert [0x01] + [0x02] + six == [0x01, 0x02, 0x86, 0x48, 0xCE, 0x3D, 0x02, 0x01];
    var tail: seq<nat> := [840, 10045, 2, 1];
    assert EcPublicKey == [1, 2] + tail;
    EcArcs();
    SmallArc(1);
    SmallArc(2);
    SubidentifiersCons2(1, 2, tail);
  }

  /** For id-ecPublicKey, OID as written emits ten octets with 1 and 2 as
      separate subidentifiers. */
  lemma OidAsWrittenSplitsFirstArcs()
    ensures Oid(EcPublicKey) == [0x06, 0x08, 0x01, 0x02, 0x86, 0x48, 0xCE, 0x3D, 0x02, 0x01]
  {
    var v: seq<Byte> := [0x01, 0x02, 0x86, 0x48, 0xCE, 0x3D, 0x02, 0x01];
    assert [0x06, 0x08] + v == [0x06, 0x08, 0x01, 0x02, 0x86, 0x48, 0xCE, 0x3D, 0x02, 0x01];
    EcPublicKeySubidentifiers();
    ShortTlv(0x06, v);
  }

  /** The content octets X.690 gives for id-ecPublicKey. */
  lemma EcPublicKeyContent()
    ensures ValidArcs(EcPublicKey)
    ensures OidContent(EcPublicKey) == [0x2A, 0x86, 0x48, 0xCE, 0x3D, 0x02, 0x01]
  {
    var six: seq<Byte> := [0x86, 0x48, 0xCE, 0x3D, 0x02, 0x01];
    assert [0x2A] + six == [0x2A, 0x86, 0x48, 0xCE, 0x3D, 0x02, 0x01];
    var tail: seq<nat> := [840, 10045, 2, 1];
    assert EcPublicKey == [1, 2] + tail;
    EcArcs();
    SmallArc(42);
    OidContentCons2(1, 2, tail);
  }

  /** X.690 gives the nine octets 06 07 2A 86 48 CE 3D 02 01 for
      id-ecPublicKey, as the certificate template carries them. */
  lemma StandardOidAtEcPublicKey()
    ensures ValidArcs(EcPublicKey)
    ensures StandardOid(EcPublicKey) == [0x06, 0x07, 0x2A, 0x86, 0x48, 0xCE, 0x3D, 0x02, 0x01]
  {
    var v: seq<Byte> := [0x2A, 0x86, 0x48, 0xCE, 0x3D, 0x02, 0x01];
    assert [0x06, 0x07] + v == [0x06, 0x07, 0x2A, 0x86, 0x48, 0xCE, 0x3D, 0x02, 0x01];
    EcPublicKeyContent();
    ShortTlv(0x06, v);
  }

  /** A TLV whose value has 128 to 255 octets has the length octets 81 n. */
  lemma LongTlv1(t: Byte, v: seq<Byte>)
    requires 0x80 <= |v| < 0x100
    ensures Tlv(t, v) == [t, 0x81, |v|] + v
  {
    LMatchesDer(v);
    Der.LengthOctetsOneByte(|v|);
  }

  /** Arcs below 128 are one subidentifier octet each. */
  lemma SmallArcs2(a: nat, b: nat)
    requires a < 128 && b < 128
    ensures Subidentifiers([a, b]) == [a, b]
  {
    SmallArc(a);
    SmallArc(b);
    SubidentifiersCons(b, []);
    SubidentifiersCons(a, [b]);
    assert [a, b] == [a] + [b];
  }

  lemma SmallArcs3(a: nat, b: nat, c: nat)
    requires a < 128 && b < 128 && c < 128
    ensures Subidentifiers([a, b, c]) == [a, b, c]
  {
    SmallArcs2(b, c);
    SmallArc(a);
    SubidentifiersCons(a, [b, c]);
    assert [a, b, c] == [a] + [b, c];
  }

  /** Every OBJECT IDENTIFIER under ansi-X9-62 (1.2.840.10045) starts with
      the content octets 2A 86 48 CE 3D. */
  lemma AnsiX962Content(tail: seq<nat>)
    ensures ValidArcs([1, 2, 840, 10045] + tail)
    ensures OidContent([1, 2, 840, 10045] + tail) == [0x2A, 0x86, 0x48, 0xCE, 0x3D] + Subidentifiers(tail)
  {
    var sub := Subidentifiers(tail);
    assert [0x2A] + ([0x86, 0x48] + [0xCE, 0x3D] + sub) == [0x2A, 0x86, 0x48, 0xCE, 0x3D] + sub;
    var arcs := [1, 2] + ([840, 10045] + tail);
    assert arcs == [1, 2, 840, 10045] + tail;
    OidContentCons2(1, 2, [840, 10045] + tail);
    SubidentifiersCons2(840, 10045, tail);
    Base128At840();
    Base128At10045();
    SmallArc(42);
  }
}
