/**
 * The certificate signing request template of lib/cert.js and the
 * certificate element code of lib/ecc.js (getEffectiveOffset,
 * atcertSetCertElement, atcacertGetTBS), after Microchip's atcacert
 * library. The template's 254 bytes are written as their DER parts, in
 * the order of lib/cert.js:47-62; the lemmas show that each part is what
 * the encoders of Csr and Der produce, and that the definition's
 * locations point at those parts. lib/cert.js itself does not load (the
 * declaration at line 139 is not valid JavaScript); what is modelled are
 * the constant bytes and the definition it writes out.
 */
module Cert {
  import opened Base
  import Der
  import Csr

  // atcacert_cert_type_t
  const CertTypeX509: nat := 0
  const CertTypeCustom: nat := 1

  // atcacert_cert_sn_src_t (the ones the model uses)
  const SnSrcStored: nat := 0x0
  const SnSrcStoredDynamic: nat := 0x7
  const SnSrcDeviceSn: nat := 0x8
  const SnSrcSignerId: nat := 0x9
  const SnSrcPubKeyHash: nat := 0xA

  // atcacert_device_zone_t
  const DevZoneConfig: nat := 0x00
  const DevZoneOtp: nat := 0x01
  const DevZoneData: nat := 0x02
  const DevZoneNone: nat := 0x07

  // atcacert_std_cert_element_t
  const StdPublicKey: nat := 0
  const StdSignature: nat := 1
  const StdIssueDate: nat := 2
  const StdExpireDate: nat := 3
  const StdSignerId: nat := 4
  const StdCertSn: nat := 5
  const StdAuthKeyId: nat := 6
  const StdSubjKeyId: nat := 7
  const StdNumElements: nat := 8

  // atcacert_date_format_t (the one the definition uses)
  const DateFmtRfc5280Utc: nat := 1

  /** Where an element lies in the certificate. */
  datatype CertLoc = CertLoc(offset: nat, count: nat)

  /** Where an element's data lies on the device. */
  datatype DeviceLoc = DeviceLoc(zone: nat, slot: nat, isGenKey: bool, offset: nat, count: nat)

  /** A certificate definition. The optional list of custom elements is
      null in the only definition there is and is kept as its count. */
  datatype CertDef = CertDef(
    certType: nat,
    templateId: nat,
    chainId: nat,
    privateKeySlot: nat,
    snSource: nat,
    certSnDevLoc: DeviceLoc,
    issueDateFormat: nat,
    expireDateFormat: nat,
    tbsCertLoc: CertLoc,
    expireYears: nat,
    publicKeyDevLoc: DeviceLoc,
    compCertDevLoc: DeviceLoc,
    stdCertElements: seq<CertLoc>,
    certElementsCount: nat,
    certTemplate: seq<Byte>,
    certTemplateSize: nat)

  /** Bytes 0..2, CertificationRequest: SEQUENCE of 251 octets. */
  const CsrHeader: seq<Byte> := [0x30, 0x81, 0xFB]
  /** Bytes 3..5, CertificationRequestInfo: SEQUENCE of 162 octets. */
  const TbsHeader: seq<Byte> := [0x30, 0x81, 0xA2]
  /** Bytes 6..8, version: INTEGER 0. */
  const Version: seq<Byte> := [0x02, 0x01, 0x00]
  /** Bytes 9..57, subject: O=Example Inc, CN=Example Device, each value a
      UTF8String. */
  const SubjectHeader: seq<Byte> := [0x30, 0x2F]
  const OrgHeader: seq<Byte> := [0x31, 0x14, 0x30, 0x12, 0x06, 0x03, 0x55, 0x04, 0x0A, 0x0C, 0x0B]
  /** "Example Inc" */
  const ExampleInc: seq<Byte> := [0x45, 0x78, 0x61, 0x6D, 0x70, 0x6C, 0x65, 0x20, 0x49, 0x6E, 0x63]
  const CnHeader: seq<Byte> := [0x31, 0x17, 0x30, 0x15, 0x06, 0x03, 0x55, 0x04, 0x03, 0x0C, 0x0E]
  /** "Example Device" */
  const ExampleDevice: seq<Byte> := [0x45, 0x78, 0x61, 0x6D, 0x70, 0x6C, 0x65, 0x20, 0x44, 0x65, 0x76, 0x69, 0x63, 0x65]
  const Subject: seq<Byte> := SubjectHeader + OrgHeader + ExampleInc + CnHeader + ExampleDevice
  /** Bytes 58..59, subjectPKInfo: SEQUENCE of 89 octets. */
  const SpkiHeader: seq<Byte> := [0x30, 0x59]
  /** Bytes 60..61, its AlgorithmIdentifier: SEQUENCE of 19 octets. */
  const AlgHeader: seq<Byte> := [0x30, 0x13]
  /** Bytes 62..70, id-ecPublicKey. */
  const AlgOid: seq<Byte> := [0x06, 0x07, 0x2A, 0x86, 0x48, 0xCE, 0x3D, 0x02, 0x01]
  /** Bytes 71..80, prime256v1. */
  const CurveOid: seq<Byte> := [0x06, 0x08, 0x2A, 0x86, 0x48, 0xCE, 0x3D, 0x03, 0x01, 0x07]
  /** Bytes 81..84, subjectPublicKey: BIT STRING of 66 octets, no unused bits, uncompressed point. */
  const KeyHeader: seq<Byte> := [0x03, 0x42, 0x00, 0x04]
  /** Bytes 85..148, the 64 bytes X || Y of the public key. */
  const PublicKey: seq<Byte> := [
      0xD8, 0x70, 0xA4, 0xDF, 0x98, 0xB4, 0x6A, 0x93, 0x2B, 0xF7, 0x40, 0x39,
      0x86, 0x0F, 0xED, 0xD6, 0x69, 0x03, 0x6A, 0xE7, 0xE4, 0x84, 0x9F, 0xFC,
      0xFB, 0x61, 0x50, 0x63, 0x21, 0x95, 0xA8, 0x91, 0x2C, 0x98, 0x04, 0x0E,
      0x9C, 0x2F, 0x03, 0xE1, 0xE4, 0x2E, 0xC7, 0x93, 0x8C, 0x6B, 0xF4, 0xFB,
      0x98, 0x4C, 0x50, 0xDB, 0x51, 0xA3, 0xEE, 0x04, 0x1B, 0x55, 0xF0, 0x60,
      0x63, 0xEB, 0x46, 0x90
    ]
  /** Bytes 149..167, attributes [0]: one extensionRequest with no extensions. */
  const Attributes: seq<Byte> := [0xA0, 0x11, 0x30, 0x0F] + ExtReqOid + [0x31, 0x02, 0x30, 0x00]
  /** Bytes 153..163, the attribute's type. */
  const ExtReqOid: seq<Byte> := [0x06, 0x09, 0x2A, 0x86, 0x48, 0x86, 0xF7, 0x0D, 0x01, 0x09, 0x0E]
  /** Bytes 168..179, signatureAlgorithm: ecdsa-with-SHA256. */
  const SigAlg: seq<Byte> := [0x30, 0x0A, 0x06, 0x08, 0x2A, 0x86, 0x48, 0xCE, 0x3D, 0x04, 0x03, 0x02]
  /** Bytes 180..186, signature: BIT STRING of 72 octets holding a SEQUENCE of 69 octets and its first INTEGER header. */
  const SigHeader: seq<Byte> := [0x03, 0x48, 0x00, 0x30, 0x45, 0x02, 0x20]
  /** Bytes 187..218, r, 32 bytes, top bit clear. */
  const SigR: seq<Byte> := [
      0x26, 0xAB, 0x8A, 0x4F, 0x71, 0x2C, 0xF9, 0xBB, 0x4F, 0xFA, 0xA4, 0xCD,
      0x01, 0x48, 0xF1, 0xDF, 0x9C, 0xDC, 0xFF, 0xA0, 0xFF, 0x53, 0x8F, 0x35,
      0x8D, 0xD4, 0x3D, 0x49, 0xC0, 0x72, 0xF5, 0x0A
    ]
  /** Bytes 219..221, the second INTEGER header with its 0x00 pad. */
  const SigSHeader: seq<Byte> := [0x02, 0x21, 0x00]
  /** Bytes 222..253, s, 32 bytes, top bit set. */
  const SigS: seq<Byte> := [
      0xA5, 0x9D, 0xB4, 0x11, 0x4B, 0xA1, 0x65, 0x7C, 0xBB, 0x48, 0xCF, 0x6D,
      0xF6, 0xD0, 0x6A, 0x41, 0x00, 0x96, 0xE1, 0xE2, 0x79, 0x73, 0xDB, 0xF7,
      0x97, 0x80, 0x41, 0x9B, 0x35, 0x01, 0x88, 0x5E
    ]


  /** Bytes 58..148, subjectPKInfo. */
  const SubjectPkInfo: seq<Byte> := SpkiHeader + AlgHeader + AlgOid + CurveOid + KeyHeader + PublicKey
  /** Bytes 6..167, the content of CertificationRequestInfo. */
  const TbsContent: seq<Byte> := Version + Subject + SubjectPkInfo + Attributes
  /** Bytes 3..167, the part the signature covers. */
  const Tbs: seq<Byte> := TbsHeader + TbsContent
  /** Bytes 180..253. */
  const Signature: seq<Byte> := SigHeader + SigR + SigSHeader + SigS

  /** g_csr_template_2_device. */
  const CsrTemplate: seq<Byte> := CsrHeader + Tbs + SigAlg + Signature

  const NoDeviceLoc: DeviceLoc := DeviceLoc(DevZoneNone, 0, false, 0, 0)
  const NoElement: CertLoc := CertLoc(0, 0)

  /** g_csr_def_2_device. */
  const CsrDef: CertDef := CertDef(
    CertTypeX509, 3, 0, 0, SnSrcPubKeyHash,
    NoDeviceLoc,
    DateFmtRfc5280Utc, DateFmtRfc5280Utc,
    CertLoc(3, 165),
    0,
    DeviceLoc(DevZoneNone, 0, true, 0, 64),
    NoDeviceLoc,
    [CertLoc(85, 64), CertLoc(180, 74), NoElement, NoElement, NoElement, NoElement, NoElement, NoElement],
    0,
    CsrTemplate,
    |CsrTemplate|)

  // ---------------------------------------------------------------------
  // The template's parts are the DER encodings they stand for.

  const OrganizationName: seq<nat> := [2, 5, 4, 10]
  const CommonName: seq<nat> := [2, 5, 4, 3]
  const Prime256v1: seq<nat> := [1, 2, 840, 10045, 3, 1, 7]
  const EcdsaWithSha256: seq<nat> := [1, 2, 840, 10045, 4, 3, 2]
  const ExtensionRequest: seq<nat> := [1, 2, 840, 113549, 1, 9, 14]

  /** A SEQUENCE header with a one-byte long-form length, and its content. */
  lemma LongSequence(h: seq<Byte>, v: seq<Byte>)
    requires 0x80 <= |v| < 0x100 && h == [0x30, 0x81, |v|]
    ensures h + v == Csr.Sequence(v)
  {
    Csr.LongTlv1(0x30, v);
  }

  /** The lengths of the template's parts. */
  lemma PartLengths()
    ensures |Tbs| == 165 && |TbsContent| == 162 && |SubjectPkInfo| == 91
    ensures |Signature| == 74 && |SigAlg| == 12
    ensures |CsrTemplate| == 254
  {
  }

  /** The definition's template is the template, and its size the
      template's 254 bytes. */
  lemma TemplateSize()
    ensures CsrDef.certTemplate == CsrTemplate
    ensures CsrDef.certTemplateSize == |CsrTemplate| == 254
  {
    PartLengths();
  }

  /** The template is one SEQUENCE whose 251 content bytes are the request
      info, the signature algorithm and the signature. */
  lemma TemplateIsOneSequence()
    ensures CsrTemplate == Csr.Sequence(Tbs + SigAlg + Signature)
  {
    Regroup4(CsrHeader, Tbs, SigAlg, Signature);
    PartLengths();
    LongSequence(CsrHeader, Tbs + SigAlg + Signature);
  }

  /** The request info is one SEQUENCE of 162 content bytes. */
  lemma TbsIsOneSequence()
    ensures Tbs == Csr.Sequence(TbsContent)
  {
    PartLengths();
    LongSequence(TbsHeader, TbsContent);
  }

  /** The version is INTEGER 0. */
  lemma VersionIsZero()
    ensures Version == Csr.Integer([0x00])
  {
    Csr.ShortTlv(0x02, [0x00]);
  }

  /** Bytes 62..70 are id-ecPublicKey in X.690 form. */
  lemma AlgOidIsEcPublicKey()
    ensures Csr.ValidArcs(Csr.EcPublicKey) && |Csr.OidContent(Csr.EcPublicKey)| < Der.MaxLength
    ensures AlgOid == Csr.StandardOid(Csr.EcPublicKey)
  {
    Csr.StandardOidAtEcPublicKey();
    Csr.EcPublicKeyContent();
  }

  /** Bytes 71..80 are prime256v1 (1.2.840.10045.3.1.7) in X.690 form. */
  lemma CurveOidIsPrime256v1()
    ensures Csr.ValidArcs(Prime256v1) && |Csr.OidContent(Prime256v1)| < Der.MaxLength
    ensures CurveOid == Csr.StandardOid(Prime256v1)
  {
    var c: seq<Byte> := [0x2A, 0x86, 0x48, 0xCE, 0x3D] + [3, 1, 7];
    assert CurveOid == [0x06, |c|] + c;
    assert Prime256v1 == [1, 2, 840, 10045] + [3, 1, 7];
    Csr.AnsiX962Content([3, 1, 7]);
    Csr.SmallArcs3(3, 1, 7);
    Csr.ShortTlv(0x06, c);
  }

  /** Bytes 170..179 are ecdsa-with-SHA256 (1.2.840.10045.4.3.2) in X.690
      form. */
  lemma SigOidIsEcdsaWithSha256()
    ensures Csr.ValidArcs(EcdsaWithSha256) && |Csr.OidContent(EcdsaWithSha256)| < Der.MaxLength
    ensures SigAlg[2..] == Csr.StandardOid(EcdsaWithSha256)
  {
    var c: seq<Byte> := [0x2A, 0x86, 0x48, 0xCE, 0x3D] + [4, 3, 2];
    assert SigAlg[2..] == [0x06, |c|] + c;
    assert EcdsaWithSha256 == [1, 2, 840, 10045] + [4, 3, 2];
    Csr.AnsiX962Content([4, 3, 2]);
    Csr.SmallArcs3(4, 3, 2);
    Csr.ShortTlv(0x06, c);
  }

  /** The signature algorithm is the SEQUENCE of ecdsa-with-SHA256 alone. */
  lemma SigAlgIsEcdsaWithSha256()
    ensures Csr.ValidArcs(EcdsaWithSha256) && |Csr.OidContent(EcdsaWithSha256)| < Der.MaxLength
    ensures SigAlg == Csr.Sequence(Csr.StandardOid(EcdsaWithSha256))
  {
    assert SigAlg == [0x30, 10] + SigAlg[2..];
    SigOidIsEcdsaWithSha256();
    Csr.ShortTlv(0x30, SigAlg[2..]);
  }

  /** subjectPKInfo: the AlgorithmIdentifier of the two OIDs, then the key
      as a BIT STRING with no unused bits holding 04 X Y. */
  lemma SubjectPkInfoLayout()
    ensures SubjectPkInfo == Csr.Sequence(Csr.Sequence(AlgOid + CurveOid) + Csr.BitString([0x04] + PublicKey, 0x00))
  {
    var alg := AlgOid + CurveOid;
    var key := [0x00, 0x04] + PublicKey;
    assert AlgHeader == [0x30, |alg|];
    assert KeyHeader + PublicKey == [0x03, |key|] + key;
    Csr.ShortTlv(0x30, alg);
    Csr.ShortTlv(0x03, key);
    var inner := Csr.Sequence(alg) + Csr.BitString([0x04] + PublicKey, 0x00);
    assert SubjectPkInfo == SpkiHeader + inner;
    assert SpkiHeader == [0x30, |inner|];
    Csr.ShortTlv(0x30, inner);
  }

  /** The content of an attribute type under joint-iso-itu-t ds
      attributeType (2.5.4). */
  lemma AttributeTypeContent(t: nat)
    requires t < 128
    ensures Csr.ValidArcs([2, 5, 4, t])
    ensures Csr.OidContent([2, 5, 4, t]) == [0x55, 0x04, t]
  {
    assert [0x55] + [0x04, t] == [0x55, 0x04, t];
    assert [2, 5, 4, t] == [2, 5] + [4, t];
    Csr.OidContentCons2(2, 5, [4, t]);
    Csr.SmallArc(85);
    Csr.SmallArcs2(4, t);
  }

  lemma AttributeTypeOid(t: nat)
    requires t < 128
    ensures Csr.ValidArcs([2, 5, 4, t]) && |Csr.OidContent([2, 5, 4, t])| < Der.MaxLength
    ensures Csr.StandardOid([2, 5, 4, t]) == [0x06, 0x03, 0x55, 0x04, t]
  {
    AttributeTypeContent(t);
    Csr.ShortTlv(0x06, [0x55, 0x04, t]);
  }

  /** One relative distinguished name with a single UTF8String value. */
  function Rdn(t: nat, value: seq<Byte>): seq<Byte>
    requires t < 128 && |value| < 100
  {
    AttributeTypeOid(t);
    Csr.Set(Csr.Sequence(Csr.StandardOid([2, 5, 4, t]) + Csr.Utf8String(value)))
  }

  /** The layout of one such name: 31 n+9 30 n+7 06 03 55 04 t 0C n value. */
  lemma RdnLayout(t: nat, value: seq<Byte>)
    requires t < 128 && |value| < 100
    ensures Rdn(t, value) == [0x31, |value| + 9, 0x30, |value| + 7, 0x06, 0x03, 0x55, 0x04, t, 0x0C, |value|] + value
  {
    var atv := [0x06, 0x03, 0x55, 0x04, t] + ([0x0C, |value|] + value);
    assert [0x31, |value| + 9] + ([0x30, |value| + 7] + atv)
        == [0x31, |value| + 9, 0x30, |value| + 7, 0x06, 0x03, 0x55, 0x04, t, 0x0C, |value|] + value;
    AttributeTypeOid(t);
    Csr.ShortTlv(0x0C, value);
    Csr.ShortTlv(0x30, atv);
    Csr.ShortTlv(0x31, Csr.Sequence(atv));
  }

  /** The subject is O=Example Inc, CN=Example Device. */
  lemma SubjectNames()
    ensures Subject == Csr.Sequence(Rdn(10, ExampleInc) + Rdn(3, ExampleDevice))
  {
    var o := OrgHeader + ExampleInc;
    var c := CnHeader + ExampleDevice;
    assert Subject == SubjectHeader + (o + c);
    assert SubjectHeader == [0x30, |o + c|];
    RdnLayout(10, ExampleInc);
    RdnLayout(3, ExampleDevice);
    Csr.ShortTlv(0x30, o + c);
  }

  lemma Base128At113549()
    ensures Csr.Base128(113549) == [0x86, 0xF7, 0x0D]
  {
    assert Csr.Septets(887) == [6, 119];
    assert Csr.Septets(113549) == [6, 119, 13];
    Csr.MarkByte(6);
    Csr.MarkByte(119);
    assert Csr.Marks([6, 119]) == [0x86, 0xF7];
  }

  /** extensionRequest (1.2.840.113549.1.9.14) in X.690 form. */
  lemma ExtensionRequestOid()
    ensures Csr.ValidArcs(ExtensionRequest) && |Csr.OidContent(ExtensionRequest)| < Der.MaxLength
    ensures Csr.StandardOid(ExtensionRequest) == ExtReqOid
  {
    var c: seq<Byte> := [0x2A] + ([0x86, 0x48] + [0x86, 0xF7, 0x0D] + [1, 9, 14]);
    assert ExtReqOid == [0x06, |c|] + c;
    var tail: seq<nat> := [840, 113549] + [1, 9, 14];
    assert ExtensionRequest == [1, 2] + tail;
    Csr.OidContentCons2(1, 2, tail);
    Csr.SubidentifiersCons2(840, 113549, [1, 9, 14]);
    Csr.SmallArcs3(1, 9, 14);
    Csr.Base128At840();
    Base128At113549();
    Csr.SmallArc(42);
    Csr.ShortTlv(0x06, c);
  }

  /** The attributes: [0] holding one extensionRequest attribute whose
      value is a SET of one empty Extensions SEQUENCE. */
  lemma AttributesLayout()
    ensures Attributes == Csr.Tlv(0xA0, Csr.Sequence(ExtReqOid + Csr.Set(Csr.Sequence([]))))
  {
    var empty: seq<Byte> := [0x30, 0x00];
    var exts: seq<Byte> := [0x31, 0x02] + empty;
    var attr := ExtReqOid + exts;
    assert Attributes == [0xA0, 0x11] + ([0x30, 0x0F] + attr);
    Csr.ShortTlv(0x30, []);
    Csr.ShortTlv(0x31, empty);
    Csr.ShortTlv(0x30, attr);
    Csr.ShortTlv(0xA0, Csr.Sequence(attr));
  }

  /** The signature is what encodeEcdsaSignature makes of r || s: r has its
      top bit clear and is emitted as it is, s has it set and gets a pad. */
  lemma SignatureIsEncoded()
    ensures SigR[0] < 0x80 <= SigS[0]
    ensures Signature == Der.SignatureBitString(SigR + SigS)
  {
    var r := [0x02, 0x20] + SigR;
    var t := [0x02, 0x21, 0x00] + SigS;
    assert Signature == [0x03, 72, 0x00, 0x30, 69] + (r + t);
    assert (SigR + SigS)[..32] == SigR && (SigR + SigS)[32..] == SigS;
    Der.IntegerTlvUnpadded(SigR);
    Der.IntegerTlvPadded(SigS);
  }

  // ---------------------------------------------------------------------
  // The definition's locations point at those parts.

  lemma Regroup4(a: seq<Byte>, b: seq<Byte>, c: seq<Byte>, d: seq<Byte>)
    ensures a + b + c + d == a + (b + c + d)
    ensures a + b + c + d == a + b + (c + d)
  {
  }

  lemma Regroup5(a: seq<Byte>, b: seq<Byte>, c: seq<Byte>, d: seq<Byte>, e: seq<Byte>)
    ensures a + (b + c + d + e) == a + b + c + d + e
  {
  }

  lemma Middle(x: seq<Byte>, m: seq<Byte>, y: seq<Byte>)
    ensures (x + m + y)[|x|..|x| + |m|] == m
  {
  }

  lemma SliceOfSlice(s: seq<Byte>, a: nat, b: nat, c: nat, d: nat)
    requires a <= b <= |s| && c <= d <= b - a
    ensures s[a..b][c..d] == s[a + c..a + d]
  {
    forall i | 0 <= i < d - c
      ensures s[a..b][c..d][i] == s[a + c..a + d][i]
    {
    }
  }

  /** Bytes 3..167 are the request info. */
  lemma TbsAt()
    ensures CsrTemplate[3..168] == Tbs
  {
    Regroup4(CsrHeader, Tbs, SigAlg, Signature);
    PartLengths();
    Middle(CsrHeader, Tbs, SigAlg + Signature);
  }

  /** Bytes 180..253 are the signature, r at 187..218 and s at 222..253. */
  lemma SignatureAt()
    ensures CsrTemplate[180..254] == Signature
    ensures CsrTemplate[187..219] == SigR && CsrTemplate[222..254] == SigS
  {
    PartLengths();
    assert CsrTemplate == CsrHeader + Tbs + SigAlg + Signature + [];
    Middle(CsrHeader + Tbs + SigAlg, Signature, []);
    assert Signature[7..39] == SigR && Signature[42..74] == SigS;
    SliceOfSlice(CsrTemplate, 180, 254, 7, 39);
    SliceOfSlice(CsrTemplate, 180, 254, 42, 74);
  }

  /** Bytes 81..84 are the key's BIT STRING header and 85..148 the key. */
  lemma SubjectPkInfoAt()
    ensures Tbs[55..146] == SubjectPkInfo
  {
    Regroup5(TbsHeader, Version, Subject, SubjectPkInfo, Attributes);
    PartLengths();
    Middle(TbsHeader + Version + Subject, SubjectPkInfo, Attributes);
  }

  lemma PublicKeyAt()
    ensures CsrTemplate[81..85] == KeyHeader
    ensures CsrTemplate[85..149] == PublicKey
  {
    PartLengths();
    TbsAt();
    SubjectPkInfoAt();
    assert SubjectPkInfo[23..27] == KeyHeader && SubjectPkInfo[27..91] == PublicKey;
    SliceOfSlice(Tbs, 55, 146, 23, 27);
    SliceOfSlice(Tbs, 55, 146, 27, 91);
    SliceOfSlice(CsrTemplate, 3, 168, 78, 82);
    SliceOfSlice(CsrTemplate, 3, 168, 82, 146);
  }

  /** The signature bytes of the template are what encodeEcdsaSignature
      makes of the r and s it holds. */
  lemma GoldenSignature()
    ensures Der.SignatureBitString(CsrTemplate[187..219] + CsrTemplate[222..254]) == CsrTemplate[180..254]
  {
    SignatureAt();
    SignatureIsEncoded();
  }

  /** Every location lies inside the template. */
  predicate Within(loc: CertLoc, size: nat)
  {
    loc.offset + loc.count <= size
  }

  predicate WellFormedDef(def: CertDef)
  {
    && |def.stdCertElements| == StdNumElements
    && def.certTemplateSize == |def.certTemplate|
    && Within(def.tbsCertLoc, def.certTemplateSize)
    && forall i :: 0 <= i < |def.stdCertElements| ==> Within(def.stdCertElements[i], def.certTemplateSize)
  }

  lemma CsrDefWellFormed()
    ensures WellFormedDef(CsrDef)
  {
    TemplateSize();
  }

  /** The definition's elements: the public key and the signature as the
      lemmas above place them, every other standard element empty; the key
      is generated in slot 0 and lies inside the signed part, and the
      signature runs to the end of the template. */
  lemma CsrDefElements()
    ensures CsrDef.certType == CertTypeX509 && CsrDef.snSource == SnSrcPubKeyHash
    ensures CsrDef.privateKeySlot == 0
    ensures CsrDef.publicKeyDevLoc.isGenKey && CsrDef.publicKeyDevLoc.count == |PublicKey|
    ensures |CsrDef.stdCertElements| == StdNumElements
    ensures CsrDef.stdCertElements[StdPublicKey] == CertLoc(85, |PublicKey|)
    ensures CsrDef.stdCertElements[StdSignature] == CertLoc(180, |Signature|)
    ensures forall i :: StdSignature < i < StdNumElements ==> CsrDef.stdCertElements[i].count == 0
    ensures CsrDef.tbsCertLoc == CertLoc(3, |Tbs|)
    ensures CsrDef.tbsCertLoc.offset <= 85 && 85 + |PublicKey| <= CsrDef.tbsCertLoc.offset + CsrDef.tbsCertLoc.count
    ensures 180 + |Signature| == CsrDef.certTemplateSize
  {
    PartLengths();
  }

  // ---------------------------------------------------------------------
  // Certificate elements (lib/ecc.js).

  datatype CertError = UnexpectedElementSize | ElementOutOfBounds | TargetOutOfRange | BadCert

  /** The definition stores an X.509 serial number whose first byte is its
      DER size, so elements after it move when that size changes. */
  predicate DynamicSerial(def: CertDef)
  {
    def.certType == CertTypeX509 && def.snSource == SnSrcStoredDynamic
  }

  function SnOffset(def: CertDef): nat
    requires |def.stdCertElements| == StdNumElements
  {
    def.stdCertElements[StdCertSn].offset
  }

  /** The serial number's size byte exists in the certificate and in the
      template whenever getEffectiveOffset reads it. */
  predicate SerialReadable(def: CertDef, cert: seq<Byte>)
  {
    && |def.stdCertElements| == StdNumElements
    && (DynamicSerial(def) ==> SnOffset(def) < |cert| && SnOffset(def) < |def.certTemplate|)
  }

  /** getEffectiveOffset: how far an element at refOffset has moved against
      the template. Only a dynamic serial number moves anything, and only
      what lies after it, by the change of the serial number's size byte. */
  function EffectiveOffset(def: CertDef, cert: seq<Byte>, refOffset: int): (eff: int)
    requires SerialReadable(def, cert)
    ensures -256 < eff < 256
    ensures eff != 0 ==> DynamicSerial(def) && refOffset > SnOffset(def)
    ensures DynamicSerial(def) && refOffset > SnOffset(def) ==>
              cert[SnOffset(def)] == def.certTemplate[SnOffset(def)] + eff
  {
    if !DynamicSerial(def) then 0
    else if refOffset <= SnOffset(def) then 0
    else cert[SnOffset(def)] as int - def.certTemplate[SnOffset(def)] as int
  }

  /** Nothing moves in a certificate built from the CSR definition, whose
      serial number is a public-key hash. */
  lemma CsrDefNeverMoves(cert: seq<Byte>, refOffset: int)
    ensures SerialReadable(CsrDef, cert)
    ensures EffectiveOffset(CsrDef, cert, refOffset) == 0
  {
  }

  /** cert with the bytes from `at` on replaced by data. */
  function Splice(cert: seq<Byte>, at: nat, data: seq<Byte>): seq<Byte>
    requires at + |data| <= |cert|
  {
    cert[..at] + data + cert[at + |data|..]
  }

  /** Splicing keeps the length, puts data at `at` and leaves every other
      byte as it was. */
  lemma SpliceFacts(cert: seq<Byte>, at: nat, data: seq<Byte>)
    requires at + |data| <= |cert|
    ensures |Splice(cert, at, data)| == |cert|
    ensures Splice(cert, at, data)[at..at + |data|] == data
    ensures forall i :: 0 <= i < at ==> Splice(cert, at, data)[i] == cert[i]
    ensures forall i :: at + |data| <= i < |cert| ==> Splice(cert, at, data)[i] == cert[i]
  {
  }

  /** Splicing in the bytes already there changes nothing. */
  lemma SpliceSame(cert: seq<Byte>, at: nat, n: nat)
    requires at + n <= |cert|
    ensures Splice(cert, at, cert[at..at + n]) == cert
  {
    assert cert[..at] + cert[at..at + n] + cert[at + n..] == cert;
  }

  /** A second splice at the same place undoes the first. */
  lemma SpliceTwice(cert: seq<Byte>, at: nat, d1: seq<Byte>, d2: seq<Byte>)
    requires at + |d1| <= |cert| && |d2| == |d1|
    ensures Splice(Splice(cert, at, d1), at, d2) == Splice(cert, at, d2)
  {
    SpliceFacts(cert, at, d1);
    var c1 := Splice(cert, at, d1);
    assert c1[..at] == cert[..at];
    assert c1[at + |d2|..] == cert[at + |d1|..];
  }

  /** What atcertSetCertElement does to the certificate's bytes. */
  function SetCertElementSpec(def: CertDef, loc: CertLoc, cert: seq<Byte>, certSize: nat, data: seq<Byte>)
    : Result<seq<Byte>, CertError>
    requires SerialReadable(def, cert) && certSize <= |cert|
  {
    if loc.count == 0 then Ok(cert)
    else if !(DynamicSerial(def) && loc.offset == SnOffset(def)) && |data| != loc.count then
      Err(UnexpectedElementSize)
    else
      var eff := EffectiveOffset(def, cert, loc.offset);
      if loc.offset + |data| + eff > certSize then Err(ElementOutOfBounds)
      else if loc.offset + eff < 0 then Err(TargetOutOfRange)
      else Ok(Splice(cert, loc.offset + eff, data))
  }

  /** The outcomes of atcertSetCertElement: an empty location succeeds
      untouched; outside a dynamic serial number the data must have the
      location's size; a moved element must still fit. On success exactly
      the data's bytes at the moved offset change. */
  lemma SetCertElementOutcomes(def: CertDef, loc: CertLoc, cert: seq<Byte>, certSize: nat, data: seq<Byte>)
    requires SerialReadable(def, cert) && certSize <= |cert|
    ensures loc.count == 0 ==> SetCertElementSpec(def, loc, cert, certSize, data) == Ok(cert)
    ensures SetCertElementSpec(def, loc, cert, certSize, data) == Err(UnexpectedElementSize) <==>
              loc.count != 0 && !(DynamicSerial(def) && loc.offset == SnOffset(def)) && |data| != loc.count
    ensures !DynamicSerial(def) && loc.count != 0 && |data| == loc.count ==>
              (SetCertElementSpec(def, loc, cert, certSize, data).Ok? <==> loc.offset + loc.count <= certSize)
    ensures SetCertElementSpec(def, loc, cert, certSize, data).Ok? && loc.count != 0 ==>
              var at := loc.offset + EffectiveOffset(def, cert, loc.offset);
              && 0 <= at && at + |data| <= certSize
              && SetCertElementSpec(def, loc, cert, certSize, data).value == Splice(cert, at, data)
  {
  }

  /** atcertSetCertElement: the data is copied into the certificate in
      place, at the element's offset moved by the serial number's change of
      size. On an error the certificate is left as it was. */
  method SetCertElement(def: CertDef, loc: CertLoc, cert: array<Byte>, certSize: nat, data: seq<Byte>)
    returns (r: Result<(), CertError>)
    requires SerialReadable(def, cert[..]) && certSize <= cert.Length
    modifies cert
    ensures SetCertElementSpec(def, loc, old(cert[..]), certSize, data).Ok? <==> r.Ok?
    ensures r.Ok? ==> cert[..] == SetCertElementSpec(def, loc, old(cert[..]), certSize, data).value
    ensures r.Err? ==> Err(r.error) == SetCertElementSpec(def, loc, old(cert[..]), certSize, data)
    ensures r.Err? ==> cert[..] == old(cert[..])
  {
    if loc.count == 0 {
      return Ok(());
    }
    if !(DynamicSerial(def) && loc.offset == SnOffset(def)) && |data| != loc.count {
      return Err(UnexpectedElementSize);
    }
    var eff := EffectiveOffset(def, cert[..], loc.offset);
    if loc.offset + |data| + eff > certSize {
      return Err(ElementOutOfBounds);
    }
    if loc.offset + eff < 0 {
      return Err(TargetOutOfRange);
    }
    var at: nat := loc.offset + eff;
    ghost var before := cert[..];
    forall i | 0 <= i < |data| {
      cert[at + i] := data[i];
    }
    assert cert[..] == Splice(before, at, data) by {
      SpliceFacts(before, at, data);
    }
    r := Ok(());
  }

  /** atcacertGetTBS: the signed part, moved and resized like any element
      after the serial number. */
  function GetTbs(def: CertDef, cert: seq<Byte>, certSize: nat): (r: Result<seq<Byte>, CertError>)
    requires SerialReadable(def, cert) && certSize <= |cert|
    ensures r.Err? ==> r.error == BadCert
  {
    var loc := def.tbsCertLoc;
    var eff := EffectiveOffset(def, cert, loc.offset + loc.count);
    if loc.offset + loc.count + eff > certSize then Err(BadCert)
    else if loc.count + eff <= 0 then Ok([])
    else Ok(cert[loc.offset..loc.offset + loc.count + eff])
  }

  /** Without a dynamic serial number inside it, the signed part is exactly
      the bytes the definition names, or an error when the certificate is
      too short for them. */
  lemma GetTbsStatic(def: CertDef, cert: seq<Byte>, certSize: nat)
    requires SerialReadable(def, cert) && certSize <= |cert|
    requires !DynamicSerial(def) || def.tbsCertLoc.offset + def.tbsCertLoc.count <= SnOffset(def)
    ensures var loc := def.tbsCertLoc;
            GetTbs(def, cert, certSize) ==
              if loc.offset + loc.count > certSize then Err(BadCert)
              else Ok(cert[loc.offset..loc.offset + loc.count])
  {
    var loc := def.tbsCertLoc;
    if loc.count == 0 && loc.offset <= certSize {
      assert cert[loc.offset..loc.offset] == [];
    }
  }

  /** With a dynamic serial number inside it, the signed part still starts
      at the definition's offset but grows or shrinks by the change of the
      serial number's size byte against the template; it is refused exactly
      when its moved end lies past certSize, and is empty when it shrinks to
      nothing. */
  lemma GetTbsDynamic(def: CertDef, cert: seq<Byte>, certSize: nat)
    requires SerialReadable(def, cert) && certSize <= |cert|
    requires DynamicSerial(def) && SnOffset(def) < def.tbsCertLoc.offset + def.tbsCertLoc.count
    ensures var loc := def.tbsCertLoc;
            var d := cert[SnOffset(def)] as int - def.certTemplate[SnOffset(def)] as int;
            var r := GetTbs(def, cert, certSize);
            && (r.Ok? <==> loc.offset + loc.count + d <= certSize)
            && (r.Ok? ==> |r.value| == if loc.count + d > 0 then loc.count + d else 0)
            && (r.Ok? && |r.value| > 0 ==>
                  loc.offset + |r.value| <= certSize && r.value == cert[loc.offset..loc.offset + |r.value|])
  {
  }

  /** For the CSR template the signed part is the request info SEQUENCE. */
  lemma TemplateTbs()
    ensures SerialReadable(CsrDef, CsrTemplate)
    ensures GetTbs(CsrDef, CsrTemplate, |CsrTemplate|) == Ok(Tbs)
  {
    PartLengths();
    TbsAt();
    GetTbsStatic(CsrDef, CsrTemplate, |CsrTemplate|);
  }

  /** Placing any 64-byte public key into the template with the definition's
      public-key element succeeds and splices the key in at byte 85; a key
      of another size is refused. */
  lemma SetPublicKey(key: seq<Byte>)
    ensures SerialReadable(CsrDef, CsrTemplate)
    ensures |key| == 64 ==>
              SetCertElementSpec(CsrDef, CsrDef.stdCertElements[StdPublicKey], CsrTemplate, |CsrTemplate|, key)
                == Ok(Splice(CsrTemplate, 85, key))
    ensures |key| != 64 ==>
              SetCertElementSpec(CsrDef, CsrDef.stdCertElements[StdPublicKey], CsrTemplate, |CsrTemplate|, key)
                == Err(UnexpectedElementSize)
  {
    PartLengths();
  }

  /** After the key is placed, the signed part holds it inside the same
      BIT STRING, after the same SEQUENCE header. */
  lemma TbsWithKey(key: seq<Byte>)
    requires |key| == 64
    ensures SerialReadable(CsrDef, Splice(CsrTemplate, 85, key))
    ensures GetTbs(CsrDef, Splice(CsrTemplate, 85, key), |CsrTemplate|).Ok?
    ensures var tbs := GetTbs(CsrDef, Splice(CsrTemplate, 85, key), |CsrTemplate|).value;
            tbs[..3] == TbsHeader && tbs[78..82] == KeyHeader && tbs[82..146] == key
  {
    PartLengths();
    var c := Splice(CsrTemplate, 85, key);
    SpliceFacts(CsrTemplate, 85, key);
    GetTbsStatic(CsrDef, c, |CsrTemplate|);
    TbsKeyBytes(c, key);
  }

  lemma TbsKeyBytes(c: seq<Byte>, key: seq<Byte>)
    requires |c| == 254 && |key| == 64
    requires c[85..149] == key
    requires forall i :: 0 <= i < 85 ==> c[i] == CsrTemplate[i]
    ensures c[3..168][..3] == TbsHeader && c[3..168][78..82] == KeyHeader && c[3..168][82..146] == key
  {
    assert c[3..6] == CsrTemplate[3..6];
    assert c[81..85] == CsrTemplate[81..85];
    SliceOfSlice(c, 3, 168, 0, 3);
    SliceOfSlice(c, 3, 168, 78, 82);
    SliceOfSlice(c, 3, 168, 82, 146);
    SliceOfSlice(CsrTemplate, 3, 168, 0, 3);
    PublicKeyAt();
    TbsAt();
    assert Tbs[..3] == TbsHeader;
  }
}
