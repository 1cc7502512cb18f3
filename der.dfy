/**
 * The DER encoder of lib/der.js, a port of Microchip's atcacert_der.c:
 * length octets (ITU-T X.690, sections 8.1.3 and 10.1), INTEGER with
 * minimal two's-complement content (X.690 section 8.3.2) and the
 * re-encoding of a raw r || s signature as the BIT STRING that carries an
 * Ecdsa-Sig-Value (RFC 3279, section 2.2.3).
 */
module Der {
  import opened Base

  /** encodeLength takes a uint32_t. */
  const MaxLength: nat := 0x1_0000_0000

  // ---- arithmetic helpers ----

  lemma MaxLengthIsPow256()
    ensures Pow256(4) == MaxLength
  {
  }

  /** The bounds of n / 256 against p scale to bounds of n against 256 p. */
  lemma Scale256(n: nat, p: nat)
    ensures n / 256 < p ==> n < 256 * p
    ensures p <= n / 256 ==> 256 * p <= n
  {
  }

  // ---- length octets ----

  /** How many big-endian bytes n needs: at least one, and one more for
      every factor of 256 in it. */
  function ByteCount(n: nat): (k: nat)
    ensures 1 <= k
    ensures n < Pow256(k)
    ensures k > 1 ==> Pow256(k - 1) <= n
  {
    if n < 256 then 1
    else
      var k := ByteCount(n / 256);
      Scale256(n, Pow256(k));
      Scale256(n, Pow256(k - 1));
      1 + k
  }

  /** The byte count is the only k with Pow256(k - 1) <= n < Pow256(k). */
  lemma ByteCountUnique(n: nat, k: nat)
    requires 1 <= k && n < Pow256(k) && (k > 1 ==> Pow256(k - 1) <= n)
    ensures ByteCount(n) == k
  {
    var b := ByteCount(n);
    if b < k {
      Pow256Monotone(b, k - 1);
    } else if k < b {
      Pow256Monotone(k, b - 1);
    }
  }

  /** The base-256 digit of n of weight 256^w, that is the low byte of
      n / 256^w. */
  function Digit(n: nat, w: nat): Byte
  {
    if w == 0 then ToByte(n) else Digit(n / 256, w - 1)
  }

  /** The leading digit of a number of w + 1 bytes is not zero. */
  lemma {:induction false} DigitLead(n: nat, w: nat)
    requires Pow256(w) <= n < Pow256(w + 1)
    ensures Digit(n, w) != 0
  {
    if w > 0 {
      Scale256(n, Pow256(w - 1));
      Scale256(n, Pow256(w));
      DigitLead(n / 256, w - 1);
    }
  }

  /** Byte i of the k big-endian bytes of n: the digit of weight
      256^(k - 1 - i). */
  lemma {:induction false} BigEndianAt(n: nat, k: nat, i: nat)
    requires i < k
    ensures BigEndian(n, k)[i] == Digit(n, k - 1 - i)
  {
    if i < k - 1 {
      BigEndianAt(n / 256, k - 1, i);
    }
  }

  /** Length octets, X.690 section 8.1.3: a length below 128 is its own
      single octet; a longer one is 0x80 | k followed by its k big-endian
      bytes, k as small as possible (DER, section 10.1). */
  function LengthOctets(n: nat): (s: seq<Byte>)
    requires n < MaxLength
    ensures n < 0x80 ==> s == [n]
    ensures n >= 0x80 ==>
              && 2 <= |s| <= 5 && s[0] == 0x80 + (|s| - 1)
              && s[1] != 0 && BeValue(s[1..]) == n
  {
    if n < 0x80 then [n]
    else
      var k := ByteCount(n);
      LongFormFacts(n, k);
      var s := [(0x80 + k) as Byte] + BigEndian(n, k);
      assert s[1..] == BigEndian(n, k);
      s
  }

  /** The k big-endian bytes of a long-form length: at most four, with a
      non-zero first byte, read back as the length. */
  lemma LongFormFacts(n: nat, k: nat)
    requires 0x80 <= n < MaxLength && k == ByteCount(n)
    ensures 1 <= k <= 4 && BigEndian(n, k)[0] != 0 && BeValue(BigEndian(n, k)) == n
  {
    MaxLengthIsPow256();
    if k > 4 {
      Pow256Monotone(4, k - 1);
    }
    BeValueBigEndian(n, k);
    BigEndianAt(n, k, 0);
    Pow256Monotone(1, k);
    DigitLead(n, k - 1);
  }

  lemma LengthOctetsExamples()
    ensures LengthOctets(127) == [0x7F]
    ensures LengthOctets(128) == [0x81, 0x80]
    ensures LengthOctets(258) == [0x82, 0x01, 0x02]
  {
    ByteCountUnique(128, 1);
    ByteCountUnique(258, 2);
    assert BigEndian(128, 1) == [0x80];
    assert BigEndian(258, 2) == [0x01, 0x02] by {
      assert BigEndian(1, 1) == [0x01];
    }
  }

  /** A length of 128 to 255 takes the long form with one length byte. */
  lemma LengthOctetsOneByte(n: nat)
    requires 0x80 <= n < 0x100
    ensures LengthOctets(n) == [0x81, n]
  {
    ByteCountUnique(n, 1);
    assert BigEndian(n, 1) == [ToByte(n)];
  }

  /** 0x80 | k is 0x80 + k for k below 0x80. */
  lemma LongFormFlag(k: nat)
    requires k < 0x80
    ensures OrByte(0x80, k) == 0x80 + k
  {
    assert Pow2(7) == 0x80 by { assert Pow2(4) == 16; }
    BitOrDisjoint(1, k, 7);
  }

  /** Bytes laid out as the encoder fills them are the long form. */
  lemma LongFormBytes(length: nat, k: nat, d: seq<Byte>)
    requires 0x80 <= length < MaxLength && k == ByteCount(length)
    requires |d| == k + 1 && d[0] == 0x80 + k
    requires forall j :: 1 <= j < |d| ==> d[j] == Digit(length, k - j)
    ensures d == LengthOctets(length)
  {
    var s := LengthOctets(length);
    forall j | 1 <= j < |d|
      ensures d[j] == s[j]
    {
      BigEndianAt(length, k, j - 1);
    }
  }

  /** The first loop of encodeLength: exp starts at sizeof(length) + 1 and
      goes down while Math.floor(length / 256^exp) is 0, so it stops at the
      index of the highest non-zero byte. */
  method HighestByte(length: nat) returns (exp: nat)
    requires 0x80 <= length < MaxLength
    ensures ByteCount(length) == exp + 1 && exp < 4
  {
    exp := 5;
    MaxLengthIsPow256();
    Pow256Monotone(4, 6);
    // Math.floor(length / 256^exp) === 0, that is length < 256^exp
    while length < Pow256(exp)
      invariant exp <= 5 && length < Pow256(exp + 1)
      decreases exp
    {
      exp := exp - 1;
    }
    ByteCountUnique(length, exp + 1);
    LongFormFacts(length, exp + 1);
  }

  /** encodeLength. The first loop finds the highest non-zero byte of the
      length, the second stores the bytes from that one down, and the first
      octet becomes 0x80 | (size - 1) in the long form. der.js:22 divides
      by `1 << 8 * exp`, which JavaScript computes modulo 2^32 (1 << 40 is
      256); the weight meant, 256^exp, is used here. */
  method EncodeLength(length: nat) returns (dlen: seq<Byte>)
    requires length < MaxLength
    ensures dlen == LengthOctets(length)
  {
    var size: nat, exp: nat;
    if length < 0x80 {
      // short form
      exp, size := 0, 1;
    } else {
      exp := HighestByte(length);
      size := 2 + exp;
    }
    var buf := new Byte[size](_ => 0);
    var e: int := exp;
    while e >= 0
      invariant -1 <= e <= exp
      invariant forall j :: size - 1 - exp <= j < size - 1 - e ==> buf[j] == Digit(length, size - 1 - j)
    {
      buf[size - 1 - e] := Digit(length, e);  // length >> (exp * 8)
      e := e - 1;
    }
    if size > 1 {
      LongFormFlag(size - 1);
      buf[0] := OrByte(0x80, size - 1);
      LongFormBytes(length, size - 1, buf[..]);
    }
    dlen := buf[..];
  }

  /** A decoded length: its value and the octets that carried it. */
  datatype Decoded = Decoded(value: nat, data: seq<Byte>)

  /** The length whose octets start at buf[offset], and those octets. None
      where decodeLength reads past the end of the buffer (it then computes
      with undefined and returns NaN). */
  function LengthAt(buf: seq<Byte>, offset: nat): Option<Decoded>
  {
    if offset >= |buf| then None
    else if buf[offset] < 0x80 then Some(Decoded(buf[offset], buf[offset..offset + 1]))
    else
      var numBytes: nat := buf[offset] - 0x80;
      if offset + 1 + numBytes > |buf| then None
      else Some(Decoded(BeValue(buf[offset + 1..offset + 1 + numBytes]), buf[offset..offset + 1 + numBytes]))
  }

  /** Length octets read back give the length, and exactly those octets,
      whatever follows them. */
  lemma LengthRoundTrip(n: nat, rest: seq<Byte>)
    requires n < MaxLength
    ensures LengthAt(LengthOctets(n) + rest, 0) == Some(Decoded(n, LengthOctets(n)))
  {
    var s := LengthOctets(n);
    var buf := s + rest;
    assert buf[..|s|] == s;
    if n >= 0x80 {
      assert buf[1..|s|] == s[1..];
    }
  }

  /** Horner's rule at one more byte. */
  lemma HornerStep(v: nat, b: nat, p: nat)
    ensures v * (256 * p) + b * p == (v * 256 + b) * p
  {
    assert v * (256 * p) == (v * 256) * p;
  }

  /** One pass of the decoding loop adds the byte at its weight. */
  lemma DecodeStep(buf: seq<Byte>, from: nat, i: nat, numBytes: nat, value: nat)
    requires 1 <= i <= numBytes && from + 1 + numBytes <= |buf|
    requires value == BeValue(buf[from + 1..from + i]) * Pow256(numBytes + 1 - i)
    ensures value + buf[from + i] * Pow256(numBytes - i) ==
            BeValue(buf[from + 1..from + i + 1]) * Pow256(numBytes - i)
  {
    var prefix := buf[from + 1..from + i];
    assert buf[from + 1..from + i + 1] == prefix + [buf[from + i]];
    BeValueAppend(prefix, buf[from + i]);
    HornerStep(BeValue(prefix), buf[from + i], Pow256(numBytes - i));
  }

  /** decodeLength. The long form sums its bytes at their weights. der.js:55
      weighs every byte by `1 << 8 * (numBytes - 1)`; the weight meant,
      256^(numBytes - i) for the i-th byte, is used here
      (DecodeLengthAsWritten is the code as written). */
  method DecodeLength(buf: seq<Byte>, offset: nat) returns (r: Option<Decoded>)
    ensures r == LengthAt(buf, offset)
  {
    if offset >= |buf| {
      return None;
    }
    var value: nat, size: nat;
    if buf[offset] >= 0x80 {
      // long-form: numBytes = buf[offset] & 0x7F
      var numBytes: nat := buf[offset] - 0x80;
      if offset + 1 + numBytes > |buf| {
        return None;
      }
      value := LongFormValue(buf, offset, numBytes);
      size := numBytes + 1;
    } else {
      value := buf[offset];
      size := 1;
    }
    r := Some(Decoded(value, buf[offset..offset + size]));
  }

  /** The loop of decodeLength: numBytes bytes after buf[offset], each
      added at its weight. */
  method LongFormValue(buf: seq<Byte>, offset: nat, numBytes: nat) returns (value: nat)
    requires offset + 1 + numBytes <= |buf|
    ensures value == BeValue(buf[offset + 1..offset + 1 + numBytes])
  {
    value := 0;
    var i := 1;
    while i <= numBytes
      invariant 1 <= i <= numBytes + 1
      invariant value == BeValue(buf[offset + 1..offset + i]) * Pow256(numBytes + 1 - i)
    {
      DecodeStep(buf, offset, i, numBytes, value);
      var weight := Pow256(numBytes - i);
      value := value + buf[offset + i] * weight;
      i := i + 1;
    }
    assert Pow256(0) == 1;
  }

  // ---- INTEGER ----

  /** A leading byte that only repeats the sign of the next one: 0x00
      before a byte with bit 7 clear, 0xFF before one with bit 7 set. */
  predicate Redundant(first: Byte, next: Byte)
  {
    (first == 0x00 && next < 0x80) || (first == 0xFF && next >= 0x80)
  }

  /** The two's-complement value of a non-empty big-endian byte string. */
  function SignedValue(s: seq<Byte>): int
    requires |s| > 0
  {
    BeValue(s) - (if s[0] >= 0x80 then Pow256(|s|) else 0)
  }

  /** The content of a signed INTEGER: leading sign bytes dropped while at
      least two bytes remain. */
  function Trimmed(data: seq<Byte>): seq<Byte>
    decreases |data|
  {
    if |data| >= 2 && Redundant(data[0], data[1]) then Trimmed(data[1..]) else data
  }

  /** What is left after trimming is a suffix of the input, is empty only
      for empty input, and starts with no redundant byte. */
  lemma {:induction false} TrimmedFacts(data: seq<Byte>)
    ensures |Trimmed(data)| <= |data| && Trimmed(data) == data[|data| - |Trimmed(data)|..]
    ensures |data| > 0 ==> |Trimmed(data)| > 0
    ensures |Trimmed(data)| >= 2 ==> !Redundant(Trimmed(data)[0], Trimmed(data)[1])
    decreases |data|
  {
    if |data| >= 2 && Redundant(data[0], data[1]) {
      var t := Trimmed(data[1..]);
      TrimmedFacts(data[1..]);
      assert Trimmed(data) == t;
      SuffixOfTail(data, |data| - |t|);
    }
  }

  /** A suffix of data[1..] is a suffix of data. */
  lemma SuffixOfTail(data: seq<Byte>, k: nat)
    requires 1 <= k <= |data|
    ensures data[1..][k - 1..] == data[k..]
  {
  }

  /** Dropping a redundant sign byte keeps the value. */
  lemma DropSignByte(s: seq<Byte>)
    requires |s| >= 2 && Redundant(s[0], s[1])
    ensures SignedValue(s[1..]) == SignedValue(s)
  {
    assert s[1..][0] == s[1];
  }

  /** Trimming keeps the two's-complement value. */
  lemma {:induction false} TrimmedValue(data: seq<Byte>)
    requires |data| > 0
    ensures |Trimmed(data)| > 0 && SignedValue(Trimmed(data)) == SignedValue(data)
    decreases |data|
  {
    TrimmedFacts(data);
    if |data| >= 2 && Redundant(data[0], data[1]) {
      DropSignByte(data);
      TrimmedValue(data[1..]);
    }
  }

  /** The content octets encodeInteger emits: an unsigned value with bit 7
      set gets one 0x00 in front, anything else is trimmed. */
  function IntegerContent(data: seq<Byte>, isUnsigned: bool): seq<Byte>
  {
    if isUnsigned && |data| > 0 && data[0] >= 0x80 then [0x00] + data else Trimmed(data)
  }

  /** What the content means: X.690 section 8.3.2's minimal two's-complement
      form of the input, read as unsigned or as signed. */
  lemma IntegerContentFacts(data: seq<Byte>, isUnsigned: bool)
    ensures |IntegerContent(data, isUnsigned)| <= |data| + 1
    ensures |data| > 0 <==> |IntegerContent(data, isUnsigned)| > 0
    ensures |IntegerContent(data, isUnsigned)| >= 2 ==>
              !Redundant(IntegerContent(data, isUnsigned)[0], IntegerContent(data, isUnsigned)[1])
    ensures |data| > 0 && isUnsigned ==>
              IntegerContent(data, isUnsigned)[0] < 0x80 && SignedValue(IntegerContent(data, isUnsigned)) == BeValue(data)
    ensures |data| > 0 && !isUnsigned ==> SignedValue(IntegerContent(data, isUnsigned)) == SignedValue(data)
  {
    var c := IntegerContent(data, isUnsigned);
    TrimmedFacts(data);
    if isUnsigned && |data| > 0 && data[0] >= 0x80 {
      assert c[1..] == data;
    } else if |data| > 0 {
      TrimmedValue(data);
      if data[0] < 0x80 {
        TrimmedNonNegative(data);
      }
    }
  }

  /** Trimming a non-negative value leaves its first byte below 0x80. */
  lemma TrimmedNonNegative(data: seq<Byte>)
    requires |data| > 0 && data[0] < 0x80
    ensures |Trimmed(data)| > 0 && Trimmed(data)[0] < 0x80
  {
    TrimmedValue(data);
    var t := Trimmed(data);
    BeValueBound(t);
    assert SignedValue(t) >= 0;
  }

  /** The INTEGER TLV encodeInteger returns. */
  function IntegerTlv(data: seq<Byte>, isUnsigned: bool): (tlv: seq<Byte>)
    requires |data| + 1 < MaxLength
  {
    IntegerContentFacts(data, isUnsigned);
    [0x02] + LengthOctets(|IntegerContent(data, isUnsigned)|) + IntegerContent(data, isUnsigned)
  }

  /** encodeInteger. der.js:83 leaves `trim` undefined on the trimming
      branch, which every input but an unsigned one with bit 7 set takes
      (EncodeIntegerAsWritten); it starts at 0 here, as in
      atcacert_der_enc_integer. */
  method EncodeInteger(data: seq<Byte>, isUnsigned: bool) returns (der: seq<Byte>)
    requires |data| + 1 < MaxLength
    ensures der == IntegerTlv(data, isUnsigned)
  {
    var trim: nat, pad: nat;
    // data[0] & 0x80, where data[0] of an empty buffer is undefined
    if !(isUnsigned && |data| > 0 && data[0] >= 0x80) {
      trim := TrimSign(data);
      pad := 0;
    } else {
      trim, pad := 0, 1;
    }
    var len := EncodeLength(|data| + pad - trim);
    der := [0x02] + len + (if pad == 1 then [0x00] else []) + data[trim..];
  }

  /** The trim loop of encodeInteger: skip leading sign bytes while at
      least two bytes remain. */
  method TrimSign(data: seq<Byte>) returns (trim: nat)
    ensures trim <= |data| && data[trim..] == Trimmed(data)
  {
    trim := 0;
    while |data| - trim >= 2 && Redundant(data[trim], data[trim + 1])
      invariant trim <= |data| && Trimmed(data[trim..]) == Trimmed(data)
    {
      assert data[trim..][1..] == data[trim + 1..];
      trim := trim + 1;
    }
  }

  lemma EncodeIntegerExamples()
    ensures IntegerContent([0x80, 0x01], true) == [0x00, 0x80, 0x01]
    ensures IntegerContent([0x00, 0x7F], false) == [0x7F]
    ensures IntegerContent([0xFF, 0x80], false) == [0x80]
    ensures IntegerContent([0x00, 0x80], false) == [0x00, 0x80]
    ensures IntegerTlv([0x80, 0x01], true) == [0x02, 0x03, 0x00, 0x80, 0x01]
  {
    assert [0x00, 0x7F][1..] == [0x7F];
    assert [0xFF, 0x80][1..] == [0x80];
  }

  /** A decoded INTEGER: its content octets and the whole TLV. */
  datatype Field = Field(value: seq<Byte>, data: seq<Byte>)

  datatype DerError =
    | BadTag     // 'bad tag'
    | BadLength  // the length octets run past the buffer

  /** buf.slice(from, to) for 0 <= from <= to: both ends clamped to the
      buffer. */
  function Sub(buf: seq<Byte>, from: nat, to: nat): (s: seq<Byte>)
    requires from <= to
    ensures to <= |buf| ==> s == buf[from..to]
  {
    var a := if from < |buf| then from else |buf|;
    var b := if to < |buf| then to else |buf|;
    buf[a..b]
  }

  /** decodeInteger: the content octets of the INTEGER at buf[start] and
      the whole TLV. A length that cannot be read is an error here; the
      JavaScript goes on with NaN bounds and returns empty slices. */
  function DecodeInteger(buf: seq<Byte>, start: nat): (r: Result<Field, DerError>)
    ensures r == Err(BadTag) <==> start >= |buf| || buf[start] != 0x02
    ensures r == Err(BadLength) <==> r != Err(BadTag) && LengthAt(buf, start + 1).None?
  {
    if start >= |buf| || buf[start] != 0x02 then Err(BadTag)
    else match LengthAt(buf, start + 1)
      case None => Err(BadLength)
      case Some(len) =>
        var offset := 1 + |len.data|;
        var size := offset + len.value;
        Ok(Field(Sub(buf, start + offset, start + size), Sub(buf, start, start + size)))
  }

  /** An encoded INTEGER, followed by anything, decodes to its content
      octets and to exactly its own TLV. */
  lemma IntegerRoundTrip(data: seq<Byte>, isUnsigned: bool, rest: seq<Byte>)
    requires |data| + 1 < MaxLength
    ensures DecodeInteger(IntegerTlv(data, isUnsigned) + rest, 0) ==
            Ok(Field(IntegerContent(data, isUnsigned), IntegerTlv(data, isUnsigned)))
  {
    var c := IntegerContent(data, isUnsigned);
    IntegerContentFacts(data, isUnsigned);
    var l := LengthOctets(|c|);
    var tlv := IntegerTlv(data, isUnsigned);
    var buf := tlv + rest;
    assert buf[1..] == l + (c + rest);
    LengthRoundTrip(|c|, c + rest);
    assert LengthAt(buf, 1) == LengthAt(l + (c + rest), 0) by {
      LengthAtShift(buf, 1, l + (c + rest));
    }
    assert buf[1 + |l|..1 + |l| + |c|] == c;
    assert buf[..1 + |l| + |c|] == tlv;
  }

  /** Reading a length at offset k of buf is reading it at 0 of buf[k..]. */
  lemma LengthAtShift(buf: seq<Byte>, k: nat, tail: seq<Byte>)
    requires k <= |buf| && tail == buf[k..]
    ensures LengthAt(buf, k) == LengthAt(tail, 0)
  {
    if k < |buf| && buf[k] >= 0x80 {
      var numBytes := buf[k] - 0x80;
      if k + 1 + numBytes <= |buf| {
        assert buf[k + 1..k + 1 + numBytes] == tail[1..1 + numBytes];
        assert buf[k..k + 1 + numBytes] == tail[0..1 + numBytes];
      }
    } else if k < |buf| {
      assert buf[k..k + 1] == tail[0..1];
    }
  }

  // ---- ECDSA signature ----

  /** An unsigned INTEGER of 32 bytes takes at most 35: tag, one length
      octet, a pad byte and the bytes. */
  lemma IntegerTlv32(x: seq<Byte>)
    requires |x| == 32
    ensures 3 <= |IntegerTlv(x, true)| <= 35
    ensures IntegerTlv(x, true) == [0x02, |IntegerContent(x, true)|] + IntegerContent(x, true)
  {
    IntegerContentFacts(x, true);
  }

  /** A 32-byte unsigned value with its top bit set gets one 0x00 pad. */
  lemma IntegerTlvPadded(x: seq<Byte>)
    requires |x| == 32 && x[0] >= 0x80
    ensures IntegerTlv(x, true) == [0x02, 0x21, 0x00] + x
  {
    IntegerTlv32(x);
  }

  /** A 32-byte value whose first byte is neither a pad nor has its top bit
      set is emitted as it is. */
  lemma IntegerTlvUnpadded(x: seq<Byte>)
    requires |x| == 32 && 0 < x[0] < 0x80
    ensures IntegerTlv(x, true) == [0x02, 0x20] + x
  {
    IntegerTlv32(x);
    assert Trimmed(x) == x;
  }

  /** The BIT STRING that holds two encoded INTEGERs r and s: tag 0x03,
      its length, no unused bits, then the SEQUENCE tag 0x30, its length
      and the two INTEGERs. */
  function SignatureOf(r: seq<Byte>, s: seq<Byte>): seq<Byte>
    requires |r| + |s| <= 70
  {
    SignatureHeader(|r| + |s|) + (r + s)
  }

  /** The five header bytes in front of n bytes of INTEGERs. */
  function SignatureHeader(n: nat): (h: seq<Byte>)
    requires n <= 70
    ensures |h| == 5
  {
    [0x03, n + 3, 0x00, 0x30, n]
  }

  /** The BIT STRING encodeEcdsaSignature returns for r || s: the two
      halves as unsigned INTEGERs. */
  function SignatureBitString(rsig: seq<Byte>): (d: seq<Byte>)
    requires |rsig| == 64
    ensures 11 <= |d| <= 75
  {
    IntegerTlv32(rsig[..32]);
    IntegerTlv32(rsig[32..]);
    SignatureOf(IntegerTlv(rsig[..32], true), IntegerTlv(rsig[32..], true))
  }

  /** Both headers count exactly the bytes after them, and the two INTEGERs
      are found at offsets 5 and 5 + |r|. */
  lemma SignatureOfFields(r: seq<Byte>, s: seq<Byte>, cr: seq<Byte>, cs: seq<Byte>)
    requires |r| + |s| <= 70
    requires DecodeInteger(r + s, 0) == Ok(Field(cr, r)) && DecodeInteger(s, 0) == Ok(Field(cs, s))
    ensures var d := SignatureOf(r, s);
            && d[0] == 0x03 && d[1] == |d| - 2 && d[2] == 0x00 && d[3] == 0x30 && d[4] == |d| - 5
            && DecodeInteger(d, 5) == Ok(Field(cr, r))
            && DecodeInteger(d, 5 + |r|) == Ok(Field(cs, s))
  {
    var d := SignatureOf(r, s);
    SignatureHeaderAt(r, s);
    ConcatTails(SignatureHeader(|r| + |s|), r, s);
    DecodeIntegerShift(d, 5, r + s);
    DecodeIntegerShift(d, 5 + |r|, s);
  }

  /** The five header bytes of SignatureOf, each counting what follows. */
  lemma SignatureHeaderAt(r: seq<Byte>, s: seq<Byte>)
    requires |r| + |s| <= 70
    ensures var d := SignatureOf(r, s);
            d[0] == 0x03 && d[1] == |d| - 2 && d[2] == 0x00 && d[3] == 0x30 && d[4] == |d| - 5
  {
  }

  /** The tails of h + (x + y) after h and after h + x. */
  lemma ConcatTails(h: seq<Byte>, x: seq<Byte>, y: seq<Byte>)
    ensures (h + (x + y))[|h|..] == x + y
    ensures (h + (x + y))[|h| + |x|..] == y
  {
    assert (h + (x + y))[|h| + |x|..] == y;
  }

  /** The signature's two INTEGERs read back as r and s, each as a minimal
      non-negative INTEGER, and the headers count exactly the bytes that
      follow them. */
  lemma SignatureFields(rsig: seq<Byte>)
    requires |rsig| == 64
    ensures var d := SignatureBitString(rsig);
            && d[0] == 0x03 && d[1] == |d| - 2 && d[2] == 0x00 && d[3] == 0x30 && d[4] == |d| - 5
            && DecodeInteger(d, 5) == Ok(Field(IntegerContent(rsig[..32], true), IntegerTlv(rsig[..32], true)))
            && DecodeInteger(d, 5 + |IntegerTlv(rsig[..32], true)|) ==
                 Ok(Field(IntegerContent(rsig[32..], true), IntegerTlv(rsig[32..], true)))
    ensures |IntegerContent(rsig[..32], true)| > 0 && SignedValue(IntegerContent(rsig[..32], true)) == BeValue(rsig[..32])
    ensures |IntegerContent(rsig[32..], true)| > 0 && SignedValue(IntegerContent(rsig[32..], true)) == BeValue(rsig[32..])
  {
    SignatureHalves(rsig[..32], rsig[32..]);
  }

  /** SignatureFields for the two 32-byte halves a and b. */
  lemma SignatureHalves(a: seq<Byte>, b: seq<Byte>)
    requires |a| == 32 && |b| == 32
    ensures |IntegerTlv(a, true)| <= 35 && |IntegerTlv(b, true)| <= 35
    ensures var d := SignatureOf(IntegerTlv(a, true), IntegerTlv(b, true));
            && d[0] == 0x03 && d[1] == |d| - 2 && d[2] == 0x00 && d[3] == 0x30 && d[4] == |d| - 5
            && DecodeInteger(d, 5) == Ok(Field(IntegerContent(a, true), IntegerTlv(a, true)))
            && DecodeInteger(d, 5 + |IntegerTlv(a, true)|) == Ok(Field(IntegerContent(b, true), IntegerTlv(b, true)))
    ensures |IntegerContent(a, true)| > 0 && SignedValue(IntegerContent(a, true)) == BeValue(a)
    ensures |IntegerContent(b, true)| > 0 && SignedValue(IntegerContent(b, true)) == BeValue(b)
  {
    var r := IntegerTlv(a, true);
    var s := IntegerTlv(b, true);
    IntegerTlv32(a);
    IntegerTlv32(b);
    IntegerContentFacts(a, true);
    IntegerContentFacts(b, true);
    IntegerRoundTrip(a, true, s);
    IntegerRoundTrip(b, true, []);
    assert s + [] == s;
    SignatureOfFields(r, s, IntegerContent(a, true), IntegerContent(b, true));
  }

  /** Buffer subarrays taken from the tail are the same subarrays moved by
      k. */
  lemma SubShift(buf: seq<Byte>, k: nat, tail: seq<Byte>, from: nat, to: nat)
    requires k <= |buf| && tail == buf[k..] && from <= to
    ensures Sub(buf, k + from, k + to) == Sub(tail, from, to)
  {
  }

  /** Decoding at offset k of buf is decoding at 0 of buf[k..]. */
  lemma DecodeIntegerShift(buf: seq<Byte>, k: nat, tail: seq<Byte>)
    requires k <= |buf| && tail == buf[k..]
    ensures DecodeInteger(buf, k) == DecodeInteger(tail, 0)
  {
    if k < |buf| && buf[k] == 0x02 {
      assert tail[1..] == buf[k + 1..];
      LengthAtShift(buf, k + 1, tail[1..]);
      LengthAtShift(tail, 1, tail[1..]);
      if LengthAt(tail, 1).Some? {
        var len := LengthAt(tail, 1).value;
        SubShift(buf, k, tail, 1 + |len.data|, 1 + |len.data| + len.value);
        SubShift(buf, k, tail, 0, 1 + |len.data| + len.value);
      }
    }
  }

  /** The five header bytes are allocated in front of r and s and then
      overwritten in place. */
  method WrapSignature(r: seq<Byte>, s: seq<Byte>) returns (dsig: seq<Byte>)
    requires |r| + |s| <= 70
    ensures dsig == SignatureOf(r, s)
  {
    var joined := [0, 0, 0, 0, 0] + r + s;
    var buf := new Byte[|joined|](i requires 0 <= i < |joined| => joined[i]);
    buf[0] := 0x03;              // tag
    buf[1] := buf.Length - 2;    // bit string length
    buf[2] := 0x00;              // bit string spare bits
    buf[3] := 0x30;              // sequence tag
    buf[4] := buf.Length - 5;    // sequence length
    assert buf[5..] == joined[5..] == r + s;
    assert buf[..5] == SignatureHeader(|r| + |s|);
    dsig := buf[..];
    assert dsig == buf[..5] + buf[5..];
  }

  /** encodeEcdsaSignature: the halves of r || s as unsigned INTEGERs
      inside the header. */
  method EncodeEcdsaSignature(rsig: seq<Byte>) returns (dsig: seq<Byte>)
    requires |rsig| == 64
    ensures dsig == SignatureBitString(rsig)
  {
    var r := EncodeInteger(rsig[..32], true);
    var s := EncodeInteger(rsig[32..64], true);
    IntegerTlv32(rsig[..32]);
    IntegerTlv32(rsig[32..]);
    assert rsig[32..64] == rsig[32..];
    dsig := WrapSignature(r, s);
  }

  // ---- the code as written ----

  /** JavaScript's `1 << s` is 2^(s mod 32): the shift count is taken
      modulo 32 (no count used here reaches 31, so the result is never
      negative). */
  function JsShiftCount(s: nat): nat
  {
    s % 32
  }

  lemma Pow2Values()
    ensures Pow2(8) == 0x100 && Pow2(16) == 0x1_0000 && Pow2(24) == 0x100_0000
  {
    assert Pow2(4) == 0x10;
    assert Pow2(8) == 0x100;
    assert Pow2(12) == 0x1000;
    assert Pow2(16) == 0x1_0000;
    assert Pow2(20) == 0x10_0000;
  }

  /** Sum of the bytes of s. */
  function ByteSum(s: seq<Byte>): nat
  {
    if s == [] then 0 else ByteSum(s[..|s| - 1]) + s[|s| - 1]
  }

  /** decodeLength exactly as der.js:55 computes it: every byte of the long
      form weighed by `1 << 8 * (numBytes - 1)`. */
  function DecodeLengthAsWritten(buf: seq<Byte>, offset: nat): Option<Decoded>
  {
    if offset >= |buf| then None
    else if buf[offset] < 0x80 then Some(Decoded(buf[offset], buf[offset..offset + 1]))
    else
      var numBytes: nat := buf[offset] - 0x80;
      if offset + 1 + numBytes > |buf| then None
      else if numBytes == 0 then Some(Decoded(0, buf[offset..offset + 1]))
      else
        Some(Decoded(ByteSum(buf[offset + 1..offset + 1 + numBytes]) * Pow2(JsShiftCount(8 * (numBytes - 1))),
                     buf[offset..offset + 1 + numBytes]))
  }

  /** As written, the length 258, encoded as 82 01 02, decodes to
      (1 + 2) * 256 = 768. */
  lemma DecodeLengthAsWrittenMisreads()
    ensures LengthOctets(258) == [0x82, 0x01, 0x02]
    ensures DecodeLengthAsWritten([0x82, 0x01, 0x02], 0) == Some(Decoded(768, [0x82, 0x01, 0x02]))
    ensures LengthAt([0x82, 0x01, 0x02], 0) == Some(Decoded(258, [0x82, 0x01, 0x02]))
  {
    LengthOctetsExamples();
    var b: seq<Byte> := [0x82, 0x01, 0x02];
    LengthRoundTrip(258, []);
    assert b + [] == b;
    assert b[1..3] == [0x01, 0x02] && b[0..3] == b;
    assert ByteSum([0x01, 0x02]) == 3 by {
      assert [0x01, 0x02][..1] == [0x01];
      assert [0x01][..0] == [];
    }
    Pow2Values();
    assert JsShiftCount(8 * (2 - 1)) == 8;
    assert ByteSum(b[1..3]) * Pow2(JsShiftCount(8 * (2 - 1))) == 768;
  }

  /** The first loop of encodeLength as written: exp goes down from 5
      while `Math.floor(length / (1 << 8 * exp))` is 0. */
  function ExpAsWritten(length: nat, exp: nat): (r: nat)
    ensures r <= exp
  {
    if exp == 0 || length / Pow2(JsShiftCount(8 * exp)) != 0 then exp else ExpAsWritten(length, exp - 1)
  }

  /** The second loop as written: `dlen[size - 1 - exp] = length >> (exp * 8)`
      for exp down to 0, with the shift count taken modulo 32 and the
      Buffer keeping the low eight bits. */
  function DigitsAsWritten(length: nat, exp: nat): seq<Byte>
  {
    [ShiftedAsWritten(length, JsShiftCount(8 * exp))] + (if exp == 0 then [] else DigitsAsWritten(length, exp - 1))
  }

  /** `length >> count` as stored in a Buffer, for length below 2^31. */
  function ShiftedAsWritten(length: nat, count: nat): Byte
  {
    (length / Pow2(count)) % 256
  }

  /** encodeLength exactly as der.js:13-34 computes it, for lengths below
      2^31 (where `>>` agrees with division). */
  function EncodeLengthAsWritten(length: nat): seq<Byte>
    requires length < 0x8000_0000
  {
    if length < 0x80 then [length]
    else
      var exp := ExpAsWritten(length, 5);
      [OrByte(0x80, exp + 1)] + DigitsAsWritten(length, exp)
  }

  /** As written, the first loop stops at exp 4 for 128: 1 << 40 is 256,
      but 1 << 32 is 1. */
  lemma ExpAsWrittenAt128()
    ensures ExpAsWritten(128, 5) == 4
  {
    Pow2Values();
    assert JsShiftCount(40) == 8 && JsShiftCount(32) == 0;
    assert 128 / Pow2(8) == 0;
    assert ExpAsWritten(128, 4) == 4;
  }

  /** As written, the second loop stores 128 >> 32 = 128, then 0, 0, 0 and
      128 >> 0 = 128. */
  lemma DigitsAsWrittenAt128()
    ensures DigitsAsWritten(128, 4) == [0x80, 0x00, 0x00, 0x00, 0x80]
  {
    Pow2Values();
    assert JsShiftCount(32) == 0 && JsShiftCount(24) == 24;
    assert JsShiftCount(16) == 16 && JsShiftCount(8) == 8 && JsShiftCount(0) == 0;
    assert ShiftedAsWritten(128, 0) == 0x80;
    assert ShiftedAsWritten(128, 8) == 0;
    assert ShiftedAsWritten(128, 16) == 0;
    assert ShiftedAsWritten(128, 24) == 0;
    assert DigitsAsWritten(128, 0) == [0x80];
    assert DigitsAsWritten(128, 1) == [0x00, 0x80];
    assert DigitsAsWritten(128, 2) == [0x00, 0x00, 0x80];
    assert DigitsAsWritten(128, 3) == [0x00, 0x00, 0x00, 0x80];
  }

  /** As written, 128 is encoded in six octets 85 80 00 00 00 80 (the
      minimal form is 81 80, LengthOctetsExamples). */
  lemma EncodeLengthAsWrittenAt128()
    ensures EncodeLengthAsWritten(128) == [0x85, 0x80, 0x00, 0x00, 0x00, 0x80]
  {
    ExpAsWrittenAt128();
    DigitsAsWrittenAt128();
    LongFormFlag(5);
    EncodeLengthAsWrittenLong(128, 4, [0x80, 0x00, 0x00, 0x00, 0x80]);
  }

  /** The long form as written: the flag byte then the digits. */
  lemma EncodeLengthAsWrittenLong(length: nat, exp: nat, digits: seq<Byte>)
    requires 0x80 <= length < 0x8000_0000
    requires ExpAsWritten(length, 5) == exp && DigitsAsWritten(length, exp) == digits
    ensures EncodeLengthAsWritten(length) == [OrByte(0x80, exp + 1)] + digits
  {
  }


  /** The length octets encodeLength makes of NaN: `NaN < 0x80` is false,
      so the long form is taken; `NaN / 2^40` floors to NaN, which is not
      0, so exp stays 5; every digit `NaN >> k` stores 0, and the first
      byte is 0x80 | 6. */
  const NaNLengthOctets: seq<Byte> := [0x86, 0x00, 0x00, 0x00, 0x00, 0x00, 0x00]

  /** encodeInteger exactly as der.js:82-102 computes it. On the trimming
      branch, which every input but an unsigned one with bit 7 set takes,
      `trim` is undefined: `data.length - trim` is NaN, so the loop never
      runs, pad is 0, the length passed on is NaN, and slice(undefined)
      keeps all of data. */
  function EncodeIntegerAsWritten(data: seq<Byte>, isUnsigned: bool): (der: seq<Byte>)
    requires |data| + 1 < 0x8000_0000
  {
    if isUnsigned && |data| > 0 && data[0] >= 0x80 then
      [0x02] + EncodeLengthAsWritten(|data| + 1) + [0x00] + data
    else [0x02] + NaNLengthOctets + data
  }

  /** As written, an unsigned 32-byte value whose first byte is below 0x80
      gets the seven length octets 86 00 00 00 00 00 00 instead of 20, and
      reads back as an INTEGER with no content at all. */
  lemma EncodeIntegerAsWrittenUnpadded(x: seq<Byte>)
    requires |x| == 32 && x[0] < 0x80
    ensures EncodeIntegerAsWritten(x, true) == [0x02] + NaNLengthOctets + x
    ensures EncodeIntegerAsWritten(x, true) != IntegerTlv(x, true)
    ensures DecodeInteger(EncodeIntegerAsWritten(x, true), 0)
              == Ok(Field([], [0x02] + NaNLengthOctets))
  {
    var der := EncodeIntegerAsWritten(x, true);
    IntegerTlv32(x);
    assert der[1] == 0x86 && IntegerTlv(x, true)[1] <= 33;
    assert der[2..8] == [0, 0, 0, 0, 0, 0];
    assert BeValue([0, 0, 0, 0, 0, 0]) == 0;
    assert LengthAt(der, 1) == Some(Decoded(0, NaNLengthOctets));
    assert der[0..8] == [0x02] + NaNLengthOctets;
  }
}
