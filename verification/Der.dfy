/** DER encoding of an RSA public key and a strict reader for it: the definite minimal
    lengths of sections 8.1.3 and 10.1 of X.690, the RSAPublicKey of appendix A.1.1 of
    RFC 8017 inside the SubjectPublicKeyInfo of section 2.3.1 of RFC 3279, and PEM text. */
module Der {
  import opened Bytes
  import opened Options
  import opened Base64

  // ---------------------------------------------------------------- encoding

  /** `bytes([0x80 | count])` for a count of length octets below 256. */
  function LongForm(count: nat): byte {
    128 + count % 128
  }

  function LengthOctets(size: nat): Bytes {
    if size < 128 then [size]
    else [LongForm(OctetLength(size))] + ToBytes(size, OctetLength(size))
  }

  /** `der(tag, body)`. */
  function Der(tag: byte, body: Bytes): Bytes {
    [tag] + LengthOctets(|body|) + body
  }

  // ---------------------------------------------------------------- strict reading

  /** The long form: `count` octets without a leading zero for a size above 127; the count 0 is
      the indefinite form and 127 is reserved. */
  function ReadLongForm(count: nat, y: Bytes): Option<nat> {
    if !(1 <= count <= 126) || |y| < count || y[0] == 0 then None
    else
      var size := FromBytes(y[..count]);
      if size < 128 then None else Some(size)
  }

  /** A definite, minimal length and the number of octets it takes. */
  function ReadLength(x: Bytes): Option<(nat, nat)> {
    if x == [] then None
    else if x[0] < 128 then Some((x[0], 1))
    else
      var size := ReadLongForm(x[0] - 128, x[1..]);
      if size.None? then None else Some((size.value, 1 + (x[0] - 128)))
  }

  lemma ReadLongFormBack(size: nat, rest: Bytes)
    requires 128 <= size && OctetLength(size) <= 126
    ensures ReadLongForm(OctetLength(size), ToBytes(size, OctetLength(size)) + rest) == Some(size)
  {
    var count := OctetLength(size);
    var octets := ToBytes(size, count);
    MinimalOctets(size);
    assert (octets + rest)[..count] == octets;
  }

  lemma ReadLengthBack(size: nat, rest: Bytes)
    requires OctetLength(size) <= 126
    ensures ReadLength(LengthOctets(size) + rest) == Some((size, |LengthOctets(size)|))
  {
    if size >= 128 {
      var count := OctetLength(size);
      var octets := ToBytes(size, count);
      var x := LengthOctets(size) + rest;
      assert x == [LongForm(count)] + (octets + rest);
      assert x[0] == 128 + count && x[1..] == octets + rest;
      ReadLongFormBack(size, rest);
    }
  }

  lemma LengthRead(x: Bytes)
    requires ReadLength(x).Some?
    ensures var (size, used) := ReadLength(x).value;
            used <= |x| && x[..used] == LengthOctets(size)
  {
    if x[0] >= 128 {
      var count, y := x[0] - 128, x[1..];
      MinimalOctetsUnique(y[..count]);
      assert x[..1 + count] == [x[0]] + y[..count];
    }
  }

  datatype Tlv = Tlv(tag: byte, body: Bytes, rest: Bytes)

  /** One tag, length and body from the front of `x`. */
  function ReadTlv(x: Bytes): Option<Tlv> {
    if x == [] then None
    else
      var length := ReadLength(x[1..]);
      if length.None? then None
      else
        var (size, used) := length.value;
        if 1 + used + size > |x| then None
        else Some(Tlv(x[0], x[1 + used..1 + used + size], x[1 + used + size..]))
  }

  /** Reading undoes encoding, whatever follows, as long as the length octets can be counted. */
  lemma ReadDer(tag: byte, body: Bytes, rest: Bytes)
    requires OctetLength(|body|) <= 126
    ensures ReadTlv(Der(tag, body) + rest) == Some(Tlv(tag, body, rest))
  {
    var x, length := Der(tag, body) + rest, LengthOctets(|body|);
    ReadLengthBack(|body|, body + rest);
    assert x[1..] == length + (body + rest);
    assert x[1 + |length|..1 + |length| + |body|] == body;
  }

  /** Whatever the strict reader accepts is the encoding of what it returns: the encoder
      produces the only accepted form, so its lengths are minimal. */
  lemma DerRead(x: Bytes)
    requires ReadTlv(x).Some?
    ensures var t := ReadTlv(x).value; x == Der(t.tag, t.body) + t.rest
  {
    LengthRead(x[1..]);
    var (size, used) := ReadLength(x[1..]).value;
    assert x == [x[0]] + x[1..][..used] + x[1 + used..1 + used + size] + x[1 + used + size..];
  }

  /** No encoding is a proper prefix of another. */
  lemma DerPrefixFree(tag: byte, body: Bytes, rest: Bytes, tag': byte, body': Bytes, rest': Bytes)
    requires OctetLength(|body|) <= 126 && OctetLength(|body'|) <= 126
    requires Der(tag, body) + rest == Der(tag', body') + rest'
    ensures tag == tag' && body == body' && rest == rest'
  {
    ReadDer(tag, body, rest);
    ReadDer(tag', body', rest');
  }

  /** Every size of a Python object is below 2^63, which needs at most eight length octets. */
  lemma {:induction false} OctetLengthBound(n: nat, k: nat)
    requires n < Pow256(k)
    ensures OctetLength(n) <= k
  {
    OctetLengthStep(n);
    if n >= 256 { OctetLengthBound(n / 256, k - 1); }
  }

  function Pow256(k: nat): nat {
    if k == 0 then 1 else 256 * Pow256(k - 1)
  }

  lemma ObjectSizesEncode(n: nat)
    requires n < 0x8000_0000_0000_0000
    ensures OctetLength(n) <= 126
  {
    assert Pow256(2) == 65536;
    assert Pow256(4) == 256 * Pow256(3) == 0x1_0000_0000;
    assert Pow256(6) == 256 * Pow256(5) == 0x1_0000_0000_0000;
    assert Pow256(8) == 256 * Pow256(7) == 0x1_0000_0000_0000_0000;
    OctetLengthBound(n, 8);
  }

  // ---------------------------------------------------------------- RSA keys

  /** `integer(raw)`: a DER INTEGER whose sign bit is kept clear. */
  function Integer(raw: Bytes): Bytes
    requires raw != []
  {
    Der(0x02, (if raw[0] >= 128 then [0] else []) + raw)
  }

  /** AlgorithmIdentifier: rsaEncryption with NULL parameters. */
  const RSA_ENCRYPTION: Bytes :=
    [0x30, 0x0d, 0x06, 0x09, 0x2a, 0x86, 0x48, 0x86, 0xf7, 0x0d, 0x01, 0x01, 0x01, 0x05, 0x00]

  /** An arc of an object identifier: base 128, most significant first, all but the last marked. */
  function Arc(n: nat): Bytes {
    if n < 128 then [n] else Marked(n / 128) + [n % 128]
  }

  function Marked(n: nat): Bytes {
    if n < 128 then [n + 128] else Marked(n / 128) + [n % 128 + 128]
  }

  function Arcs(ns: seq<nat>): Bytes {
    if ns == [] then [] else Arc(ns[0]) + Arcs(ns[1..])
  }

  /** The first two arcs share the first number (section 8.19 of X.690). */
  function ObjectIdentifier(ns: seq<nat>): Bytes
    requires |ns| >= 2
  {
    Der(0x06, Arcs([40 * ns[0] + ns[1]] + ns[2..]))
  }

  /** The algorithm is the object 1.2.840.113549.1.1.1 with NULL. */
  lemma RsaEncryptionIs()
    ensures RSA_ENCRYPTION == Der(0x30, ObjectIdentifier([1, 2, 840, 113549, 1, 1, 1]) + Der(0x05, []))
  {
    RsaArcs();
  }

  lemma RsaArcs()
    ensures Arcs([42, 840, 113549, 1, 1, 1]) == [0x2a, 0x86, 0x48, 0x86, 0xf7, 0x0d, 0x01, 0x01, 0x01]
  {
    LongArcs();
    LastArcs();
    assert [42, 840, 113549, 1, 1, 1][1..] == [840, 113549, 1, 1, 1];
    assert [840, 113549, 1, 1, 1][1..] == [113549, 1, 1, 1] && [113549, 1, 1, 1][1..] == [1, 1, 1];
  }

  lemma LongArcs()
    ensures Arc(840) == [0x86, 0x48] && Arc(113549) == [0x86, 0xf7, 0x0d]
  {
    assert Marked(887) == Marked(6) + [0xf7];
    assert Arc(113549) == Marked(887) + [13];
  }

  lemma LastArcs()
    ensures Arcs([1, 1, 1]) == [1, 1, 1]
  {
    assert [1, 1, 1][1..] == [1, 1] && [1, 1][1..] == [1] && [1][1..] == [];
    assert Arcs([1]) == [1] && Arcs([1, 1]) == [1] + [1];
  }

  function Spki(modulus: Bytes, exponent: Bytes): Bytes
    requires modulus != [] && exponent != []
  {
    var rsa := Der(0x30, Integer(modulus) + Integer(exponent));
    Der(0x30, RSA_ENCRYPTION + Der(0x03, [0] + rsa))
  }

  const PEM_BEGIN := "-----BEGIN PUBLIC KEY-----\n"
  const PEM_END := "\n-----END PUBLIC KEY-----\n"

  /** Lines of at most 64 characters joined by line feeds. */
  function Wrapped(text: string): string {
    if |text| <= 64 then text else text[..64] + "\n" + Wrapped(text[64..])
  }

  /** After every 64 characters stands a line feed, except at the end; nothing else moves. */
  lemma {:induction false} WrappedAt(text: string, k: nat)
    requires k < |text|
    ensures k + k / 64 < |Wrapped(text)| && Wrapped(text)[k + k / 64] == text[k]
    ensures k % 64 == 63 && k + 1 < |text| ==>
              k + k / 64 + 1 < |Wrapped(text)| && Wrapped(text)[k + k / 64 + 1] == '\n'
    ensures k + 1 == |text| ==> |Wrapped(text)| == k + k / 64 + 1
  {
    if |text| > 64 {
      var more := Wrapped(text[64..]);
      assert Wrapped(text) == text[..64] + "\n" + more;
      if k >= 64 {
        WrappedAt(text[64..], k - 64);
      } else {
        WrappedAt(text[64..], 0);
      }
    }
  }

  datatype Jwk = Jwk(n: Option<string>, e: Option<string>)
  datatype PublicPem = PublicPem(text: string, signatureSize: nat)

  function DecodeField(field: Option<string>): Option<Bytes> {
    if field.None? then None else DecodeB64Url(field.value)
  }

  /** `rsa_public_pem(key)`; every refusal is `None`. */
  function RsaPublicPem(key: Jwk): Option<PublicPem> {
    var modulus, exponent := DecodeField(key.n), DecodeField(key.e);
    if modulus.None? || exponent.None? then None
    else
      var n, e := FromBytes(modulus.value), FromBytes(exponent.value);
      if !(2048 <= BitLength(n) <= 4096 && n % 2 == 1 && e == 65537) then None
      else if modulus.value == [] || modulus.value[0] == 0 then None
      else if exponent.value == [] || exponent.value[0] == 0 then None
      else
        var spki := Spki(modulus.value, exponent.value);
        Some(PublicPem(PEM_BEGIN + Wrapped(EncodePadded(Standard, spki)) + PEM_END,
                       OctetLength(n)))
  }

  // ---------------------------------------------------------------- reading a key back

  /** A non-negative INTEGER in the fewest octets (section 8.3 of X.690). */
  function ReadInteger(x: Bytes): Option<(nat, Bytes)> {
    var t := ReadTlv(x);
    if t.None? || t.value.tag != 0x02 || t.value.body == [] then None
    else
      var body := t.value.body;
      if body[0] >= 128 || (body[0] == 0 && |body| > 1 && body[1] < 128) then None
      else Some((FromBytes(body), t.value.rest))
  }

  /** The contents of a value that has the given tag and nothing after it. */
  function Enclosed(x: Bytes, tag: byte): Option<Bytes> {
    var t := ReadTlv(x);
    if t.None? || t.value.tag != tag || t.value.rest != [] then None else Some(t.value.body)
  }

  function ReadTwoIntegers(x: Bytes): Option<(nat, nat)> {
    var n := ReadInteger(x);
    if n.None? then None
    else
      var e := ReadInteger(n.value.1);
      if e.None? || e.value.1 != [] then None else Some((n.value.0, e.value.0))
  }

  function ReadRsaKey(x: Bytes): Option<(nat, nat)> {
    var body := Enclosed(x, 0x30);
    if body.None? then None else ReadTwoIntegers(body.value)
  }

  /** A BIT STRING without unused bits that holds an RSAPublicKey. */
  function ReadKeyBits(x: Bytes): Option<(nat, nat)> {
    var bits := Enclosed(x, 0x03);
    if bits.None? || bits.value == [] || bits.value[0] != 0 then None
    else ReadRsaKey(bits.value[1..])
  }

  function ReadSpki(x: Bytes): Option<(nat, nat)> {
    var body := Enclosed(x, 0x30);
    if body.None? || !StartsWith(body.value, RSA_ENCRYPTION) then None
    else ReadKeyBits(body.value[|RSA_ENCRYPTION|..])
  }

  function WithoutNewlines(t: string): string {
    if t == [] then []
    else (if t[0] == '\n' then [] else [t[0]]) + WithoutNewlines(t[1..])
  }

  function ReadPem(t: string): Option<Bytes> {
    if !(PEM_BEGIN <= t && |t| >= |PEM_BEGIN| + |PEM_END| && t[|t| - |PEM_END|..] == PEM_END)
    then None
    else DecodePadded(Standard, WithoutNewlines(t[|PEM_BEGIN|..|t| - |PEM_END|]))
  }

  function ReadPublicKey(t: string): Option<(nat, nat)> {
    var spki := ReadPem(t);
    if spki.None? then None else ReadSpki(spki.value)
  }

  lemma {:induction false} FromBytesLeadingZero(b: Bytes)
    ensures FromBytes([0] + b) == FromBytes(b)
  {
    if b != [] {
      FromBytesLeadingZero(b[..|b| - 1]);
      assert ([0] + b)[..|b|] == [0] + b[..|b| - 1];
    }
  }

  lemma SmallSize(n: nat)
    requires n < 65536
    ensures OctetLength(n) <= 2
  {
    assert Pow256(2) == 65536;
    OctetLengthBound(n, 2);
  }

  lemma DerSize(tag: byte, body: Bytes)
    requires |body| < 65536
    ensures |body| + 2 <= |Der(tag, body)| <= |body| + 4
  {
    SmallSize(|body|);
  }

  lemma ReadIntegerBack(raw: Bytes, rest: Bytes)
    requires raw != [] && raw[0] != 0 && |raw| < 60000
    ensures ReadInteger(Integer(raw) + rest) == Some((FromBytes(raw), rest))
    ensures |Integer(raw)| <= |raw| + 5
  {
    var body := (if raw[0] >= 128 then [0] else []) + raw;
    SmallSize(|body|);
    DerSize(0x02, body);
    ReadDer(0x02, body, rest);
    FromBytesLeadingZero(raw);
    if raw[0] < 128 { assert body == raw; }
  }

  lemma EnclosedBack(tag: byte, body: Bytes)
    requires |body| < 65536
    ensures Enclosed(Der(tag, body), tag) == Some(body)
    ensures |Der(tag, body)| <= |body| + 4
  {
    SmallSize(|body|);
    DerSize(tag, body);
    ReadDer(tag, body, []);
    assert Der(tag, body) + [] == Der(tag, body);
  }

  lemma ReadTwoIntegersBack(modulus: Bytes, exponent: Bytes)
    requires modulus != [] && modulus[0] != 0 && |modulus| < 20000
    requires exponent != [] && exponent[0] != 0 && |exponent| < 20000
    ensures ReadTwoIntegers(Integer(modulus) + Integer(exponent))
            == Some((FromBytes(modulus), FromBytes(exponent)))
    ensures |Integer(modulus) + Integer(exponent)| < 50000
  {
    ReadIntegerBack(modulus, Integer(exponent));
    ReadIntegerBack(exponent, []);
    assert Integer(exponent) + [] == Integer(exponent);
  }

  lemma ReadKeyBitsBack(rsa: Bytes)
    requires |rsa| < 60000
    ensures ReadKeyBits(Der(0x03, [0] + rsa)) == ReadRsaKey(rsa)
    ensures |Der(0x03, [0] + rsa)| <= |rsa| + 5
  {
    EnclosedBack(0x03, [0] + rsa);
    assert ([0] + rsa)[1..] == rsa;
  }

  lemma ReadSpkiBack(modulus: Bytes, exponent: Bytes)
    requires modulus != [] && modulus[0] != 0 && |modulus| < 20000
    requires exponent != [] && exponent[0] != 0 && |exponent| < 20000
    ensures ReadSpki(Spki(modulus, exponent)) == Some((FromBytes(modulus), FromBytes(exponent)))
  {
    var integers := Integer(modulus) + Integer(exponent);
    ReadTwoIntegersBack(modulus, exponent);
    EnclosedBack(0x30, integers);
    var bits := Der(0x03, [0] + Der(0x30, integers));
    ReadKeyBitsBack(Der(0x30, integers));
    EnclosedBack(0x30, RSA_ENCRYPTION + bits);
    assert (RSA_ENCRYPTION + bits)[|RSA_ENCRYPTION|..] == bits;
  }

  lemma {:induction false} WithoutNewlinesConcat(a: string, b: string)
    ensures WithoutNewlines(a + b) == WithoutNewlines(a) + WithoutNewlines(b)
  {
    if a == [] {
      assert a + b == b;
    } else {
      WithoutNewlinesConcat(a[1..], b);
      var t, head := a + b, if a[0] == '\n' then [] else [a[0]];
      assert t[1..] == a[1..] + b && t[0] == a[0];
      assert WithoutNewlines(t) == head + (WithoutNewlines(a[1..]) + WithoutNewlines(b));
    }
  }

  lemma {:induction false} WithoutNewlinesSame(a: string)
    requires '\n' !in a
    ensures WithoutNewlines(a) == a
  {
    if a != [] {
      WithoutNewlinesSame(a[1..]);
      assert a == [a[0]] + a[1..];
    }
  }

  lemma {:induction false} Unwrap(text: string)
    requires '\n' !in text
    ensures WithoutNewlines(Wrapped(text)) == text
  {
    if |text| <= 64 {
      WithoutNewlinesSame(text);
    } else {
      Unwrap(text[64..]);
      WithoutNewlinesSame(text[..64]);
      WithoutNewlinesConcat(text[..64] + "\n", Wrapped(text[64..]));
      WithoutNewlinesConcat(text[..64], "\n");
      assert WithoutNewlines("\n") == [] + WithoutNewlines([]);
      assert text == text[..64] + text[64..];
    }
  }

  lemma EncodePaddedOneLine(raw: Bytes)
    ensures '\n' !in EncodePadded(Standard, raw)
  {
    var s := Sextets(raw);
    forall i | 0 <= i < |s|
      ensures Symbols(Standard, s)[i] != '\n'
    {
    }
  }

  lemma ReadPemBack(raw: Bytes)
    ensures ReadPem(PEM_BEGIN + Wrapped(EncodePadded(Standard, raw)) + PEM_END) == Some(raw)
  {
    var text := EncodePadded(Standard, raw);
    var pem := PEM_BEGIN + Wrapped(text) + PEM_END;
    EncodePaddedOneLine(raw);
    Unwrap(text);
    DecodeEncodePadded(Standard, raw);
    assert pem[|PEM_BEGIN|..|pem| - |PEM_END|] == Wrapped(text);
    assert pem[|pem| - |PEM_END|..] == PEM_END;
  }

  /** The octets of an acceptable modulus: 256 to 512 of them, no leading zero, odd. */
  predicate AcceptableModulus(m: Bytes) {
    256 <= |m| <= 512 && m[0] != 0 && m[|m| - 1] % 2 == 1
    && (|m| == 256 ==> m[0] >= 128)
  }

  lemma {:induction false} BitLengthOfBytes(m: Bytes)
    requires m != [] && m[0] != 0
    ensures BitLength(FromBytes(m)) == 8 * (|m| - 1) + BitLength(m[0])
    ensures FromBytes(m) % 2 == m[|m| - 1] % 2
    ensures |m| > 1 ==> FromBytes(m) >= 256
  {
    var head, last := m[..|m| - 1], m[|m| - 1];
    if |m| == 1 {
      assert FromBytes(m) == FromBytes([]) * 256 + m[0];
    } else {
      var h := FromBytes(head);
      BitLengthOfBytes(head);
      assert h > 0 by { MinimalOctetsUnique(head); }
      DivModOctet(h, last);
      BitLengthOctet(h * 256 + last);
      assert FromBytes(m) == h * 256 + last && head[0] == m[0];
    }
  }

  lemma FirstOctetBits(b: byte)
    requires b != 0
    ensures 1 <= BitLength(b) <= 8
    ensures BitLength(b) == 8 <==> b >= 128
  {
    var d: nat := 2 * (b as int);
    BitLengthOctet(b);
    BitLengthOctet(d);
    assert d / 2 == b && BitLength(d) == 1 + BitLength(b);
    assert b >= 128 ==> d / 256 == 1;
    assert BitLength(1) == 1 + BitLength(0);
  }

  /** A public exponent in octets without a leading zero is 65537 exactly as 01 00 01. */
  lemma Exponent65537(e: Bytes)
    requires e == [] || e[0] != 0
    ensures FromBytes(e) == 65537 <==> e == [1, 0, 1]
  {
    assert FromBytes([1, 0, 1]) == 65537 by {
      assert [1, 0, 1][..2] == [1, 0] && [1, 0][..1] == [1] && [1][..0] == [];
      assert FromBytes([1]) == FromBytes([]) * 256 + 1;
      assert FromBytes([1, 0]) == 256;
    }
    MinimalOctetsUnique(e);
    MinimalOctetsUnique([1, 0, 1]);
  }

  lemma NumbersAccepted(m: Bytes, e: Bytes)
    ensures && m != [] && m[0] != 0 && e != [] && e[0] != 0
            && 2048 <= BitLength(FromBytes(m)) <= 4096 && FromBytes(m) % 2 == 1
            && FromBytes(e) == 65537
            <==> AcceptableModulus(m) && e == [1, 0, 1]
  {
    if m != [] && m[0] != 0 {
      BitLengthOfBytes(m);
      FirstOctetBits(m[0]);
    }
    if e != [] && e[0] != 0 {
      Exponent65537(e);
    }
  }

  /** A key is accepted exactly when its modulus is odd, has 2048 to 4096 bits and no leading
      zero, and its exponent is 01 00 01, both in canonical base64url. */
  lemma KeyAccepted(key: Jwk)
    ensures RsaPublicPem(key).Some? <==>
            && DecodeField(key.n).Some? && AcceptableModulus(DecodeField(key.n).value)
            && DecodeField(key.e) == Some([1, 0, 1])
  {
    var modulus, exponent := DecodeField(key.n), DecodeField(key.e);
    if modulus.Some? && exponent.Some? {
      NumbersAccepted(modulus.value, exponent.value);
    }
  }

  /** Every accepted key prints as PEM that reads back to exactly its modulus and exponent, and
      the announced signature size is the octet length of the modulus. */
  lemma PublicKeyRoundTrip(key: Jwk)
    requires RsaPublicPem(key).Some?
    ensures var pem := RsaPublicPem(key).value;
            var modulus := DecodeField(key.n).value;
            && ReadPublicKey(pem.text) == Some((FromBytes(modulus), 65537))
            && pem.signatureSize == |modulus|
  {
    KeyAccepted(key);
    var modulus := DecodeField(key.n).value;
    Exponent65537([1, 0, 1]);
    ReadSpkiBack(modulus, [1, 0, 1]);
    ReadPemBack(Spki(modulus, [1, 0, 1]));
    MinimalOctetsUnique(modulus);
  }
}
