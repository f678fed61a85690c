/**
 The key hierarchy of crates/umbrik-core/src/keys.rs: XOR wrapping of the file master key, header
 authentication and the data bound to the payload. Cryptographic primitives are a record of functions.
 */
module Keys {
  import opened Basics
  import opened EnvelopeModel
  import opened HeaderCodec

  /** FMK, CEK, HHK and KEK are all 32 bytes long. */
  type Key = b: Bytes | |b| == 32 witness seq(32, _ => 0)

  const FMK_LEN: nat := 32
  const SALT_LEN: nat := 32

  /**
   The primitives: HKDF-Extract(salt, ikm), HKDF-Expand(prk, info, 32), HMAC(key, message),
   PBKDF2(password, salt, iterations), the payload AEAD with (key, nonce, aad, text), and per curve the
   uncompressed public point of a secret and the agreement of a secret with a point (none if the
   point is invalid).
   */
  datatype Crypto = Crypto(
    extract: (Bytes, Bytes) -> Key,
    expand: (Bytes, Bytes) -> Key,
    hmac: (Bytes, Bytes) -> Key,
    pbkdf2: (Bytes, Bytes, nat) -> Key,
    seal: (Bytes, Bytes, Bytes, Bytes) -> Bytes,
    open: (Bytes, Bytes, Bytes, Bytes) -> Option<Bytes>,
    publicPoint: (EllipticCurve, Bytes) -> Bytes,
    agree: (EllipticCurve, Bytes, Bytes) -> Option<Bytes>)

  /** Decryption undoes encryption and the tag adds 16 bytes (section 2.8 of RFC 8439). */
  ghost predicate LawfulAead(c: Crypto) {
    forall k, n, a, m ::
      && c.open(k, n, a, c.seal(k, n, a, m)) == Some(m)
      && |c.seal(k, n, a, m)| == |m| + 16
  }

  /** Agreement commutes and yields a non-empty secret; points are uncompressed, so at least 65 bytes. */
  ghost predicate LawfulAgreement(c: Crypto) {
    && (forall curve, s, t ::
          && c.agree(curve, s, c.publicPoint(curve, t)) == c.agree(curve, t, c.publicPoint(curve, s))
          && c.agree(curve, s, c.publicPoint(curve, t)).Some?
          && c.agree(curve, s, c.publicPoint(curve, t)).value != [])
    && (forall curve, s :: |c.publicPoint(curve, s)| >= 65)
  }

  // ----- XOR over bytes -----

  /** Exclusive or of the low `bits` bits of two numbers. */
  function XorBits(bits: nat, a: nat, b: nat): nat {
    if bits == 0 then 0
    else (if a % 2 == b % 2 then 0 else 1) + 2 * XorBits(bits - 1, a / 2, b / 2)
  }

  function PowerOfTwo(n: nat): nat {
    if n == 0 then 1 else 2 * PowerOfTwo(n - 1)
  }

  lemma {:induction false} XorBitsBound(bits: nat, a: nat, b: nat)
    ensures XorBits(bits, a, b) < PowerOfTwo(bits)
  {
    if bits > 0 {
      XorBitsBound(bits - 1, a / 2, b / 2);
    }
  }

  lemma {:induction false} XorBitsInvolutive(bits: nat, a: nat, b: nat)
    requires a < PowerOfTwo(bits)
    ensures XorBits(bits, XorBits(bits, a, b), b) == a
  {
    if bits > 0 {
      XorBitsInvolutive(bits - 1, a / 2, b / 2);
      var x := XorBits(bits, a, b);
      assert x / 2 == XorBits(bits - 1, a / 2, b / 2);
    }
  }

  lemma EightBits()
    ensures PowerOfTwo(8) == 256
  {
    assert PowerOfTwo(3) == 8;
    assert PowerOfTwo(6) == 64;
  }

  function XorByte(a: byte, b: byte): byte {
    XorBitsBound(8, a, b);
    EightBits();
    XorBits(8, a, b)
  }

  lemma XorByteInvolutive(a: byte, b: byte)
    ensures XorByte(XorByte(a, b), b) == a
  {
    EightBits();
    XorBitsInvolutive(8, a, b);
  }

  lemma {:induction false} XorBitsCancels(bits: nat, a: nat, b: nat, c: nat)
    requires b < PowerOfTwo(bits) && c < PowerOfTwo(bits)
    requires XorBits(bits, a, b) == XorBits(bits, a, c)
    ensures b == c
  {
    if bits > 0 {
      XorBitsCancels(bits - 1, a / 2, b / 2, c / 2);
    }
  }

  function XorKey(a: Bytes, k: Key): (r: Key)
    requires |a| == FMK_LEN
  {
    seq(FMK_LEN, i requires 0 <= i < FMK_LEN => XorByte(a[i], k[i]))
  }

  lemma XorKeyInvolutive(a: Key, k: Key)
    ensures XorKey(XorKey(a, k), k) == a
  {
    forall i | 0 <= i < FMK_LEN ensures XorKey(XorKey(a, k), k)[i] == a[i] {
      XorByteInvolutive(a[i], k[i]);
    }
  }

  /** Different keys wrap the same bytes differently. */
  lemma XorKeyCancels(a: Bytes, k: Key, k': Key)
    requires |a| == FMK_LEN && XorKey(a, k) == XorKey(a, k')
    ensures k == k'
  {
    EightBits();
    forall i | 0 <= i < FMK_LEN ensures k[i] == k'[i] {
      assert XorKey(a, k)[i] == XorByte(a[i], k[i]) && XorKey(a, k')[i] == XorByte(a[i], k'[i]);
      XorBitsCancels(8, a[i], k[i], k'[i]);
    }
  }

  /** `Fmk::unwrap_xor`. */
  function Unwrap(encrypted: Bytes, kek: Key): Result<Key> {
    if |encrypted| != FMK_LEN then Err(InvalidKeyMaterial(EncryptedFmkLength))
    else Ok(XorKey(encrypted, kek))
  }

  method WrapXor(fmk: Key, kek: Key) returns (wrapped: Key)
    ensures wrapped == XorKey(fmk, kek)
    ensures Unwrap(wrapped, kek) == Ok(fmk)
  {
    var out := new byte[FMK_LEN];
    for i := 0 to FMK_LEN
      invariant forall j :: 0 <= j < i ==> out[j] == XorByte(fmk[j], kek[j])
    {
      out[i] := XorByte(fmk[i], kek[i]);
    }
    wrapped := out[..];
    XorKeyInvolutive(fmk, kek);
  }

  method UnwrapXor(encrypted: Bytes, kek: Key) returns (r: Result<Key>)
    ensures r == Unwrap(encrypted, kek)
  {
    if |encrypted| != FMK_LEN {
      return Err(InvalidKeyMaterial(EncryptedFmkLength));
    }
    var out := new byte[FMK_LEN];
    for i := 0 to FMK_LEN
      invariant forall j :: 0 <= j < i ==> out[j] == XorByte(encrypted[j], kek[j])
    {
      out[i] := XorByte(encrypted[i], kek[i]);
    }
    assert out[..] == XorKey(encrypted, kek);
    return Ok(out[..]);
  }

  /** Unwrapping finds a master key exactly when wrapping that key gives the stored bytes. */
  lemma UnwrapIffWrapped(encrypted: Bytes, kek: Key, fmk: Key)
    ensures Unwrap(encrypted, kek) == Ok(fmk) <==> encrypted == XorKey(fmk, kek)
  {
    XorKeyInvolutive(fmk, kek);
    if |encrypted| == FMK_LEN {
      XorKeyInvolutive(encrypted, kek);
    }
  }

  // ----- derived keys -----

  const FMK_SALT: Bytes := Ascii("CDOC20salt")
  const CEK_INFO: Bytes := Ascii("CDOC20cek")
  const HHK_INFO: Bytes := Ascii("CDOC20hmac")
  const PAYLOAD_AAD_PREFIX: Bytes := Ascii("CDOC20payload")

  function DeriveCek(c: Crypto, fmk: Key): Key {
    c.expand(fmk, CEK_INFO)
  }

  function DeriveHhk(c: Crypto, fmk: Key): Key {
    c.expand(fmk, HHK_INFO)
  }

  /** The header HMAC under the key a master key leads to. */
  function HeaderMac(c: Crypto, fmk: Key, headerBytes: Bytes): Key {
    c.hmac(DeriveHhk(c, fmk), headerBytes)
  }

  /** The stored HMAC is the one this master key yields for these header bytes. */
  predicate Authenticates(c: Crypto, env: Envelope, fmk: Key) {
    HeaderMac(c, fmk, env.headerBytes) == env.headerHmac
  }

  // ----- bound data and verified headers -----

  function BuildAad(headerBytes: Bytes, headerHmac: Bytes): Bytes {
    PAYLOAD_AAD_PREFIX + headerBytes + headerHmac
  }

  /** Although it has no length prefixes, the bound data determines header and HMAC. */
  lemma AadInjective(h1: Bytes, m1: Bytes, h2: Bytes, m2: Bytes)
    requires |m1| == HMAC_LEN && |m2| == HMAC_LEN
    requires BuildAad(h1, m1) == BuildAad(h2, m2)
    ensures h1 == h2 && m1 == m2
  {
    var a1, a2 := BuildAad(h1, m1), BuildAad(h2, m2);
    var p := |PAYLOAD_AAD_PREFIX|;
    assert |h1| == |h2|;
    assert h1 == a1[p..p + |h1|] && h2 == a2[p..p + |h1|];
    assert m1 == a1[p + |h1|..] && m2 == a2[p + |h1|..];
  }

  datatype VerifiedHeader = VerifiedHeader(header: Header, aad: Bytes)

  /** `VerifiedHeader::verify`. */
  function Verify(c: Crypto, env: Envelope, header: Header, hhk: Key): Result<VerifiedHeader> {
    if c.hmac(hhk, env.headerBytes) != env.headerHmac then Err(HeaderHmacMismatch)
    else Ok(VerifiedHeader(header, BuildAad(env.headerBytes, env.headerHmac)))
  }
}
