/** KEK establishment per scheme (crates/umbrik-core/src/schemes) and the key material offered to it. */
module Schemes {
  import opened Basics
  import opened HeaderCodec
  import opened Keys

  const MIN_SECRET_LEN: nat := 32
  const ITERATIONS: nat := 600_000
  const MAX_ITERATIONS: nat := 100_000_000

  const KEK_INFO_PREFIX: Bytes := Ascii("CDOC20kek")
  const ECDH_KEK_PREMASTER_SALT: Bytes := Ascii("CDOC20kekpremaster")
  const XOR_NAME: Bytes := Ascii("XOR")

  function SymmetricInfo(keyLabel: Bytes): Bytes {
    KEK_INFO_PREFIX + XOR_NAME + keyLabel
  }

  function AgreementInfo(recipientKey: Bytes, senderKey: Bytes): Bytes {
    KEK_INFO_PREFIX + XOR_NAME + recipientKey + senderKey
  }

  /** The label is bound: two labels never share derivation info. */
  lemma SymmetricInfoInjective(label1: Bytes, label2: Bytes)
    requires SymmetricInfo(label1) == SymmetricInfo(label2)
    ensures label1 == label2
  {
    var p := |KEK_INFO_PREFIX + XOR_NAME|;
    assert label1 == SymmetricInfo(label1)[p..] && label2 == SymmetricInfo(label2)[p..];
  }

  /** Without separators the two points are bound, and their order with them, only for equal lengths. */
  lemma AgreementInfoInjective(r1: Bytes, s1: Bytes, r2: Bytes, s2: Bytes)
    requires AgreementInfo(r1, s1) == AgreementInfo(r2, s2)
    ensures r1 + s1 == r2 + s2
    ensures |r1| == |r2| ==> r1 == r2 && s1 == s2
  {
    var p := |KEK_INFO_PREFIX + XOR_NAME|;
    assert r1 + s1 == AgreementInfo(r1, s1)[p..] && r2 + s2 == AgreementInfo(r2, s2)[p..];
    if |r1| == |r2| {
      assert r1 == (r1 + s1)[..|r1|] && r2 == (r2 + s2)[..|r1|];
      assert s1 == (r1 + s1)[|r1|..] && s2 == (r2 + s2)[|r1|..];
    }
  }

  function SymmetricKek(c: Crypto, secret: Bytes, salt: Bytes, keyLabel: Bytes): Key {
    c.expand(c.extract(salt, secret), SymmetricInfo(keyLabel))
  }

  /** SC05. */
  function Sc05Kek(c: Crypto, secret: Bytes, salt: Bytes, keyLabel: Bytes): Result<Key> {
    if |secret| < MIN_SECRET_LEN then Err(InvalidKeyMaterial(SecretTooShort))
    else if |salt| < SALT_LEN then Err(InvalidKeyMaterial(SaltTooShort))
    else Ok(SymmetricKek(c, secret, salt, keyLabel))
  }

  /** Why SC06 refuses before any PBKDF2 work, in the order the code looks. */
  function Sc06Refusal(salt: Bytes, passwordSalt: Bytes, iterations: nat): Option<Error> {
    if |salt| < SALT_LEN then Some(InvalidKeyMaterial(SaltTooShort))
    else if iterations == 0 then Some(InvalidKeyMaterial(ZeroIterations))
    else if iterations > MAX_ITERATIONS then Some(LimitExceeded(KdfCeiling))
    else if |passwordSalt| < SALT_LEN then Some(InvalidKeyMaterial(PasswordSaltTooShort))
    else None
  }

  /** SC06: PBKDF2 under one salt, then the symmetric derivation under the other. */
  function Sc06Kek(c: Crypto, password: Bytes, salt: Bytes, passwordSalt: Bytes, iterations: nat,
                   keyLabel: Bytes): Result<Key>
  {
    match Sc06Refusal(salt, passwordSalt, iterations)
    case Some(error) => Err(error)
    case None => Ok(SymmetricKek(c, c.pbkdf2(password, passwordSalt, iterations), salt, keyLabel))
  }

  /** SC01: recipient point first, then sender point. */
  function Sc01Kek(c: Crypto, shared: Bytes, recipientKey: Bytes, senderKey: Bytes): Result<Key> {
    if shared == [] then Err(InvalidKeyMaterial(EmptySharedSecret))
    else Ok(c.expand(c.extract(ECDH_KEK_PREMASTER_SALT, shared), AgreementInfo(recipientKey, senderKey)))
  }

  // ----- key material -----

  datatype EcPublicKey = EcPublicKey(curve: EllipticCurve, point: Bytes)

  datatype Identity = Identity(name: Bytes, key: EcPublicKey)

  /** `Identity::matches`: byte equality with the recipient of an EC capsule. */
  predicate Matches(id: Identity, capsule: Capsule) {
    capsule.EccPublicKey? && id.key == EcPublicKey(capsule.curve, capsule.recipientKey)
  }

  /**
   A private-key provider may prompt, fail or change its mind between calls, so its answers are
   indexed by the position of the record being examined; each record asks at most once.
   */
  datatype KeyProvider = KeyProvider(
    identities: nat -> Result<seq<Identity>>,
    perform: (nat, Identity, EcPublicKey) -> Result<Bytes>)

  datatype DecryptionKey = Password(text: Text) | Secret(secret: Bytes) | Provider(provider: KeyProvider)
}
