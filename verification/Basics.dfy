/** Types shared by every part of the model: bytes, results and the error values of umbrik. */
module Basics {

  type byte = x: int | 0 <= x < 256
  type Bytes = seq<byte>

  /** One past the largest value of an unsigned 64-bit integer. */
  const U64_LIMIT: nat := 0x1_0000_0000_0000_0000

  type u64 = x: int | 0 <= x < 0x1_0000_0000_0000_0000

  datatype Option<+T> = None | Some(value: T)

  datatype Result<+T> = Ok(value: T) | Err(error: Error) {
    predicate IsFailure() {
      Err?
    }

    function PropagateFailure<U>(): Result<U>
      requires Err?
    {
      Err(error)
    }

    function Extract(): T
      requires Ok?
    {
      value
    }
  }

  /** The errors of crates/umbrik-core/src/error.rs; message texts become reason values. */
  datatype Error =
    | Io
    | BadPrelude
    | UnsupportedVersion(found: byte)
    | HeaderLengthOutOfRange(length: nat)
    | Truncated(expected: nat, available: nat)
    | MalformedHeader(malformed: MalformedReason)
    | UnsupportedCapsule(capsule: CapsuleReason)
    | UnsupportedFmkEncryptionMethod(fmkRaw: int)
    | UnsupportedPayloadEncryptionMethod(payloadRaw: int)
    | NoMatchingRecipient
    | HeaderHmacMismatch
    | PayloadAuthenticationFailed
    | InvalidKeyMaterial(key: KeyReason)
    | LimitExceeded(limit: LimitReason)
    | UnsafeArchiveEntry(entry: UnsafeReason)
    | ProviderFailed

  datatype MalformedReason =
    | VerificationFailed | NoRecipientsVector | NoRecipientRecords
    | UnionMismatch | UnknownKdfAlgorithm

  datatype CapsuleReason = RsaUnsupported | ServerDeferred | SharesOutOfScope | UnknownCapsule

  datatype KeyReason =
    | NoRecipients | NoFiles | EncryptedFmkLength | NegativeIterations | ZeroIterations
    | SecretTooShort | SaltTooShort | PasswordSaltTooShort | EmptySharedSecret
    | InvalidEcPoint | UnsupportedCurve | UnknownCurve

  datatype LimitReason =
    | TooManyRecipients | KdfBudget | KdfCeiling | HeaderTooLarge | TooManyEntries | Inflation

  datatype UnsafeReason =
    | EmptyName | AbsolutePath | ParentComponent | RootComponent | NoComponents
    | DirectoryComponent | DotPrefixed | DuplicateName | ThroughSymlink | LinkEntry | UnsupportedType

  function Min(a: int, b: int): int {
    if a <= b then a else b
  }

  function Max(a: int, b: int): int {
    if a <= b then b else a
  }

  /** The first complaint in a list, if there is any. */
  function FirstOf(complaints: seq<Option<Error>>): (first: Option<Error>)
    ensures first.None? <==> forall n :: 0 <= n < |complaints| ==> complaints[n].None?
  {
    if complaints == [] then None
    else if complaints[0].Some? then complaints[0]
    else FirstOf(complaints[1..])
  }

  lemma {:induction false} FirstOfIs(complaints: seq<Option<Error>>, n: nat)
    requires n < |complaints| && complaints[n].Some? && forall k :: 0 <= k < n ==> complaints[k].None?
    ensures FirstOf(complaints) == complaints[n]
  {
    if n > 0 {
      FirstOfIs(complaints[1..], n - 1);
    }
  }

  lemma {:induction false} FirstOfSnoc(complaints: seq<Option<Error>>, n: nat)
    requires n < |complaints|
    ensures FirstOf(complaints[..n + 1]) ==
      if FirstOf(complaints[..n]).Some? then FirstOf(complaints[..n]) else complaints[n]
  {
    if n > 0 && complaints[0].None? {
      FirstOfSnoc(complaints[1..], n - 1);
      assert complaints[..n + 1][1..] == complaints[1..][..n] && complaints[..n][1..] == complaints[1..][..n - 1];
    }
  }

  /** The bytes of an ASCII literal. */
  function Ascii(s: string): (b: Bytes)
    ensures |b| == |s|
    ensures forall i :: 0 <= i < |s| ==> b[i] == s[i] as int % 256
  {
    seq(|s|, i requires 0 <= i < |s| => s[i] as int % 256)
  }
}
