/**
 The FlatBuffers header codec of crates/umbrik-core/src/header.rs over a typed wire tree.
 Numeric tags are those of schema/header.fbs and schema/recipients.fbs.
 */
module HeaderCodec {
  import opened Basics
  import opened EnvelopeModel
  import opened Utf8

  // ----- owned types -----

  /** Enum tags are signed bytes and the iteration count a signed 32-bit field, as the schema declares them. */
  type i8 = x: int | -128 <= x < 128
  type i32 = x: int | -0x8000_0000 <= x < 0x8000_0000

  /** A string: its UTF-8 bytes. */
  type Text = b: Bytes | Valid(b) witness []

  datatype PayloadEncryptionMethod = ChaCha20Poly1305 | UnknownPayload(raw: i8)
  datatype FmkEncryptionMethod = Xor | UnknownFmk(raw: i8)
  datatype EllipticCurve = Secp384r1 | Secp256r1 | Secp521r1 | UnknownCurveTag(raw: i8)
  datatype KdfAlgorithm = Pbkdf2WithHmacSha256 | UnknownKdf(raw: i8)

  datatype Capsule =
    | SymmetricKey(salt: Bytes)
    | Pbkdf2(salt: Bytes, passwordSalt: Bytes, kdfAlgorithm: KdfAlgorithm, kdfIterations: i32)
    | EccPublicKey(curve: EllipticCurve, recipientKey: Bytes, senderKey: Bytes)
    | RsaPublicKey(rsaKey: Bytes, encryptedKek: Bytes)
    | KeyServer
    | KeyShares
    | UnknownCapsuleTag(tag: byte)

  datatype RecipientRecord = RecipientRecord(
    keyLabel: Text,
    encryptedFmk: Bytes,
    fmkMethod: FmkEncryptionMethod,
    capsule: Capsule)

  datatype Header = Header(recipients: seq<RecipientRecord>, payloadMethod: PayloadEncryptionMethod)

  // ----- wire types -----

  const TAG_ECC: byte := 1
  const TAG_RSA: byte := 2
  const TAG_KEY_SERVER: byte := 3
  const TAG_SYMMETRIC: byte := 4
  const TAG_PBKDF2: byte := 5
  const TAG_KEY_SHARES: byte := 6

  /** The table a capsule union points at. */
  datatype WireCapsule =
    | WireEcc(curve: i8, recipientKey: Bytes, senderKey: Bytes)
    | WireRsa(rsaKey: Bytes, encryptedKek: Bytes)
    | WireServer
    | WireSymmetric(salt: Bytes)
    | WirePbkdf2(salt: Bytes, passwordSalt: Bytes, algorithm: i8, iterations: i32)
    | WireShares

  datatype WireRecord = WireRecord(
    capsuleTag: byte,
    capsule: Option<WireCapsule>,
    keyLabel: Text,
    encryptedFmk: Bytes,
    fmkMethod: i8)

  datatype WireHeader = WireHeader(recipients: Option<seq<WireRecord>>, payloadMethod: i8)

  // ----- decoding -----

  function DecodeCapsule(w: WireRecord): Result<Capsule> {
    if w.capsuleTag == TAG_SYMMETRIC then
      if w.capsule.Some? && w.capsule.value.WireSymmetric? then
        Ok(SymmetricKey(w.capsule.value.salt))
      else Err(MalformedHeader(UnionMismatch))
    else if w.capsuleTag == TAG_PBKDF2 then
      if w.capsule.Some? && w.capsule.value.WirePbkdf2? then
        var p := w.capsule.value;
        var algorithm := if p.algorithm == 1 then Pbkdf2WithHmacSha256 else UnknownKdf(p.algorithm);
        Ok(Pbkdf2(p.salt, p.passwordSalt, algorithm, p.iterations))
      else Err(MalformedHeader(UnionMismatch))
    else if w.capsuleTag == TAG_ECC then
      if w.capsule.Some? && w.capsule.value.WireEcc? then
        var e := w.capsule.value;
        var curve :=
          if e.curve == 1 then Secp384r1
          else if e.curve == 2 then Secp256r1
          else if e.curve == 3 then Secp521r1
          else UnknownCurveTag(e.curve);
        Ok(EccPublicKey(curve, e.recipientKey, e.senderKey))
      else Err(MalformedHeader(UnionMismatch))
    else if w.capsuleTag == TAG_RSA then
      if w.capsule.Some? && w.capsule.value.WireRsa? then
        Ok(RsaPublicKey(w.capsule.value.rsaKey, w.capsule.value.encryptedKek))
      else Err(MalformedHeader(UnionMismatch))
    else if w.capsuleTag == TAG_KEY_SERVER then Ok(KeyServer)
    else if w.capsuleTag == TAG_KEY_SHARES then Ok(KeyShares)
    else Ok(UnknownCapsuleTag(w.capsuleTag))
  }

  function DecodeRecord(w: WireRecord): Result<RecipientRecord> {
    var fmkMethod := if w.fmkMethod == 1 then Xor else UnknownFmk(w.fmkMethod);
    var capsule :- DecodeCapsule(w);
    Ok(RecipientRecord(w.keyLabel, w.encryptedFmk, fmkMethod, capsule))
  }

  function DecodeRecords(ws: seq<WireRecord>): (r: Result<seq<RecipientRecord>>)
    ensures r.Ok? ==> |r.value| == |ws|
  {
    if ws == [] then Ok([])
    else
      var before :- DecodeRecords(ws[..|ws| - 1]);
      var last :- DecodeRecord(ws[|ws| - 1]);
      Ok(before + [last])
  }

  function DecodePayloadMethod(raw: i8): PayloadEncryptionMethod {
    if raw == 1 then ChaCha20Poly1305 else UnknownPayload(raw)
  }

  /** `Header::decode` after the FlatBuffers verifier has accepted the bytes. */
  function DecodeWire(w: WireHeader): Result<Header> {
    if w.recipients.None? then Err(MalformedHeader(NoRecipientsVector))
    else if w.recipients.value == [] then Err(MalformedHeader(NoRecipientRecords))
    else
      var records :- DecodeRecords(w.recipients.value);
      Ok(Header(records, DecodePayloadMethod(w.payloadMethod)))
  }

  // ----- encoding -----

  function EncodeCapsule(c: Capsule): Result<(byte, WireCapsule)> {
    match c
    case SymmetricKey(salt) => Ok((TAG_SYMMETRIC, WireSymmetric(salt)))
    case Pbkdf2(salt, passwordSalt, algorithm, iterations) =>
      if algorithm.UnknownKdf? then Err(MalformedHeader(UnknownKdfAlgorithm))
      else Ok((TAG_PBKDF2, WirePbkdf2(salt, passwordSalt, 1, iterations)))
    case EccPublicKey(curve, recipientKey, senderKey) =>
      if curve.UnknownCurveTag? then Err(InvalidKeyMaterial(UnknownCurve))
      else
        var tag := match curve case Secp384r1 => 1 case Secp256r1 => 2 case _ => 3;
        Ok((TAG_ECC, WireEcc(tag, recipientKey, senderKey)))
    case RsaPublicKey(_, _) => Err(UnsupportedCapsule(RsaUnsupported))
    case KeyServer => Err(UnsupportedCapsule(ServerDeferred))
    case KeyShares => Err(UnsupportedCapsule(SharesOutOfScope))
    case UnknownCapsuleTag(_) => Err(UnsupportedCapsule(UnknownCapsule))
  }

  function EncodeRecord(rec: RecipientRecord): Result<WireRecord> {
    var (tag, capsule) :- EncodeCapsule(rec.capsule);
    match rec.fmkMethod
    case Xor => Ok(WireRecord(tag, Some(capsule), rec.keyLabel, rec.encryptedFmk, 1))
    case UnknownFmk(v) => Err(UnsupportedFmkEncryptionMethod(v))
  }

  function EncodeRecords(recs: seq<RecipientRecord>): (r: Result<seq<WireRecord>>)
    ensures r.Ok? ==> |r.value| == |recs|
  {
    if recs == [] then Ok([])
    else
      var before :- EncodeRecords(recs[..|recs| - 1]);
      var last :- EncodeRecord(recs[|recs| - 1]);
      Ok(before + [last])
  }

  /** The wire tree `Header::encode` builds, before it is laid out as bytes. */
  function EncodeWire(h: Header): Result<WireHeader> {
    if h.recipients == [] then Err(MalformedHeader(NoRecipientRecords))
    else
      var records :- EncodeRecords(h.recipients);
      match h.payloadMethod
      case ChaCha20Poly1305 => Ok(WireHeader(Some(records), 1))
      case UnknownPayload(v) => Err(UnsupportedPayloadEncryptionMethod(v))
  }

  // ----- the FlatBuffers library -----

  /** Layout and verification of the wire tree as bytes. */
  datatype Codec = Codec(build: WireHeader -> Bytes, verify: Bytes -> Option<WireHeader>)

  /** Bytes taken by a stored vector: a four-byte length and its elements. */
  function VectorSize(v: Bytes): nat {
    4 + |v|
  }

  function CapsuleSize(c: WireCapsule): nat {
    match c
    case WireEcc(_, recipientKey, senderKey) => VectorSize(recipientKey) + VectorSize(senderKey)
    case WireRsa(rsaKey, encryptedKek) => VectorSize(rsaKey) + VectorSize(encryptedKek)
    case WireSymmetric(salt) => VectorSize(salt)
    case WirePbkdf2(salt, passwordSalt, _, _) => VectorSize(salt) + VectorSize(passwordSalt)
    case _ => 0
  }

  function RecordSize(w: WireRecord): nat {
    VectorSize(w.keyLabel) + VectorSize(w.encryptedFmk)
    + (if w.capsule.Some? then CapsuleSize(w.capsule.value) else 0)
  }

  function RecordsSize(ws: seq<WireRecord>): nat {
    if ws == [] then 0 else RecordsSize(ws[..|ws| - 1]) + RecordSize(ws[|ws| - 1])
  }

  /** The union holds a table of the kind its tag announces. */
  predicate TaggedRight(w: WireRecord) {
    && w.capsule.Some?
    && match w.capsule.value {
         case WireEcc(_, _, _) => w.capsuleTag == TAG_ECC
         case WireRsa(_, _) => w.capsuleTag == TAG_RSA
         case WireSymmetric(_) => w.capsuleTag == TAG_SYMMETRIC
         case WirePbkdf2(_, _, _, _) => w.capsuleTag == TAG_PBKDF2
         case WireServer => false
         case WireShares => false
       }
  }

  /** A tree the schema can hold with all its fields present here. */
  predicate Representable(w: WireHeader) {
    w.recipients.Some? && forall i :: 0 <= i < |w.recipients.value| ==> TaggedRight(w.recipients.value[i])
  }

  /**
   Of representable trees: a layout within the header cap reads back as the same tree, and no stored vector is free.
   */
  ghost predicate LawfulCodec(codec: Codec) {
    forall w :: Representable(w) ==>
      && (|codec.build(w)| <= MAX_HEADER_LEN ==> codec.verify(codec.build(w)) == Some(w))
      && RecordsSize(w.recipients.value) <= |codec.build(w)|
  }

  /** `Header::encode`. */
  function Encode(codec: Codec, h: Header): Result<Bytes> {
    var wire :- EncodeWire(h);
    var bytes := codec.build(wire);
    if |bytes| > MAX_HEADER_LEN then Err(LimitExceeded(HeaderTooLarge)) else Ok(bytes)
  }

  /** `Header::decode`. */
  function Decode(codec: Codec, buf: Bytes): Result<Header> {
    match codec.verify(buf)
    case None => Err(MalformedHeader(VerificationFailed))
    case Some(wire) => DecodeWire(wire)
  }

  /** `Header::decode` as a loop that grows the record list. */
  method DecodeLoop(codec: Codec, buf: Bytes) returns (r: Result<Header>)
    ensures r == Decode(codec, buf)
  {
    var root := codec.verify(buf);
    if root.None? {
      return Err(MalformedHeader(VerificationFailed));
    }
    if root.value.recipients.None? {
      return Err(MalformedHeader(NoRecipientsVector));
    }
    var wires := root.value.recipients.value;
    if wires == [] {
      return Err(MalformedHeader(NoRecipientRecords));
    }
    var recipients: seq<RecipientRecord> := [];
    for i := 0 to |wires|
      invariant DecodeRecords(wires[..i]) == Ok(recipients)
    {
      assert wires[..i + 1][..i] == wires[..i];
      var rec := DecodeRecord(wires[i]);
      if rec.Err? {
        DecodeStopsAt(wires, i + 1);
        return Err(rec.error);
      }
      recipients := recipients + [rec.value];
    }
    assert wires[..|wires|] == wires;
    return Ok(Header(recipients, DecodePayloadMethod(root.value.payloadMethod)));
  }

  lemma {:induction false} DecodeStopsAt(ws: seq<WireRecord>, n: nat)
    requires n <= |ws| && DecodeRecords(ws[..n]).Err?
    ensures DecodeRecords(ws) == DecodeRecords(ws[..n])
  {
    if n < |ws| {
      assert ws[..|ws| - 1][..n] == ws[..n];
      DecodeStopsAt(ws[..|ws| - 1], n);
    } else {
      assert ws[..n] == ws;
    }
  }

  /** `Header::encode` as a loop: records first, then the payload method, then the size cap. */
  method EncodeLoop(codec: Codec, h: Header) returns (r: Result<Bytes>)
    ensures r == Encode(codec, h)
  {
    if h.recipients == [] {
      return Err(MalformedHeader(NoRecipientRecords));
    }
    var records: seq<WireRecord> := [];
    for i := 0 to |h.recipients|
      invariant EncodeRecords(h.recipients[..i]) == Ok(records)
    {
      assert h.recipients[..i + 1][..i] == h.recipients[..i];
      var rec := EncodeRecord(h.recipients[i]);
      if rec.Err? {
        EncodeStopsAt(h.recipients, i + 1);
        return Err(rec.error);
      }
      records := records + [rec.value];
    }
    assert h.recipients[..|h.recipients|] == h.recipients;
    if h.payloadMethod.UnknownPayload? {
      return Err(UnsupportedPayloadEncryptionMethod(h.payloadMethod.raw));
    }
    var bytes := codec.build(WireHeader(Some(records), 1));
    if |bytes| > MAX_HEADER_LEN {
      return Err(LimitExceeded(HeaderTooLarge));
    }
    return Ok(bytes);
  }

  lemma {:induction false} EncodeStopsAt(recs: seq<RecipientRecord>, n: nat)
    requires n <= |recs| && EncodeRecords(recs[..n]).Err?
    ensures EncodeRecords(recs) == EncodeRecords(recs[..n])
  {
    if n < |recs| {
      assert recs[..|recs| - 1][..n] == recs[..n];
      EncodeStopsAt(recs[..|recs| - 1], n);
    } else {
      assert recs[..n] == recs;
    }
  }

  // ----- what the codec keeps -----

  /** The records umbrik can write: an implemented capsule with known enum values, wrapped by XOR. */
  predicate Writable(rec: RecipientRecord) {
    && rec.fmkMethod == Xor
    && match rec.capsule {
         case SymmetricKey(_) => true
         case Pbkdf2(_, _, algorithm, _) => algorithm == Pbkdf2WithHmacSha256
         case EccPublicKey(curve, _, _) => curve in {Secp384r1, Secp256r1, Secp521r1}
         case _ => false
       }
  }

  predicate Implemented(h: Header) {
    && h.recipients != []
    && (forall i :: 0 <= i < |h.recipients| ==> Writable(h.recipients[i]))
    && h.payloadMethod == ChaCha20Poly1305
  }

  lemma RecordCodec(rec: RecipientRecord)
    ensures EncodeRecord(rec).Ok? <==> Writable(rec)
    ensures Writable(rec) ==> DecodeRecord(EncodeRecord(rec).value) == Ok(rec)
  {
  }

  lemma {:induction false} RecordsCodec(recs: seq<RecipientRecord>)
    ensures EncodeRecords(recs).Ok? <==> (forall i :: 0 <= i < |recs| ==> Writable(recs[i]))
    ensures EncodeRecords(recs).Ok? ==> DecodeRecords(EncodeRecords(recs).value) == Ok(recs)
  {
    if recs != [] {
      var before, last := recs[..|recs| - 1], recs[|recs| - 1];
      RecordsCodec(before);
      RecordCodec(last);
      if EncodeRecords(recs).Ok? {
        var ws := EncodeRecords(recs).value;
        assert ws[..|ws| - 1] == EncodeRecords(before).value;
        assert recs == before + [last];
        assert forall i :: 0 <= i < |before| ==> recs[i] == before[i];
      }
    }
  }

  /** Whatever the encoder builds is a tree the schema can hold. */
  lemma {:induction false} EncodedIsRepresentable(recs: seq<RecipientRecord>)
    requires EncodeRecords(recs).Ok?
    ensures var ws := EncodeRecords(recs).value; forall i :: 0 <= i < |ws| ==> TaggedRight(ws[i])
  {
    if recs != [] {
      EncodedIsRepresentable(recs[..|recs| - 1]);
    }
  }

  /** Encoding succeeds on exactly the headers umbrik implements whose layout fits the cap. */
  lemma EncodeAcceptsExactly(codec: Codec, h: Header)
    ensures EncodeWire(h).Ok? <==> Implemented(h)
    ensures Encode(codec, h).Ok? <==>
      Implemented(h) && |codec.build(EncodeWire(h).value)| <= MAX_HEADER_LEN
  {
    RecordsCodec(h.recipients);
  }

  /** Whatever is written reads back as the same header, for any number of recipients. */
  lemma DecodeInvertsEncode(codec: Codec, h: Header)
    requires LawfulCodec(codec)
    requires Encode(codec, h).Ok?
    ensures Decode(codec, Encode(codec, h).value) == Ok(h)
  {
    RecordsCodec(h.recipients);
    EncodedIsRepresentable(h.recipients);
    assert Representable(EncodeWire(h).value);
  }

  /** A wire record that decodes to something writable is the one encoding would write. */
  lemma {:induction false} EncodeInvertsDecodeRecords(ws: seq<WireRecord>)
    requires DecodeRecords(ws).Ok? && EncodeRecords(DecodeRecords(ws).value).Ok?
    ensures EncodeRecords(DecodeRecords(ws).value) == Ok(ws)
  {
    if ws != [] {
      var before := ws[..|ws| - 1];
      var recs := DecodeRecords(ws).value;
      assert recs[..|recs| - 1] == DecodeRecords(before).value;
      EncodeInvertsDecodeRecords(before);
      assert ws == before + [ws[|ws| - 1]];
    }
  }

  /** No two wire trees decode to the same writable header: the decoder forgets nothing. */
  lemma EncodeInvertsDecode(w: WireHeader)
    requires DecodeWire(w).Ok? && EncodeWire(DecodeWire(w).value).Ok?
    ensures EncodeWire(DecodeWire(w).value) == Ok(w)
  {
    EncodeInvertsDecodeRecords(w.recipients.value);
  }

  // ----- the codec against the numbers of the schema -----

  predicate CurveOf(raw: i8, curve: EllipticCurve) {
    match curve
    case Secp384r1 => raw == 1
    case Secp256r1 => raw == 2
    case Secp521r1 => raw == 3
    case UnknownCurveTag(v) => raw == v && raw != 1 && raw != 2 && raw != 3
  }

  /** The union of a record, tag and table, stands for a capsule. */
  ghost predicate StandsForCapsule(w: WireRecord, capsule: Capsule) {
    match capsule
    case EccPublicKey(curve, recipientKey, senderKey) =>
      w.capsuleTag == 1 && exists raw ::
        w.capsule == Some(WireEcc(raw, recipientKey, senderKey)) && CurveOf(raw, curve)
    case RsaPublicKey(rsaKey, encryptedKek) => w.capsuleTag == 2 && w.capsule == Some(WireRsa(rsaKey, encryptedKek))
    case KeyServer => w.capsuleTag == 3
    case SymmetricKey(salt) => w.capsuleTag == 4 && w.capsule == Some(WireSymmetric(salt))
    case Pbkdf2(salt, passwordSalt, algorithm, iterations) =>
      w.capsuleTag == 5 && exists raw ::
        && w.capsule == Some(WirePbkdf2(salt, passwordSalt, raw, iterations))
        && algorithm == if raw == 1 then Pbkdf2WithHmacSha256 else UnknownKdf(raw)
    case KeyShares => w.capsuleTag == 6
    case UnknownCapsuleTag(tag) => w.capsuleTag == tag && !(1 <= tag <= 6)
  }

  ghost predicate StandsFor(w: WireRecord, rec: RecipientRecord) {
    && w.keyLabel == rec.keyLabel && w.encryptedFmk == rec.encryptedFmk
    && rec.fmkMethod == (if w.fmkMethod == 1 then Xor else UnknownFmk(w.fmkMethod))
    && StandsForCapsule(w, rec.capsule)
  }

  /** The tag announces a table that is not there. */
  predicate Mismatched(w: WireRecord) {
    || (w.capsuleTag == 1 && !(w.capsule.Some? && w.capsule.value.WireEcc?))
    || (w.capsuleTag == 2 && !(w.capsule.Some? && w.capsule.value.WireRsa?))
    || (w.capsuleTag == 4 && !(w.capsule.Some? && w.capsule.value.WireSymmetric?))
    || (w.capsuleTag == 5 && !(w.capsule.Some? && w.capsule.value.WirePbkdf2?))
  }

  /** A record is read as exactly what it stands for, and refused exactly for a mismatched union. */
  lemma RecordExplained(w: WireRecord)
    ensures forall rec :: DecodeRecord(w) == Ok(rec) <==> StandsFor(w, rec)
    ensures DecodeRecord(w).Err? <==> Mismatched(w)
    ensures Mismatched(w) ==> DecodeRecord(w) == Err(MalformedHeader(UnionMismatch))
  {
    forall rec ensures DecodeRecord(w) == Ok(rec) <==> StandsFor(w, rec) {
      CapsuleExplained(w, rec.capsule);
    }
  }

  lemma CapsuleExplained(w: WireRecord, capsule: Capsule)
    ensures DecodeCapsule(w) == Ok(capsule) <==> StandsForCapsule(w, capsule)
  {
    if DecodeCapsule(w) == Ok(capsule) {
      if capsule.EccPublicKey? {
        assert CurveOf(w.capsule.value.curve, capsule.curve);
      } else if capsule.Pbkdf2? {
        assert w.capsule == Some(WirePbkdf2(capsule.salt, capsule.passwordSalt, w.capsule.value.algorithm,
                                            capsule.kdfIterations));
      }
    }
  }

  lemma {:induction false} RecordsExplained(ws: seq<WireRecord>)
    ensures
      var r := DecodeRecords(ws);
      if exists i :: 0 <= i < |ws| && Mismatched(ws[i]) then r == Err(MalformedHeader(UnionMismatch))
      else r.Ok? && forall i :: 0 <= i < |ws| ==> StandsFor(ws[i], r.value[i])
  {
    hide DecodeRecord, StandsFor, Mismatched;
    if ws != [] {
      var before, last := ws[..|ws| - 1], ws[|ws| - 1];
      RecordsExplained(before);
      RecordExplained(last);
      assert ws == before + [last];
      if i :| 0 <= i < |before| && Mismatched(before[i]) {
        assert ws[i] == before[i];
      }
    }
  }

  /** What decoding answers for any bytes, by what the FlatBuffers verifier finds in them. */
  lemma DecodeExplained(codec: Codec, buf: Bytes)
    ensures
      var r := Decode(codec, buf);
      match codec.verify(buf) {
        case None => r == Err(MalformedHeader(VerificationFailed))
        case Some(WireHeader(None, _)) => r == Err(MalformedHeader(NoRecipientsVector))
        case Some(WireHeader(Some(ws), raw)) =>
          if ws == [] then r == Err(MalformedHeader(NoRecipientRecords))
          else if exists i :: 0 <= i < |ws| && Mismatched(ws[i]) then r == Err(MalformedHeader(UnionMismatch))
          else
            && r.Ok? && |r.value.recipients| == |ws|
            && r.value.payloadMethod == (if raw == 1 then ChaCha20Poly1305 else UnknownPayload(raw))
            && forall i :: 0 <= i < |ws| ==> StandsFor(ws[i], r.value.recipients[i])
      }
  {
    hide DecodeRecords, StandsFor, Mismatched;
    if codec.verify(buf).Some? && codec.verify(buf).value.recipients.Some? {
      RecordsExplained(codec.verify(buf).value.recipients.value);
    }
  }

  /** Why a record cannot be written: the capsule first, then the wrapping method. */
  function WriteComplaint(rec: RecipientRecord): Option<Error> {
    match (rec.capsule, rec.fmkMethod)
    case (RsaPublicKey(_, _), _) => Some(UnsupportedCapsule(RsaUnsupported))
    case (KeyServer, _) => Some(UnsupportedCapsule(ServerDeferred))
    case (KeyShares, _) => Some(UnsupportedCapsule(SharesOutOfScope))
    case (UnknownCapsuleTag(_), _) => Some(UnsupportedCapsule(UnknownCapsule))
    case (Pbkdf2(_, _, UnknownKdf(_), _), _) => Some(MalformedHeader(UnknownKdfAlgorithm))
    case (EccPublicKey(UnknownCurveTag(_), _, _), _) => Some(InvalidKeyMaterial(UnknownCurve))
    case (_, UnknownFmk(raw)) => Some(UnsupportedFmkEncryptionMethod(raw))
    case _ => None
  }

  function WriteComplaints(recs: seq<RecipientRecord>): (cs: seq<Option<Error>>)
    ensures |cs| == |recs|
  {
    seq(|recs|, i requires 0 <= i < |recs| => WriteComplaint(recs[i]))
  }

  lemma {:induction false} EncodeRecordsExplained(recs: seq<RecipientRecord>, n: nat)
    requires n <= |recs|
    ensures
      var r := EncodeRecords(recs[..n]);
      match FirstOf(WriteComplaints(recs)[..n]) {
        case Some(error) => r == Err(error)
        case None => r.Ok?
      }
  {
    if n > 0 {
      EncodeRecordsExplained(recs, n - 1);
      FirstOfSnoc(WriteComplaints(recs), n - 1);
      assert recs[..n][..n - 1] == recs[..n - 1];
    }
  }

  ghost predicate WrittenAs(recs: seq<RecipientRecord>, ws: seq<WireRecord>) {
    |ws| == |recs| && forall i :: 0 <= i < |ws| ==> StandsFor(ws[i], recs[i])
  }

  /** What encoding builds or refuses: nobody, the first unwritable record, the payload method, the size. */
  lemma EncodeExplained(codec: Codec, h: Header)
    ensures
      var r, complaint := Encode(codec, h), FirstOf(WriteComplaints(h.recipients));
      if h.recipients == [] then r == Err(MalformedHeader(NoRecipientRecords))
      else if complaint.Some? then r == Err(complaint.value)
      else
        match h.payloadMethod {
          case UnknownPayload(raw) => r == Err(UnsupportedPayloadEncryptionMethod(raw))
          case ChaCha20Poly1305 =>
            exists ws :: WrittenAs(h.recipients, ws) &&
              var bytes := codec.build(WireHeader(Some(ws), 1));
              r == if |bytes| > 1_048_576 then Err(LimitExceeded(HeaderTooLarge)) else Ok(bytes)
        }
  {
    hide EncodeRecord, StandsFor, DecodeRecord;
    EncodeRecordsExplained(h.recipients, |h.recipients|);
    var cs := WriteComplaints(h.recipients);
    assert h.recipients[..|h.recipients|] == h.recipients && cs[..|cs|] == cs;
    if EncodeRecords(h.recipients).Ok? {
      var ws := EncodeRecords(h.recipients).value;
      RecordsCodec(h.recipients);
      RecordsExplained(ws);
      assert WrittenAs(h.recipients, ws);
    }
  }
}
