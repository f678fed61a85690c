/**
 What holds of a container from one end to the other: it is read back by every recipient, nothing is used
 before it is verified, and what umbrik writes stays inside what umbrik reads.
 */
module EndToEnd {
  import opened Basics
  import opened LimitsModel
  import opened Inflate
  import opened EnvelopeModel
  import opened HeaderCodec
  import opened Keys
  import opened Schemes
  import opened Opening
  import opened EntryNames
  import opened Splitting
  import opened Archive
  import opened Extraction
  import opened Container

  // ----- verify before use -----

  /**
   Any success implies that the matched record, under the offered key, unwraps to a master key that
   authenticates the exact header bytes, and that the payload opened under that key's CEK bound to those bytes.
   */
  lemma {:induction false} VerifiedBeforeUse(c: Crypto, codec: Codec, container: Bytes, key: DecryptionKey,
                                             limits: Limits)
    requires DecryptCommon(c, codec, container, key, limits).Ok?
    ensures
      var d := DecryptCommon(c, codec, container, key, limits).value;
      var header := Decode(codec, d.env.headerBytes);
      && InBounds(d.env) && container == Frame(d.env)
      && header.Ok? && d.header.matched.index < |header.value.recipients|
      && var rec := header.value.recipients[d.header.matched.index];
         var kek := KekFor(c, rec, key, d.header.matched.index);
      && kek.Ok? && kek.value.Some? && Unwrap(rec.encryptedFmk, kek.value.value) == Ok(d.header.fmk)
      && c.hmac(c.expand(d.header.fmk, Ascii("CDOC20hmac")), d.env.headerBytes) == d.env.headerHmac
      && c.open(c.expand(d.header.fmk, Ascii("CDOC20cek")), d.env.payload[..12],
                Ascii("CDOC20payload") + d.env.headerBytes + d.env.headerHmac, d.env.payload[12..]) == Some(d.plaintext)
  {
    var d := DecryptCommon(c, codec, container, key, limits).value;
    ParseIffFramed(container, d.env);
    var header := Decode(codec, d.env.headerBytes).value;
    var run := RunOf(c, d.env, header.recipients, key, limits.maxTotalKdfIterations);
    var i, fmk := d.header.matched.index, d.header.fmk;
    OpenedBySearch(c, d.env, header, key, limits);
    assert run.verdicts[i] == VerdictAt(c, d.env, header.recipients, key, limits.maxTotalKdfIterations, i);
  }

  /** An opened header carries the position, the master key and the bound data of the search's answer. */
  lemma OpenedBySearch(c: Crypto, env: Envelope, header: Header, key: DecryptionKey, limits: Limits)
    requires OpenDecoded(c, env, header, key, limits).Ok?
    ensures
      var o := OpenDecoded(c, env, header, key, limits).value;
      var vs := RunOf(c, env, header.recipients, key, limits.maxTotalKdfIterations).verdicts;
      && o.matched.index < |vs| == |header.recipients| && vs[o.matched.index] == Opens(o.fmk)
      && (forall k :: 0 <= k < o.matched.index ==> !Stops(vs[k]))
      && o.verified == VerifiedHeader(header, BuildAad(env.headerBytes, env.headerHmac))
  {
  }

  /** After a successful parse the nonce and ciphertext slices exist, so no truncation is left to report. */
  lemma ParsedPayloadSlices(c: Crypto, container: Bytes, verified: VerifiedHeader, fmk: Key)
    requires Parse(container).Ok?
    ensures
      var r := DecryptPayload(c, Parse(container).value, verified, fmk);
      r.Err? ==> r.error.UnsupportedPayloadEncryptionMethod? || r.error == PayloadAuthenticationFailed
  {
  }

  /**
   Which error stops an opening: the parser's, else the header's, else an unknown payload method or a payload that does
   not authenticate. All three entry points answer with it, and the disk is untouched.
   */
  lemma DecryptRefuses(c: Crypto, codec: Codec, a: Archiver, container: Bytes, key: DecryptionKey, limits: Limits,
                       d: Disk, faults: Faults)
    ensures
      var env, r := Parse(container), DecryptCommon(c, codec, container, key, limits);
      && (env.Err? ==> r == Err(env.error))
      && (env.Ok? ==>
            var found := OpenHeaderResult(c, codec, env.value, key, limits);
            && (found.Err? ==> r == Err(found.error))
            && (found.Ok? ==>
                  match found.value.verified.header.payloadMethod {
                    case UnknownPayload(raw) => r == Err(UnsupportedPayloadEncryptionMethod(raw))
                    case ChaCha20Poly1305 =>
                      var text := c.open(c.expand(found.value.fmk, Ascii("CDOC20cek")), env.value.payload[..12],
                                         found.value.verified.aad, env.value.payload[12..]);
                      if text.None? then r == Err(PayloadAuthenticationFailed)
                      else r.Ok? && r.value.plaintext == text.value && r.value.header == found.value
                  }))
      && (r.Err? ==>
            && DecryptToMemoryResult(c, codec, a, container, key, limits) == Err(r.error)
            && ListContainerResult(c, codec, a, container, key, limits) == Err(r.error)
            && DecryptToDirOutcome(c, codec, a, container, key, limits, d, faults) == (d, Err(r.error)))
  {
    hide OpenHeaderResult, Parse;
    if Parse(container).Ok? {
      assert InBounds(Parse(container).value);
    }
  }

  // ----- what umbrik writes -----

  /** Every record umbrik builds is writable, of an implemented scheme, and asks for the default iterations or none. */
  lemma BuiltRecordShape(c: Crypto, recipient: Recipient, fmk: Key, draw: Draw, key: DecryptionKey)
    requires BuildRecord(c, recipient, fmk, draw).Ok?
    ensures
      var rec := BuildRecord(c, recipient, fmk, draw).value;
      && Writable(rec) && Refusal(rec.capsule).None? && |rec.encryptedFmk| == FMK_LEN
      && Demand(rec, key) == if recipient.PasswordRecipient? && key.Password? then ITERATIONS else 0
  {
  }

  const KEK_INFO: Bytes := Ascii("CDOC20kekXOR")

  /**
   The KEK a sender wraps under is the format's formula evaluated from what the capsule stores and what the recipient
   holds: each salt in its own place, the recipient's point before the sender's, the label only where it belongs.
   */
  lemma KekFormula(c: Crypto, recipient: Recipient, draw: Draw, ownSecret: Bytes)
    requires LawfulAgreement(c) && Encapsulate(c, recipient, draw).Ok?
    requires recipient.PublicKeyRecipient? ==> recipient.key.point == c.publicPoint(recipient.key.curve, ownSecret)
    ensures
      var (capsule, kek) := Encapsulate(c, recipient, draw).value;
      match recipient {
        case SymmetricRecipient(keyLabel, secret) =>
          && capsule.SymmetricKey?
          && kek == c.expand(c.extract(capsule.salt, secret), KEK_INFO + keyLabel)
        case PasswordRecipient(keyLabel, password) =>
          && capsule.Pbkdf2?
          && capsule.kdfIterations == ITERATIONS
          && kek == c.expand(c.extract(capsule.salt, c.pbkdf2(password, capsule.passwordSalt, ITERATIONS)),
                             KEK_INFO + keyLabel)
        case PublicKeyRecipient(_, key) =>
          && capsule.EccPublicKey? && capsule.recipientKey == key.point
          && var shared := c.agree(capsule.curve, ownSecret, capsule.senderKey);
          && shared.Some?
          && kek == c.expand(c.extract(Ascii("CDOC20kekpremaster"), shared.value),
                             KEK_INFO + capsule.recipientKey + capsule.senderKey)
      }
  {
    assert KEK_INFO_PREFIX + XOR_NAME == KEK_INFO;
  }

  function PasswordCount(recipients: seq<Recipient>): nat {
    if recipients == [] then 0
    else PasswordCount(recipients[..|recipients| - 1])
         + (if recipients[|recipients| - 1].PasswordRecipient? then 1 else 0)
  }

  lemma {:induction false} PasswordCountBound(recipients: seq<Recipient>)
    ensures PasswordCount(recipients) <= |recipients|
  {
    if recipients != [] {
      PasswordCountBound(recipients[..|recipients| - 1]);
    }
  }

  lemma {:induction false} PasswordCountGrows(recipients: seq<Recipient>, n: nat, m: nat)
    requires n <= m <= |recipients|
    ensures PasswordCount(recipients[..n]) <= PasswordCount(recipients[..m])
  {
    if n < m {
      PasswordCountGrows(recipients, n, m - 1);
      assert recipients[..m][..m - 1] == recipients[..m - 1];
    }
  }

  /** Opening a built header with a password asks for the default count once per password recipient. */
  lemma {:induction false} BuiltDemand(c: Crypto, recipients: seq<Recipient>, fmk: Key, draws: nat -> Draw,
                                       key: DecryptionKey, n: nat)
    requires BuildRecords(c, recipients, fmk, draws).Ok? && n <= |recipients|
    ensures DemandBefore(BuildRecords(c, recipients, fmk, draws).value, key, n)
         == if key.Password? then ITERATIONS * PasswordCount(recipients[..n]) else 0
  {
    if n > 0 {
      BuiltDemand(c, recipients, fmk, draws, key, n - 1);
      RecordsAt(c, recipients, fmk, draws, n - 1);
      BuiltRecordShape(c, recipients[n - 1], fmk, draws(n - 1), key);
      assert recipients[..n][..n - 1] == recipients[..n - 1];
    }
  }

  /** A container umbrik writes for at most 64 recipients never trips the default budget, whatever key is tried. */
  lemma DefaultBudgetSuffices(c: Crypto, recipients: seq<Recipient>, fmk: Key, draws: nat -> Draw,
                              key: DecryptionKey, j: nat)
    requires BuildRecords(c, recipients, fmk, draws).Ok? && j < |recipients| <= DEFAULT_LIMITS.maxRecipients
    ensures !OverBudget(BuildRecords(c, recipients, fmk, draws).value, key, DEFAULT_LIMITS.maxTotalKdfIterations, j)
  {
    BuiltDemand(c, recipients, fmk, draws, key, j + 1);
    PasswordCountBound(recipients[..j + 1]);
  }

  /** The stored vectors of one built record already exceed the parser's smallest header. */
  lemma BuiltRecordSize(c: Crypto, recipient: Recipient, fmk: Key, draw: Draw)
    requires LawfulAgreement(c) && BuildRecord(c, recipient, fmk, draw).Ok?
    ensures
      var w := EncodeRecord(BuildRecord(c, recipient, fmk, draw).value);
      w.Ok? && RecordSize(w.value) >= MIN_HEADER_LEN
  {
  }

  /** Everything `encrypt` emits lies inside the bounds its own parser demands, so it parses back to its parts. */
  lemma EncryptedContainerParses(c: Crypto, codec: Codec, a: Archiver, files: seq<PayloadFile>,
                                 recipients: seq<Recipient>, rnd: Randomness)
    requires LawfulAead(c) && LawfulAgreement(c) && LawfulCodec(codec) && LawfulArchiver(a)
    requires EncryptParts(c, codec, a, files, recipients, rnd).Ok?
    ensures
      var env := EncryptParts(c, codec, a, files, recipients, rnd).value;
      && InBounds(env)
      && EncryptResult(c, codec, a, files, recipients, rnd) == Ok(Frame(env))
      && Parse(Frame(env)) == Ok(env)
  {
    var env := EncryptParts(c, codec, a, files, recipients, rnd).value;
    var fmk := GenerateFmk(c, rnd.ikm);
    var records := BuildRecords(c, recipients, fmk, rnd.draws).value;
    var header := Header(records, ChaCha20Poly1305);
    var wires := EncodeRecords(records).value;
    var last := |recipients| - 1;
    RecordsAt(c, recipients, fmk, rnd.draws, last);
    BuiltRecordSize(c, recipients[last], fmk, rnd.draws(last));
    assert RecordsSize(wires) >= RecordSize(wires[last]);
    EncodedIsRepresentable(records);
    assert Representable(WireHeader(Some(wires), 1));
    assert env.headerBytes == codec.build(WireHeader(Some(wires), 1));
    assert |env.payload| >= MIN_PAYLOAD_LEN by {
      NoBadNameIff(files);
      assert |Pack(a, files).value| >= 17;
    }
    ParseInvertsFrame(env);
  }

  /** The record written for a recipient: the drawn salts and point in their places, the FMK wrapped under the KEK. */
  ghost predicate RecordWritten(c: Crypto, recipient: Recipient, fmk: Key, draw: Draw, rec: RecipientRecord) {
    && rec.keyLabel == recipient.keyLabel && rec.fmkMethod == Xor
    && match recipient {
         case SymmetricRecipient(keyLabel, secret) =>
           && rec.capsule == SymmetricKey(draw.salt)
           && rec.encryptedFmk == XorKey(fmk, c.expand(c.extract(draw.salt, secret), KEK_INFO + keyLabel))
         case PasswordRecipient(keyLabel, password) =>
           && rec.capsule == Pbkdf2(draw.salt, draw.passwordSalt, Pbkdf2WithHmacSha256, 600_000)
           && rec.encryptedFmk ==
                XorKey(fmk, c.expand(c.extract(draw.salt, c.pbkdf2(password, draw.passwordSalt, 600_000)),
                                     KEK_INFO + keyLabel))
         case PublicKeyRecipient(_, key) =>
           var shared, sender := c.agree(key.curve, draw.ephemeral, key.point),
                                 c.publicPoint(key.curve, draw.ephemeral);
           && rec.capsule == EccPublicKey(key.curve, key.point, sender)
           && shared.Some?
           && rec.encryptedFmk == XorKey(fmk, c.expand(c.extract(Ascii("CDOC20kekpremaster"), shared.value),
                                                       KEK_INFO + key.point + sender))
       }
  }

  lemma BuiltRecordWritten(c: Crypto, recipient: Recipient, fmk: Key, draw: Draw)
    requires BuildRecord(c, recipient, fmk, draw).Ok?
    ensures RecordWritten(c, recipient, fmk, draw, BuildRecord(c, recipient, fmk, draw).value)
  {
    assert KEK_INFO_PREFIX + XOR_NAME == KEK_INFO;
  }

  /**
   What `encrypt` writes, from its inputs and randomness alone: the master key is extracted from the drawn key
   material, the header holds a record per recipient in order, its HMAC and the payload follow the format's formulas.
   */
  lemma EncryptWrites(c: Crypto, codec: Codec, a: Archiver, files: seq<PayloadFile>, recipients: seq<Recipient>,
                      rnd: Randomness)
    requires LawfulCodec(codec) && EncryptParts(c, codec, a, files, recipients, rnd).Ok?
    ensures
      var env := EncryptParts(c, codec, a, files, recipients, rnd).value;
      var fmk := c.extract(Ascii("CDOC20salt"), rnd.ikm);
      var header, packed := Decode(codec, env.headerBytes), a.write(files);
      && header.Ok? && header.value.payloadMethod == ChaCha20Poly1305
      && |header.value.recipients| == |recipients|
      && (forall j :: 0 <= j < |recipients| ==>
            RecordWritten(c, recipients[j], fmk, rnd.draws(j), header.value.recipients[j]))
      && env.headerHmac == c.hmac(c.expand(fmk, Ascii("CDOC20hmac")), env.headerBytes)
      && packed.Some?
      && env.payload == rnd.nonce + c.seal(c.expand(fmk, Ascii("CDOC20cek")), rnd.nonce,
                                           Ascii("CDOC20payload") + env.headerBytes + env.headerHmac, packed.value)
  {
    hide LawfulCodec, RecordWritten, BuildRecord, EncodeRecords, Decode;
    var fmk := GenerateFmk(c, rnd.ikm);
    var records := BuildRecords(c, recipients, fmk, rnd.draws).value;
    DecodeInvertsEncode(codec, Header(records, ChaCha20Poly1305));
    forall j | 0 <= j < |recipients| ensures RecordWritten(c, recipients[j], fmk, rnd.draws(j), records[j]) {
      RecordsAt(c, recipients, fmk, rnd.draws, j);
      BuiltRecordWritten(c, recipients[j], fmk, rnd.draws(j));
    }
  }

  // ----- what `encrypt` refuses -----

  /** What stands against writing for a recipient. */
  function RecipientComplaint(c: Crypto, recipient: Recipient, draw: Draw): Option<Error> {
    match recipient
    case PasswordRecipient(_, _) => None
    case SymmetricRecipient(_, secret) => if |secret| < 32 then Some(InvalidKeyMaterial(SecretTooShort)) else None
    case PublicKeyRecipient(_, key) =>
      if !(key.curve == Secp384r1 || key.curve == Secp256r1) then Some(InvalidKeyMaterial(UnsupportedCurve))
      else
        match c.agree(key.curve, draw.ephemeral, key.point)
        case None => Some(InvalidKeyMaterial(InvalidEcPoint))
        case Some(shared) => if shared == [] then Some(InvalidKeyMaterial(EmptySharedSecret)) else None
  }

  function RecipientComplaints(c: Crypto, recipients: seq<Recipient>, draws: nat -> Draw): (cs: seq<Option<Error>>)
    ensures |cs| == |recipients|
  {
    seq(|recipients|, j requires 0 <= j < |recipients| => RecipientComplaint(c, recipients[j], draws(j)))
  }

  function NameComplaints(files: seq<PayloadFile>): (cs: seq<Option<Error>>)
    ensures |cs| == |files|
  {
    seq(|files|, k requires 0 <= k < |files| =>
      match CanonicalName(files[k].name, DEFAULT_LIMITS) case Ok(_) => None case Err(error) => Some(error))
  }

  lemma RecipientExplained(c: Crypto, recipient: Recipient, fmk: Key, draw: Draw)
    ensures
      var r := BuildRecord(c, recipient, fmk, draw);
      match RecipientComplaint(c, recipient, draw) {
        case Some(error) => r == Err(error)
        case None => r.Ok?
      }
  {
    hide XorKey;
  }

  lemma {:induction false} BuildExplained(c: Crypto, recipients: seq<Recipient>, fmk: Key, draws: nat -> Draw, n: nat)
    requires n <= |recipients|
    ensures
      var r := BuildRecords(c, recipients[..n], fmk, draws);
      match FirstOf(RecipientComplaints(c, recipients, draws)[..n]) {
        case Some(error) => r == Err(error)
        case None => r.Ok?
      }
  {
    hide BuildRecord, RecipientComplaint;
    if n > 0 {
      BuildExplained(c, recipients, fmk, draws, n - 1);
      RecipientExplained(c, recipients[n - 1], fmk, draws(n - 1));
      FirstOfSnoc(RecipientComplaints(c, recipients, draws), n - 1);
      assert recipients[..n][..n - 1] == recipients[..n - 1];
    }
  }

  lemma {:induction false} NamesExplained(files: seq<PayloadFile>, n: nat)
    requires n <= |files|
    ensures FirstBadName(files[..n]) == FirstOf(NameComplaints(files)[..n])
  {
    hide CanonicalName;
    if n > 0 {
      NamesExplained(files, n - 1);
      FirstOfSnoc(NameComplaints(files), n - 1);
      assert files[..n][..n - 1] == files[..n - 1];
    }
  }

  /** Every record could be built and the laid-out header is above the cap. */
  ghost predicate HeaderOverflows(c: Crypto, codec: Codec, recipients: seq<Recipient>, rnd: Randomness) {
    var records := BuildRecords(c, recipients, GenerateFmk(c, rnd.ikm), rnd.draws);
    && records.Ok? && EncodeRecords(records.value).Ok?
    && |codec.build(WireHeader(Some(EncodeRecords(records.value).value), 1))| > 1_048_576
  }

  /** Which error `encrypt` answers with, in the order in which things can go wrong; else it has all parts. */
  lemma EncryptRefuses(c: Crypto, codec: Codec, a: Archiver, files: seq<PayloadFile>, recipients: seq<Recipient>,
                       rnd: Randomness)
    ensures
      var r := EncryptParts(c, codec, a, files, recipients, rnd);
      var badRecipient := FirstOf(RecipientComplaints(c, recipients, rnd.draws));
      var badName := FirstOf(NameComplaints(files));
      if recipients == [] then r == Err(InvalidKeyMaterial(NoRecipients))
      else if badRecipient.Some? then r == Err(badRecipient.value)
      else if HeaderOverflows(c, codec, recipients, rnd) then r == Err(LimitExceeded(HeaderTooLarge))
      else if files == [] then r == Err(InvalidKeyMaterial(NoFiles))
      else if badName.Some? then r == Err(badName.value)
      else if a.write(files).None? then r == Err(Io)
      else r.Ok?
  {
    hide CanonicalName, BuildRecord, EncodeRecords, SealedPayload;
    BuildExplained(c, recipients, GenerateFmk(c, rnd.ikm), rnd.draws, |recipients|);
    assert recipients[..|recipients|] == recipients && files[..|files|] == files;
    var cs, ns := RecipientComplaints(c, recipients, rnd.draws), NameComplaints(files);
    assert cs[..|cs|] == cs && ns[..|ns|] == ns;
    NamesExplained(files, |files|);
    var built := BuildRecords(c, recipients, GenerateFmk(c, rnd.ikm), rnd.draws);
    if built.Ok? && recipients != [] {
      forall j | 0 <= j < |recipients| ensures Writable(built.value[j]) {
        RecordsAt(c, recipients, GenerateFmk(c, rnd.ikm), rnd.draws, j);
        BuiltRecordShape(c, recipients[j], GenerateFmk(c, rnd.ikm), rnd.draws(j), Password([]));
      }
      EncodeAcceptsExactly(codec, Header(built.value, ChaCha20Poly1305));
    }
  }

  // ----- every recipient reads it back -----

  /**
   A provider that holds the secrets of the keys it lists: it always answers, each listed point belongs to its secret,
   and agreement with a peer on the same curve is the real one.
   */
  ghost predicate Honest(c: Crypto, p: KeyProvider, secrets: EcPublicKey -> Bytes) {
    forall j: nat ::
      && p.identities(j).Ok?
      && forall id :: id in p.identities(j).value ==>
           && id.key.point == c.publicPoint(id.key.curve, secrets(id.key))
           && forall peer: EcPublicKey :: peer.curve == id.key.curve ==>
                p.perform(j, id, peer) ==
                  match c.agree(peer.curve, secrets(id.key), peer.point) {
                    case Some(shared) => Ok(shared)
                    case None => Err(InvalidKeyMaterial(InvalidEcPoint))
                  }
  }

  /** The key a recipient holds. */
  ghost predicate KeyOf(c: Crypto, recipient: Recipient, key: DecryptionKey, secrets: EcPublicKey -> Bytes) {
    match recipient
    case PasswordRecipient(_, password) => key == Password(password)
    case SymmetricRecipient(_, secret) => key == Secret(secret)
    case PublicKeyRecipient(_, pk) =>
      && key.Provider? && Honest(c, key.provider, secrets)
      && forall j: nat :: exists id :: id in key.provider.identities(j).value && id.key == pk
  }

  /** Key material that no record umbrik built can make fail. */
  ghost predicate Sound(c: Crypto, key: DecryptionKey, secrets: EcPublicKey -> Bytes) {
    && (key.Secret? ==> |key.secret| >= MIN_SECRET_LEN)
    && (key.Provider? ==> Honest(c, key.provider, secrets))
  }

  /** A provider with the recipient's key establishes the sender's KEK, and never fails on a built record. */
  lemma BuiltForProvider(c: Crypto, recipient: Recipient, draw: Draw, provider: KeyProvider,
                         secrets: EcPublicKey -> Bytes, j: nat)
    requires LawfulAgreement(c) && recipient.PublicKeyRecipient?
    requires Encapsulate(c, recipient, draw).Ok? && Honest(c, provider, secrets)
    ensures
      var (capsule, kek) := Encapsulate(c, recipient, draw).value;
      var r := ProviderKek(c, capsule, provider, j);
      var held := exists id :: id in provider.identities(j).value && id.key == recipient.key;
      r == if held then Ok(Some(kek)) else Ok(None)
  {
    var (capsule, kek) := Encapsulate(c, recipient, draw).value;
    var found := FindIdentity(provider.identities(j).value, capsule);
    if found.Some? {
      var id := found.value;
      assert id.key == recipient.key;
      var sender := c.publicPoint(id.key.curve, draw.ephemeral);
      assert c.agree(id.key.curve, draw.ephemeral, id.key.point) == c.agree(id.key.curve, secrets(id.key), sender);
      assert Peer(capsule) == EcPublicKey(id.key.curve, sender);
    } else {
      forall id | id in provider.identities(j).value ensures id.key != recipient.key {
        assert !Matches(id, capsule);
      }
    }
  }

  /** On a built record sound key material never fails, and the recipient's own key establishes the sender's KEK. */
  lemma BuiltRecordOpens(c: Crypto, recipient: Recipient, fmk: Key, draw: Draw, key: DecryptionKey,
                         secrets: EcPublicKey -> Bytes, j: nat)
    requires LawfulAgreement(c) && BuildRecord(c, recipient, fmk, draw).Ok? && Sound(c, key, secrets)
    ensures
      var rec := BuildRecord(c, recipient, fmk, draw).value;
      && KekFor(c, rec, key, j).Ok?
      && (KeyOf(c, recipient, key, secrets) ==>
            && KekFor(c, rec, key, j).value.Some?
            && Unwrap(rec.encryptedFmk, KekFor(c, rec, key, j).value.value) == Ok(fmk))
  {
    var (capsule, kek) := Encapsulate(c, recipient, draw).value;
    XorKeyInvolutive(fmk, kek);
    if recipient.PublicKeyRecipient? && key.Provider? {
      BuiltForProvider(c, recipient, draw, key.provider, secrets, j);
    }
  }

  /** A recipient's key is sound: encrypting to it already made the checks that could fail. */
  lemma KeyOfIsSound(c: Crypto, recipient: Recipient, fmk: Key, draw: Draw, key: DecryptionKey,
                     secrets: EcPublicKey -> Bytes)
    requires BuildRecord(c, recipient, fmk, draw).Ok? && KeyOf(c, recipient, key, secrets)
    ensures Sound(c, key, secrets)
  {
  }

  /** No master key the offered key unwraps from a record, other than the real one, authenticates the header. */
  ghost predicate NoImpostor(c: Crypto, env: Envelope, records: seq<RecipientRecord>, key: DecryptionKey, fmk: Key) {
    forall j, kek :: 0 <= j < |records| && KekFor(c, records[j], key, j) == Ok(Some(kek)) ==>
      match Unwrap(records[j].encryptedFmk, kek) {
        case Ok(f) => Authenticates(c, env, f) ==> f == fmk
        case Err(_) => true
      }
  }

  /** With allowance for the password records up to the recipient's, the scan opens no later than at that record. */
  lemma {:induction false} BuiltHeaderOpens(c: Crypto, env: Envelope, recipients: seq<Recipient>, fmk: Key,
                                            draws: nat -> Draw,
                                            key: DecryptionKey, secrets: EcPublicKey -> Bytes, allowance: nat, i: nat)
    requires LawfulAgreement(c)
    requires BuildRecords(c, recipients, fmk, draws).Ok? && i < |recipients| && KeyOf(c, recipients[i], key, secrets)
    requires key.Password? ==> ITERATIONS * PasswordCount(recipients[..i + 1]) <= allowance
    requires Authenticates(c, env, fmk)
    requires NoImpostor(c, env, BuildRecords(c, recipients, fmk, draws).value, key, fmk)
    ensures
      var r := Search(RunOf(c, env, BuildRecords(c, recipients, fmk, draws).value, key, allowance).verdicts);
      r.Ok? && r.value.0 <= i && r.value.1 == fmk
  {
    var records := BuildRecords(c, recipients, fmk, draws).value;
    var vs := RunOf(c, env, records, key, allowance).verdicts;
    RecordsAt(c, recipients, fmk, draws, i);
    KeyOfIsSound(c, recipients[i], fmk, draws(i), key, secrets);
    forall j | 0 <= j <= i ensures !vs[j].Fails? && (vs[j].Opens? ==> vs[j].fmk == fmk) && (j == i ==> vs[j].Opens?) {
      BuiltVerdict(c, env, recipients, fmk, draws, key, secrets, allowance, i, j);
      assert vs[j] == VerdictAt(c, env, records, key, allowance, j);
    }
    assert Stops(vs[i]);
    assert FirstStop(vs) <= i;
  }

  /** The verdict on one built record: never a failure, and an opening only with the real master key. */
  lemma {:induction false} BuiltVerdict(c: Crypto, env: Envelope, recipients: seq<Recipient>, fmk: Key,
                                        draws: nat -> Draw,
                                        key: DecryptionKey, secrets: EcPublicKey -> Bytes, allowance: nat,
                                        i: nat, j: nat)
    requires LawfulAgreement(c) && Sound(c, key, secrets)
    requires BuildRecords(c, recipients, fmk, draws).Ok?
    requires j <= i < |recipients| && KeyOf(c, recipients[i], key, secrets)
    requires key.Password? ==> ITERATIONS * PasswordCount(recipients[..i + 1]) <= allowance
    requires Authenticates(c, env, fmk)
    requires NoImpostor(c, env, BuildRecords(c, recipients, fmk, draws).value, key, fmk)
    ensures
      var v := VerdictAt(c, env, BuildRecords(c, recipients, fmk, draws).value, key, allowance, j);
      && !v.Fails? && (v.Opens? ==> v.fmk == fmk) && (j == i ==> v.Opens?)
  {
    hide KekFor, BuildRecord, BuildRecords, Authenticates, KeyOf, Sound;
    var records := BuildRecords(c, recipients, fmk, draws).value;
    RecordsAt(c, recipients, fmk, draws, j);
    BuiltRecordShape(c, recipients[j], fmk, draws(j), key);
    BuiltRecordOpens(c, recipients[j], fmk, draws(j), key, secrets, j);
    BuiltDemand(c, recipients, fmk, draws, key, j + 1);
    PasswordCountGrows(recipients, j + 1, i + 1);
    assert !OverBudget(records, key, allowance, j);
  }

  // ----- the files come back -----

  /** Acceptable names that stay different once canonical. */
  ghost predicate DistinctNames(files: seq<PayloadFile>) {
    && NamesAccepted(files)
    && forall j, k :: 0 <= j < k < |files| ==>
         CanonicalName(files[j].name, DEFAULT_LIMITS) != CanonicalName(files[k].name, DEFAULT_LIMITS)
  }

  /** The same data in the same order, under the canonical form of each name. */
  ghost predicate SameFiles(got: seq<PayloadFile>, files: seq<PayloadFile>) {
    && |got| == |files|
    && forall k :: 0 <= k < |files| ==>
         got[k].data == files[k].data && CanonicalName(files[k].name, DEFAULT_LIMITS) == Ok(got[k].name)
  }

  ghost predicate AllReadBack(items: seq<Item>, files: seq<PayloadFile>) {
    |items| == |files| && forall k :: 0 <= k < |files| ==> ReadsBack(items[k], files[k])
  }

  /** Reading one more written file: it is admitted, because its name is acceptable and new. */
  lemma ReadOneMore(st: Reading<PayloadFile>, item: Item, file: PayloadFile, limits: Limits)
    requires st.failure.None? && |st.out| < limits.maxEntries && ReadsBack(item, file)
    requires CanonicalName(file.name, DEFAULT_LIMITS).Ok?
    requires CanonicalName(file.name, DEFAULT_LIMITS).value !in st.seen
    ensures
      var name := CanonicalName(file.name, DEFAULT_LIMITS).value;
      MemStep(st, item, limits) == Reading(st.out + [PayloadFile(name, file.data)], st.seen + {name}, None)
  {
    CanonicalNameMonotone(file.name, DEFAULT_LIMITS, limits, CanonicalName(file.name, DEFAULT_LIMITS).value);
  }

  lemma {:induction false} PackedFilesRead(items: seq<Item>, files: seq<PayloadFile>, limits: Limits)
    requires AllReadBack(items, files) && DistinctNames(files) && |files| <= limits.maxEntries
    ensures MemRun(items, limits).failure.None?
    ensures SameFiles(MemRun(items, limits).out, files)
    ensures forall n :: n in MemRun(items, limits).seen ==>
      exists k :: 0 <= k < |files| && CanonicalName(files[k].name, DEFAULT_LIMITS) == Ok(n)
  {
    hide CanonicalName, MemStep;
    if items != [] {
      var n := |items| - 1;
      PackedFilesRead(items[..n], files[..n], limits);
      var st := MemRun(items[..n], limits);
      var name := CanonicalName(files[n].name, DEFAULT_LIMITS).value;
      assert name !in st.seen;
      ReadOneMore(st, items[n], files[n], limits);
      forall m | m in st.seen + {name}
        ensures exists k :: 0 <= k < |files| && CanonicalName(files[k].name, DEFAULT_LIMITS) == Ok(m)
      {
        if m in st.seen {
          var k :| 0 <= k < n && CanonicalName(files[..n][k].name, DEFAULT_LIMITS) == Ok(m);
          assert files[k] == files[..n][k];
        } else {
          assert CanonicalName(files[n].name, DEFAULT_LIMITS) == Ok(m);
        }
      }
    }
  }

  /** One act of encryption: the libraries, what was encrypted to whom, and the randomness used. */
  datatype Sending = Sending(
    c: Crypto, codec: Codec, a: Archiver, files: seq<PayloadFile>, recipients: seq<Recipient>, rnd: Randomness)
  {
    function Fmk(): Key {
      GenerateFmk(c, rnd.ikm)
    }

    function Records(): Result<seq<RecipientRecord>> {
      BuildRecords(c, recipients, Fmk(), rnd.draws)
    }

    function Parts(): Result<Envelope> {
      EncryptParts(c, codec, a, files, recipients, rnd)
    }

    function Container(): Result<Bytes> {
      EncryptResult(c, codec, a, files, recipients, rnd)
    }

    ghost predicate Lawful() {
      LawfulAead(c) && LawfulAgreement(c) && LawfulCodec(codec) && LawfulArchiver(a)
    }
  }

  /** One act of opening: which recipient, with what key and what secrets behind it, under what limits. */
  datatype Receiving = Receiving(i: nat, key: DecryptionKey, secrets: EcPublicKey -> Bytes, limits: Limits)

  /** The limits leave room for what was sent: recipients, KDF work up to this recipient, entries and inflated bytes. */
  ghost predicate RoomFor(s: Sending, r: Receiving)
    requires r.i < |s.recipients| && Pack(s.a, s.files).Ok?
  {
    && |s.recipients| <= r.limits.maxRecipients
    && (r.key.Password? ==> ITERATIONS * PasswordCount(s.recipients[..r.i + 1]) <= r.limits.maxTotalKdfIterations)
    && |s.files| <= r.limits.maxEntries
    && Produced(s.a.inflate(Pack(s.a, s.files).value)) <= InflateCeiling(|Pack(s.a, s.files).value|, r.limits)
  }

  /** What was sent was accepted, and is opened with the key of one of its recipients, with room and no impostor. */
  ghost predicate Deliverable(s: Sending, r: Receiving) {
    && s.Lawful() && s.Parts().Ok?
    && r.i < |s.recipients| && KeyOf(s.c, s.recipients[r.i], r.key, r.secrets)
    && RoomFor(s, r)
    && NoImpostor(s.c, s.Parts().value, s.Records().value, r.key, s.Fmk())
  }

  /** The shared part of opening succeeds with the packed files, for the key of any recipient. */
  lemma RecipientDecrypts(s: Sending, r: Receiving)
    requires Deliverable(s, r)
    ensures s.Container().Ok? && Pack(s.a, s.files).Ok?
    ensures
      var d := DecryptCommon(s.c, s.codec, s.Container().value, r.key, r.limits);
      d.Ok? && d.value.plaintext == Pack(s.a, s.files).value && d.value.header.matched.index <= r.i
  {
    hide KeyOf, NoImpostor, LawfulArchiver, LawfulAgreement, InBounds;
    var env, fmk, records := s.Parts().value, s.Fmk(), s.Records().value;
    var header := Header(records, ChaCha20Poly1305);
    EncryptedContainerParses(s.c, s.codec, s.a, s.files, s.recipients, s.rnd);
    DecodeInvertsEncode(s.codec, header);
    BuiltHeaderOpens(s.c, env, s.recipients, fmk, s.rnd.draws, r.key, r.secrets, r.limits.maxTotalKdfIterations, r.i);
    var (k, found) := Search(RunOf(s.c, env, records, r.key, r.limits.maxTotalKdfIterations).verdicts).value;
    assert OpenDecoded(s.c, env, header, r.key, r.limits) == Ok(Opened(env, header, k, fmk));
    PayloadOpens(s.c, env, header, fmk, Pack(s.a, s.files).value, s.rnd.nonce);
  }

  // ----- a stranger's key is refused -----

  /** The key is of the kind a recipient's record is for; a provider must list the very key. */
  ghost predicate Addressed(recipient: Recipient, key: DecryptionKey, j: nat) {
    match recipient
    case PasswordRecipient(_, _) => key.Password?
    case SymmetricRecipient(_, _) => key.Secret?
    case PublicKeyRecipient(_, pk) =>
      && key.Provider? && key.provider.identities(j).Ok?
      && exists id :: id in key.provider.identities(j).value && id.key == pk
  }

  /** No master key the offered key unwraps from any record authenticates the header. */
  ghost predicate Stranger(c: Crypto, env: Envelope, records: seq<RecipientRecord>, key: DecryptionKey) {
    forall j, kek :: 0 <= j < |records| && KekFor(c, records[j], key, j) == Ok(Some(kek)) ==>
      match Unwrap(records[j].encryptedFmk, kek) {
        case Ok(f) => !Authenticates(c, env, f)
        case Err(_) => true
      }
  }

  lemma BuiltRecordCandidate(c: Crypto, recipient: Recipient, fmk: Key, draw: Draw, key: DecryptionKey,
                             secrets: EcPublicKey -> Bytes, j: nat)
    requires LawfulAgreement(c) && BuildRecord(c, recipient, fmk, draw).Ok? && Sound(c, key, secrets)
    ensures
      var kek := KekFor(c, BuildRecord(c, recipient, fmk, draw).value, key, j);
      kek.Ok? && (kek.value.Some? <==> Addressed(recipient, key, j))
  {
    if recipient.PublicKeyRecipient? && key.Provider? {
      BuiltForProvider(c, recipient, draw, key.provider, secrets, j);
    }
  }

  lemma StrangerVerdict(c: Crypto, env: Envelope, recipients: seq<Recipient>, fmk: Key, draws: nat -> Draw,
                        key: DecryptionKey, secrets: EcPublicKey -> Bytes, allowance: nat, j: nat)
    requires LawfulAgreement(c) && Sound(c, key, secrets)
    requires BuildRecords(c, recipients, fmk, draws).Ok? && j < |recipients|
    requires key.Password? ==> ITERATIONS * PasswordCount(recipients) <= allowance
    requires Stranger(c, env, BuildRecords(c, recipients, fmk, draws).value, key)
    ensures VerdictAt(c, env, BuildRecords(c, recipients, fmk, draws).value, key, allowance, j)
         == if Addressed(recipients[j], key, j) then Mismatch else NotForUs
  {
    hide KekFor, BuildRecord, BuildRecords, Authenticates, Addressed, Sound;
    var records := BuildRecords(c, recipients, fmk, draws).value;
    RecordsAt(c, recipients, fmk, draws, j);
    BuiltRecordShape(c, recipients[j], fmk, draws(j), key);
    BuiltRecordCandidate(c, recipients[j], fmk, draws(j), key, secrets, j);
    BuiltDemand(c, recipients, fmk, draws, key, j + 1);
    PasswordCountGrows(recipients, j + 1, |recipients|);
    assert recipients[..|recipients|] == recipients;
    assert !OverBudget(records, key, allowance, j);
  }

  lemma StrangerSearch(vs: seq<Verdict>, recipients: seq<Recipient>, key: DecryptionKey)
    requires |vs| == |recipients|
    requires forall j :: 0 <= j < |vs| ==> vs[j] == if Addressed(recipients[j], key, j) then Mismatch else NotForUs
    ensures Search(vs) == if exists j :: 0 <= j < |recipients| && Addressed(recipients[j], key, j)
      then Err(HeaderHmacMismatch) else Err(NoMatchingRecipient)
  {
    hide Addressed;
    SearchErrors(vs);
    if j :| 0 <= j < |recipients| && Addressed(recipients[j], key, j) {
      assert vs[j].Mismatch?;
    }
  }

  /**
   Sound key material that belongs to nobody is refused by every container umbrik writes: as a failed header
   authentication if some record is of its kind, as no matching recipient otherwise.
   */
  lemma StrangerRefused(s: Sending, key: DecryptionKey, secrets: EcPublicKey -> Bytes, limits: Limits)
    requires s.Lawful() && s.Parts().Ok? && Sound(s.c, key, secrets)
    requires |s.recipients| <= limits.maxRecipients
    requires key.Password? ==> ITERATIONS * PasswordCount(s.recipients) <= limits.maxTotalKdfIterations
    requires Stranger(s.c, s.Parts().value, s.Records().value, key)
    ensures s.Container().Ok?
    ensures DecryptCommon(s.c, s.codec, s.Container().value, key, limits) ==
      if exists j :: 0 <= j < |s.recipients| && Addressed(s.recipients[j], key, j)
      then Err(HeaderHmacMismatch) else Err(NoMatchingRecipient)
  {
    hide Sound, Stranger, Addressed, LawfulArchiver, LawfulAgreement, LawfulAead, InBounds, VerdictAt, Search;
    var env, fmk, records := s.Parts().value, s.Fmk(), s.Records().value;
    var header := Header(records, ChaCha20Poly1305);
    EncryptedContainerParses(s.c, s.codec, s.a, s.files, s.recipients, s.rnd);
    DecodeInvertsEncode(s.codec, header);
    var vs := RunOf(s.c, env, records, key, limits.maxTotalKdfIterations).verdicts;
    forall j | 0 <= j < |records| ensures vs[j] == if Addressed(s.recipients[j], key, j) then Mismatch else NotForUs {
      StrangerVerdict(s.c, env, s.recipients, fmk, s.rnd.draws, key, secrets, limits.maxTotalKdfIterations, j);
    }
    StrangerSearch(vs, s.recipients, key);
    assert OpenDecoded(s.c, env, header, key, limits) == Err(Search(vs).error);
  }

  // ----- an edited header is refused -----

  /**
   A container whose header bytes were changed while the stored HMAC was kept opens for no key at all, unless the HMAC
   of the new bytes under the key found there collides with that of the old bytes under the real one.
   */
  lemma ChangedHeaderRefused(c: Crypto, codec: Codec, env: Envelope, fmk: Key, changed: Bytes, key: DecryptionKey,
                             limits: Limits)
    requires Authenticates(c, env, fmk) && Parse(changed).Ok?
    requires Parse(changed).value.headerHmac == env.headerHmac
    requires Parse(changed).value.headerBytes != env.headerBytes
    ensures
      var got := DecryptCommon(c, codec, changed, key, limits);
      got.Ok? ==>
        && got.value.env == Parse(changed).value
        && HeaderMac(c, got.value.header.fmk, got.value.env.headerBytes) == HeaderMac(c, fmk, env.headerBytes)
  {
    if DecryptCommon(c, codec, changed, key, limits).Ok? {
      VerifiedBeforeUse(c, codec, changed, key, limits);
    }
  }

  /**
   The label of any record, public-key ones included, lies in the authenticated header: once it is edited and the rest
   of the container kept, nobody opens it but for such a collision.
   */
  lemma EditedLabelRefused(s: Sending, j: nat, keyLabel: Text, changed: Bytes, key: DecryptionKey, limits: Limits)
    requires s.Lawful() && s.Parts().Ok? && j < |s.recipients| && keyLabel != s.recipients[j].keyLabel
    requires
      var edited := Encode(s.codec, Header(Relabelled(s.Records().value, j, keyLabel), ChaCha20Poly1305));
      edited.Ok? && Parse(changed) == Ok(s.Parts().value.(headerBytes := edited.value))
    ensures
      var got := DecryptCommon(s.c, s.codec, changed, key, limits);
      got.Ok? ==>
        && got.value.env.headerBytes != s.Parts().value.headerBytes
        && HeaderMac(s.c, got.value.header.fmk, got.value.env.headerBytes)
           == HeaderMac(s.c, s.Fmk(), s.Parts().value.headerBytes)
  {
    hide LawfulArchiver, LawfulAgreement, LawfulAead, LawfulCodec, DecryptCommon, EncodeRecords;
    var env, records := s.Parts().value, s.Records().value;
    var header, header' := Header(records, ChaCha20Poly1305),
                           Header(Relabelled(records, j, keyLabel), ChaCha20Poly1305);
    RecordsAt(s.c, s.recipients, s.Fmk(), s.rnd.draws, j);
    assert records[j].keyLabel == s.recipients[j].keyLabel;
    assert header'.recipients[j].keyLabel != header.recipients[j].keyLabel;
    DecodeInvertsEncode(s.codec, header);
    DecodeInvertsEncode(s.codec, header');
    ChangedHeaderRefused(s.c, s.codec, env, s.Fmk(), changed, key, limits);
  }

  /** What a search opens with authenticates the header, so without an impostor it is the real master key. */
  lemma FoundIsReal(c: Crypto, env: Envelope, records: seq<RecipientRecord>, key: DecryptionKey, allowance: nat,
                    fmk: Key)
    requires NoImpostor(c, env, records, key, fmk)
    ensures
      var found := Search(RunOf(c, env, records, key, allowance).verdicts);
      found.Ok? ==> found.value.1 == fmk && Authenticates(c, env, fmk)
  {
    hide KekFor, Authenticates;
    var vs := RunOf(c, env, records, key, allowance).verdicts;
    if Search(vs).Ok? {
      var (i, found) := Search(vs).value;
      SearchOkIff(vs, i, found);
      assert vs[i] == VerdictAt(c, env, records, key, allowance, i);
    }
  }

  /**
   When an edit to the label of a public-key record does leave the container readable: for every recipient it opens if
   and only if the stored HMAC is the one the master key gives for the bytes now in the header.
   */
  lemma EcLabelEditOpensIff(s: Sending, r: Receiving, j: nat, keyLabel: Text, env: Envelope)
    requires LawfulAgreement(s.c) && s.Records().Ok?
    requires j < |s.recipients| <= r.limits.maxRecipients && s.recipients[j].PublicKeyRecipient?
    requires r.i < |s.recipients| && KeyOf(s.c, s.recipients[r.i], r.key, r.secrets)
    requires
      r.key.Password? ==> ITERATIONS * PasswordCount(s.recipients[..r.i + 1]) <= r.limits.maxTotalKdfIterations
    requires NoImpostor(s.c, env, s.Records().value, r.key, s.Fmk())
    ensures
      var header := Header(Relabelled(s.Records().value, j, keyLabel), ChaCha20Poly1305);
      var got := OpenDecoded(s.c, env, header, r.key, r.limits);
      && (got.Ok? <==> env.headerHmac == HeaderMac(s.c, s.Fmk(), env.headerBytes))
      && (got.Ok? ==> got.value.fmk == s.Fmk())
  {
    hide KeyOf, VerdictAt, BuildRecords, NoImpostor, Search;
    var records, allowance := s.Records().value, r.limits.maxTotalKdfIterations;
    RecordsAt(s.c, s.recipients, s.Fmk(), s.rnd.draws, j);
    EcLabelIsFree(s.c, env, records, r.key, allowance, j, keyLabel);
    FoundIsReal(s.c, env, records, r.key, allowance, s.Fmk());
    if Authenticates(s.c, env, s.Fmk()) {
      BuiltHeaderOpens(s.c, env, s.recipients, s.Fmk(), s.rnd.draws, r.key, r.secrets, allowance, r.i);
    }
  }

  // ----- the files arrive -----

  /** The payload sealed by the writer opens under the verified header. */
  lemma PayloadOpens(c: Crypto, env: Envelope, header: Header, fmk: Key, plaintext: Bytes, nonce: Nonce)
    requires LawfulAead(c) && header.payloadMethod == ChaCha20Poly1305
    requires env.headerHmac == HeaderMac(c, fmk, env.headerBytes)
    requires env.payload == SealedPayload(c, fmk, env.headerBytes, plaintext, nonce)
    ensures
      var verified := VerifiedHeader(header, BuildAad(env.headerBytes, env.headerHmac));
      DecryptPayload(c, env, verified, fmk) == Ok(plaintext)
  {
    var aad := BuildAad(env.headerBytes, env.headerHmac);
    var sealed := c.seal(DeriveCek(c, fmk), nonce, aad, plaintext);
    assert env.payload[..NONCE_LEN] == nonce && env.payload[NONCE_LEN..] == sealed;
  }

  /** The archive stream of a delivered container is the files as written. */
  lemma DeliveredStream(s: Sending, r: Receiving)
    requires Deliverable(s, r)
    ensures Pack(s.a, s.files).Ok?
    ensures
      var stream := StreamOf(s.a, Pack(s.a, s.files).value, r.limits);
      stream.Items? && AllReadBack(stream.items, s.files)
  {
    hide KeyOf, NoImpostor, LawfulAgreement, LawfulCodec, LawfulAead, ReadsBack, InflateCeiling;
    NoBadNameIff(s.files);
    var bytes := Pack(s.a, s.files).value;
    InvisibleIffFits(s.a.inflate(bytes), InflateCeiling(|bytes|, r.limits));
  }

  /** Written files can only be refused for a repeated name. */
  lemma {:induction false} OnlyDuplicatesRefused(items: seq<Item>, files: seq<PayloadFile>, limits: Limits)
    requires AllReadBack(items, files) && NamesAccepted(files) && |files| <= limits.maxEntries
    ensures var st := MemRun(items, limits);
      |st.out| <= |items| && (st.failure.Some? ==> st.failure.value == UnsafeArchiveEntry(DuplicateName))
  {
    hide CanonicalName;
    if items != [] {
      var n := |items| - 1;
      OnlyDuplicatesRefused(items[..n], files[..n], limits);
      CanonicalNameMonotone(files[n].name, DEFAULT_LIMITS, limits, CanonicalName(files[n].name, DEFAULT_LIMITS).value);
    }
  }

  /** What unpacks had distinct canonical names to begin with. */
  lemma {:induction false} UnpackedWereDistinct(items: seq<Item>, files: seq<PayloadFile>, limits: Limits)
    requires AllReadBack(items, files) && NamesAccepted(files) && MemRun(items, limits).failure.None?
    ensures DistinctNames(files)
  {
    hide CanonicalName, MemRun;
    MemoryIsExact(items, limits);
    AllAreFiles(items, files);
    var out := MemRun(items, limits).out;
    forall k | 0 <= k < |files| ensures CanonicalName(files[k].name, DEFAULT_LIMITS) == Ok(out[k].name) {
      assert ReadsBack(items[k], files[k]);
      CanonicalNameMonotone(files[k].name, DEFAULT_LIMITS, limits, CanonicalName(files[k].name, DEFAULT_LIMITS).value);
    }
  }

  /** With coinciding names, unpacking to memory stops at the repeated one. */
  lemma RepeatedNameRefused(items: seq<Item>, files: seq<PayloadFile>, limits: Limits)
    requires AllReadBack(items, files) && NamesAccepted(files) && |files| <= limits.maxEntries
    requires !DistinctNames(files)
    ensures MemRun(items, limits).failure == Some(UnsafeArchiveEntry(DuplicateName))
  {
    hide CanonicalName, MemRun;
    OnlyDuplicatesRefused(items, files, limits);
    if MemRun(items, limits).failure.None? {
      UnpackedWereDistinct(items, files, limits);
    }
  }

  /**
   End to end: whatever `encrypt` accepts, each single recipient's key returns exactly those files in order if their
   canonical names differ; if two coincide, which `encrypt` does not check, every recipient is refused.
   */
  lemma {:induction false} EndToEndMemory(s: Sending, r: Receiving)
    requires Deliverable(s, r)
    ensures s.Container().Ok?
    ensures
      var got := DecryptToMemoryResult(s.c, s.codec, s.a, s.Container().value, r.key, r.limits);
      if DistinctNames(s.files) then got.Ok? && SameFiles(got.value, s.files)
      else got == Err(UnsafeArchiveEntry(DuplicateName))
  {
    hide DecryptCommon, MemRun, SameFiles, DistinctNames, AllReadBack, KeyOf, NoImpostor, LawfulArchiver;
    RecipientDecrypts(s, r);
    DeliveredStream(s, r);
    var items := StreamOf(s.a, Pack(s.a, s.files).value, r.limits).items;
    if DistinctNames(s.files) {
      PackedFilesRead(items, s.files, r.limits);
    } else {
      NoBadNameIff(s.files);
      RepeatedNameRefused(items, s.files, r.limits);
    }
  }

  /** Each file is listed under its canonical name with the length of its data, in order. */
  ghost predicate ListedExactly(entries: seq<ArchiveEntry>, files: seq<PayloadFile>) {
    && |entries| == |files|
    && forall k :: 0 <= k < |files| ==>
         CanonicalName(files[k].name, DEFAULT_LIMITS) == Ok(entries[k].name) && entries[k].size == |files[k].data|
  }

  lemma PackedFilesListed(items: seq<Item>, files: seq<PayloadFile>, limits: Limits)
    requires AllReadBack(items, files) && NamesAccepted(files) && |files| <= limits.maxEntries
    ensures
      var got := ListResult(Items(items), limits);
      if DistinctNames(files) then got.Ok? && ListedExactly(got.value, files)
      else got == Err(UnsafeArchiveEntry(DuplicateName))
  {
    hide CanonicalName, MemRun, ListRun, SameFiles, DistinctNames;
    AllAreFiles(items, files);
    ListAgreesWithMemory(items, limits);
    if !DistinctNames(files) {
      RepeatedNameRefused(items, files, limits);
    } else {
      PackedFilesRead(items, files, limits);
      ListIsExact(items, limits);
      PackedNames(items, files, limits);
    }
  }

  /** End to end, listed: every recipient's key shows the canonical names and sizes, or the duplicate-name error. */
  lemma {:induction false} EndToEndList(s: Sending, r: Receiving)
    requires Deliverable(s, r)
    ensures s.Container().Ok?
    ensures
      var got := ListContainerResult(s.c, s.codec, s.a, s.Container().value, r.key, r.limits);
      if DistinctNames(s.files) then got.Ok? && ListedExactly(got.value, s.files)
      else got == Err(UnsafeArchiveEntry(DuplicateName))
  {
    hide DecryptCommon, ListResult, ListedExactly, DistinctNames, AllReadBack, KeyOf, NoImpostor, LawfulArchiver;
    RecipientDecrypts(s, r);
    DeliveredStream(s, r);
    NoBadNameIff(s.files);
    PackedFilesListed(StreamOf(s.a, Pack(s.a, s.files).value, r.limits).items, s.files, r.limits);
  }

  /** Two spellings of one name pass the checks of `pack`; as just shown, no reader accepts what it then builds. */
  lemma PackAcceptsDuplicates(first: Bytes, second: Bytes)
    ensures
      var files := [PayloadFile("a", first), PayloadFile("./a", second)];
      FirstBadName(files).None? && !DistinctNames(files)
  {
    var files := [PayloadFile("a", first), PayloadFile("./a", second)];
    SafeNameIsCanonical("a", DEFAULT_LIMITS);
    SplitAtFirst(".", '/', "a");
    SplitWhole("a", '/');
    assert "." + ['/'] + "a" == "./a";
    assert Split("./a", '/') == [".", "a"];
    assert [".", "a"][1..] == ["a"] && ["a"][1..] == [];
    assert Meaningful(["a"]) == ["a"];
    assert Meaningful([".", "a"]) == ["a"];
    CanonicalNameIff("./a", DEFAULT_LIMITS, "a");
    assert CanonicalName(files[0].name, DEFAULT_LIMITS) == CanonicalName(files[1].name, DEFAULT_LIMITS) == Ok("a");
    NoBadNameIff(files);
  }

  /** The files are on disk, listed under their canonical names with their sizes, and nothing else changed. */
  ghost predicate OnDiskExactly(d: Disk, after: Disk, entries: seq<ArchiveEntry>, files: seq<PayloadFile>) {
    && ListedExactly(entries, files)
    && (forall k :: 0 <= k < |files| ==>
          entries[k].name in after.nodes && after.nodes[entries[k].name] == File(files[k].data))
    && after.outside == d.outside
    && (forall p :: p in d.nodes ==> p in after.nodes && after.nodes[p] == d.nodes[p])
    && (forall p :: p in after.nodes && p !in d.nodes ==> IsOutput(p, entries))
  }

  ghost predicate NamesFree(d: Disk, files: seq<PayloadFile>) {
    forall k :: 0 <= k < |files| && CanonicalName(files[k].name, DEFAULT_LIMITS).Ok? ==>
      CanonicalName(files[k].name, DEFAULT_LIMITS).value !in d.nodes
  }

  /**
   End to end to disk: into a directory free of the names, exactly the files appear and nothing else changes; with
   coinciding names every recipient is refused and the disk is as it was.
   */
  lemma {:induction false} EndToEndDir(s: Sending, r: Receiving, d: Disk, faults: Faults)
    requires Deliverable(s, r)
    requires Faultless(faults) && NamesFree(d, s.files)
    ensures s.Container().Ok?
    ensures
      var (after, got) := DecryptToDirOutcome(s.c, s.codec, s.a, s.Container().value, r.key, r.limits, d, faults);
      if DistinctNames(s.files)
      then got.Ok? && got.value.1.index <= r.i && OnDiskExactly(d, after, got.value.0, s.files)
      else got == Err(UnsafeArchiveEntry(DuplicateName)) && after == d
  {
    hide DecryptCommon, DistinctNames, AllReadBack, KeyOf, NoImpostor, LawfulArchiver, UnpackOutcome, OnDiskExactly,
      NamesFree, Faultless;
    RecipientDecrypts(s, r);
    DeliveredStream(s, r);
    NoBadNameIff(s.files);
    PackedFilesOnDisk(StreamOf(s.a, Pack(s.a, s.files).value, r.limits).items, s.files, r.limits, d, faults);
  }

  /** Written files read back under the names they were accepted with. */
  lemma PackedNames(items: seq<Item>, files: seq<PayloadFile>, limits: Limits)
    requires AllReadBack(items, files) && NamesAccepted(files)
    ensures |items| == |files|
    ensures forall k :: 0 <= k < |files| ==>
      CanonicalName(items[k].entry.path, limits) == CanonicalName(files[k].name, DEFAULT_LIMITS)
  {
    hide CanonicalName;
    forall k | 0 <= k < |files|
      ensures CanonicalName(items[k].entry.path, limits) == CanonicalName(files[k].name, DEFAULT_LIMITS)
    {
      CanonicalNameMonotone(files[k].name, DEFAULT_LIMITS, limits, CanonicalName(files[k].name, DEFAULT_LIMITS).value);
      assert ReadsBack(items[k], files[k]);
    }
  }

  lemma PackedFilesOnDisk(items: seq<Item>, files: seq<PayloadFile>, limits: Limits, d: Disk, faults: Faults)
    requires AllReadBack(items, files) && NamesAccepted(files) && |files| <= limits.maxEntries
    requires Faultless(faults) && NamesFree(d, files)
    ensures
      var o := UnpackOutcome(d, Items(items), limits, faults);
      if DistinctNames(files) then o.result.Ok? && OnDiskExactly(d, o.disk, o.result.value, files)
      else o == Outcome(d, Err(UnsafeArchiveEntry(DuplicateName)))
  {
    hide CanonicalName, MemRun, UnpackOutcome, DistinctNames, OnDiskExactly, AllReadBack;
    assert FreeOf(d, items, limits) by { PackedNames(items, files, limits); }
    AllAreFiles(items, files);
    if DistinctNames(files) {
      DistinctFilesOnDisk(items, files, limits, d, faults);
    } else {
      DirAgreesWithMemory(d, items, limits, faults);
      RepeatedNameRefused(items, files, limits);
      AllOrNothing(d, items, limits, faults);
    }
  }

  lemma DistinctAreAccepted(files: seq<PayloadFile>)
    requires DistinctNames(files)
    ensures NamesAccepted(files)
  {
  }

  /** An exact extraction of written files has them on disk under new names. */
  lemma ExactMeansListed(d: Disk, disk: Disk, out: seq<ArchiveEntry>, items: seq<Item>, files: seq<PayloadFile>,
                         limits: Limits)
    requires AllReadBack(items, files) && NamesAccepted(files) && NamesFree(d, files)
    requires ExactOutput(disk, out, items, limits)
    ensures ListedExactly(out, files)
    ensures forall k :: 0 <= k < |files| ==>
      && out[k].name !in d.nodes
      && out[k].name in disk.nodes && disk.nodes[out[k].name] == File(files[k].data)
  {
    hide CanonicalName, AllReadBack;
    AllAreFiles(items, files);
    PackedNames(items, files, limits);
    forall k | 0 <= k < |files|
      ensures CanonicalName(files[k].name, DEFAULT_LIMITS) == Ok(out[k].name) && out[k].size == |files[k].data|
    {
      assert FileEntries(items)[k] == items[k].entry;
    }
  }

  /** What an exact extraction of written files amounts to in a directory free of their names. */
  lemma ExactMeansOnDisk(d: Disk, disk: Disk, out: seq<ArchiveEntry>, items: seq<Item>, files: seq<PayloadFile>,
                         limits: Limits)
    requires AllReadBack(items, files) && NamesAccepted(files) && NamesFree(d, files)
    requires ExactOutput(disk, out, items, limits) && NothingElse(d, disk, out, items, limits)
    requires disk.outside == d.outside
    ensures OnDiskExactly(d, disk, out, files)
  {
    hide CanonicalName, AllReadBack, NamesAccepted, NamesFree, ExactOutput;
    ExactMeansListed(d, disk, out, items, files, limits);
    AllAreFiles(items, files);
  }

  lemma DistinctFilesOnDisk(items: seq<Item>, files: seq<PayloadFile>, limits: Limits, d: Disk, faults: Faults)
    requires AllReadBack(items, files) && DistinctNames(files) && |files| <= limits.maxEntries
    requires Faultless(faults) && NamesFree(d, files) && FreeOf(d, items, limits)
    ensures
      var o := UnpackOutcome(d, Items(items), limits, faults);
      o.result.Ok? && OnDiskExactly(d, o.disk, o.result.value, files)
  {
    hide CanonicalName, MemRun, UnpackOutcome, Faultless, AllReadBack, DistinctNames, NamesAccepted, SameFiles, FreeOf,
      NamesFree, OnDiskExactly, ExactOutput, NothingElse, SizesReadable, FaultsPropagate, NoDirectories;
    DistinctAreAccepted(files);
    AllAreFiles(items, files);
    PackedFilesRead(items, files, limits);
    DirAgreesWithMemory(d, items, limits, faults);
    UnpackIsExact(d, Items(items), limits, faults);
    var o := UnpackOutcome(d, Items(items), limits, faults);
    ExactMeansOnDisk(d, o.disk, o.result.value, items, files, limits);
  }

  lemma {:induction false} AllAreFiles(items: seq<Item>, files: seq<PayloadFile>)
    requires AllReadBack(items, files)
    ensures |FileEntries(items)| == |items| == |files|
    ensures forall k :: 0 <= k < |items| ==>
      && items[k].Next? && items[k].entry.data == files[k].data && items[k].entry.size == Some(|files[k].data|)
    ensures forall k :: 0 <= k < |items| ==> FileEntries(items)[k] == items[k].entry
    ensures NoDirectories(items) && SizesReadable(items) && FaultsPropagate(items)
  {
    if items != [] {
      AllAreFiles(items[..|items| - 1], files[..|items| - 1]);
    }
  }
}
