/**
 Whole containers (crates/umbrik-core/src/container.rs): writing one, and the entry points that open one.
 Randomness, the archive library and the output medium are parameters.
 */
module Container {
  import opened Basics
  import opened LimitsModel
  import opened Inflate
  import opened EnvelopeModel
  import opened HeaderCodec
  import opened Keys
  import opened Schemes
  import opened Opening
  import opened EntryNames
  import opened Archive
  import opened Extraction

  const NONCE_LEN: nat := 12

  type Nonce = b: Bytes | |b| == 12 witness seq(12, _ => 0)

  datatype Recipient =
    | PasswordRecipient(keyLabel: Text, password: Text)
    | SymmetricRecipient(keyLabel: Text, secret: Bytes)
    | PublicKeyRecipient(keyLabel: Text, key: EcPublicKey)

  /** The random values one recipient may consume: two salts and an ephemeral secret. */
  datatype Draw = Draw(salt: Key, passwordSalt: Key, ephemeral: Bytes)

  datatype Randomness = Randomness(ikm: Bytes, draws: nat -> Draw, nonce: Nonce)

  // ----- the archive library -----

  /**
   tar and zlib: writing, the reads that inflating some bytes answers, and the entries parsed from those bytes given
   the answers that came through the limited reader.
   */
  datatype Archiver = Archiver(
    write: seq<PayloadFile> -> Option<Bytes>,
    inflate: Bytes -> seq<Chunk>,
    parse: (Bytes, seq<Reply>) -> Stream)

  predicate NamesAccepted(files: seq<PayloadFile>) {
    forall k :: 0 <= k < |files| ==> CanonicalName(files[k].name, DEFAULT_LIMITS).Ok?
  }

  /** The entry a written file reads back as; tar may drop `.` components, which no verdict depends on. */
  ghost predicate ReadsBack(item: Item, file: PayloadFile) {
    && item.Next? && item.entry.kind == Regular && item.entry.fault.None?
    && item.entry.size == Some(|file.data|) && item.entry.data == file.data
    && forall limits :: CanonicalName(item.entry.path, limits) == CanonicalName(file.name, limits)
  }

  /** What is written under acceptable names reads back in order when every read comes through. */
  ghost predicate LawfulArchiver(a: Archiver) {
    forall files :: NamesAccepted(files) && a.write(files).Some? ==>
      var bytes := a.write(files).value;
      var s := a.parse(bytes, PassedThrough(a.inflate(bytes)));
      && |bytes| >= 17
      && s.Items? && |s.items| == |files| && forall k :: 0 <= k < |files| ==> ReadsBack(s.items[k], files[k])
  }

  /** The contents of entries that can be accepted are bytes that reads delivered, none of them twice. */
  ghost predicate Metered(a: Archiver) {
    forall bytes, replies ::
      var s := a.parse(bytes, replies);
      s.Items? ==> StreamData(s.items) <= DeliveredBytes(replies)
  }

  function FirstBadName(files: seq<PayloadFile>): Option<Error> {
    if files == [] then None
    else
      var before := FirstBadName(files[..|files| - 1]);
      if before.Some? then before
      else
        match CanonicalName(files[|files| - 1].name, DEFAULT_LIMITS)
        case Ok(_) => None
        case Err(error) => Some(error)
  }

  lemma {:induction false} NoBadNameIff(files: seq<PayloadFile>)
    ensures FirstBadName(files).None? <==> NamesAccepted(files)
  {
    hide CanonicalName;
    if files != [] {
      var before, last := files[..|files| - 1], files[|files| - 1];
      NoBadNameIff(before);
      assert files == before + [last];
      assert NamesAccepted(files) <==> NamesAccepted(before) && CanonicalName(last.name, DEFAULT_LIMITS).Ok? by {
        assert forall k :: 0 <= k < |before| ==> files[k] == before[k];
      }
    }
  }

  /** `pack`: names are checked one by one before anything is written; uniqueness is not. */
  function Pack(a: Archiver, files: seq<PayloadFile>): Result<Bytes> {
    if files == [] then Err(InvalidKeyMaterial(NoFiles))
    else if FirstBadName(files).Some? then Err(FirstBadName(files).value)
    else if a.write(files).None? then Err(Io)
    else Ok(a.write(files).value)
  }

  method PackFiles(a: Archiver, files: seq<PayloadFile>) returns (r: Result<Bytes>)
    ensures r == Pack(a, files)
  {
    if files == [] {
      return Err(InvalidKeyMaterial(NoFiles));
    }
    for i := 0 to |files|
      invariant FirstBadName(files[..i]).None?
    {
      assert files[..i + 1][..i] == files[..i];
      var name := SafeRelativePath(files[i].name, DEFAULT_LIMITS);
      if name.Err? {
        FirstBadNameSticks(files, i + 1);
        return Err(name.error);
      }
    }
    assert files[..|files|] == files;
    var bytes := a.write(files);
    return if bytes.None? then Err(Io) else Ok(bytes.value);
  }

  lemma {:induction false} FirstBadNameSticks(files: seq<PayloadFile>, n: nat)
    requires n <= |files| && FirstBadName(files[..n]).Some?
    ensures FirstBadName(files) == FirstBadName(files[..n])
  {
    if n < |files| {
      assert files[..|files| - 1][..n] == files[..n];
      FirstBadNameSticks(files[..|files| - 1], n);
    } else {
      assert files[..n] == files;
    }
  }

  // ----- recipient records -----

  /** The capsule stored for a recipient and the KEK it stands for. */
  function Encapsulate(c: Crypto, recipient: Recipient, draw: Draw): Result<(Capsule, Key)> {
    match recipient
    case SymmetricRecipient(keyLabel, secret) =>
      var kek :- Sc05Kek(c, secret, draw.salt, keyLabel);
      Ok((SymmetricKey(draw.salt), kek))
    case PasswordRecipient(keyLabel, password) =>
      var kek :- Sc06Kek(c, password, draw.salt, draw.passwordSalt, ITERATIONS, keyLabel);
      Ok((Pbkdf2(draw.salt, draw.passwordSalt, Pbkdf2WithHmacSha256, ITERATIONS), kek))
    case PublicKeyRecipient(_, key) =>
      if key.curve != Secp384r1 && key.curve != Secp256r1 then Err(InvalidKeyMaterial(UnsupportedCurve))
      else
        match c.agree(key.curve, draw.ephemeral, key.point)
        case None => Err(InvalidKeyMaterial(InvalidEcPoint))
        case Some(shared) =>
          var sender := c.publicPoint(key.curve, draw.ephemeral);
          var kek :- Sc01Kek(c, shared, key.point, sender);
          Ok((EccPublicKey(key.curve, key.point, sender), kek))
  }

  /** `build_recipient_record`. */
  function BuildRecord(c: Crypto, recipient: Recipient, fmk: Key, draw: Draw): Result<RecipientRecord> {
    var (capsule, kek) :- Encapsulate(c, recipient, draw);
    Ok(RecipientRecord(recipient.keyLabel, XorKey(fmk, kek), Xor, capsule))
  }

  function BuildRecords(c: Crypto, recipients: seq<Recipient>, fmk: Key, draws: nat -> Draw)
    : (r: Result<seq<RecipientRecord>>)
    ensures r.Ok? ==> |r.value| == |recipients|
  {
    if recipients == [] then Ok([])
    else
      var n := |recipients| - 1;
      var before :- BuildRecords(c, recipients[..n], fmk, draws);
      var last :- BuildRecord(c, recipients[n], fmk, draws(n));
      Ok(before + [last])
  }

  lemma {:induction false} RecordsAt(c: Crypto, recipients: seq<Recipient>, fmk: Key, draws: nat -> Draw, j: nat)
    requires BuildRecords(c, recipients, fmk, draws).Ok? && j < |recipients|
    ensures BuildRecord(c, recipients[j], fmk, draws(j)) == Ok(BuildRecords(c, recipients, fmk, draws).value[j])
  {
    if j < |recipients| - 1 {
      RecordsAt(c, recipients[..|recipients| - 1], fmk, draws, j);
    }
  }

  // ----- encryption -----

  function GenerateFmk(c: Crypto, ikm: Bytes): Key {
    c.extract(FMK_SALT, ikm)
  }

  /** Nonce and sealed plaintext, bound to a header and its HMAC. */
  function SealedPayload(c: Crypto, fmk: Key, headerBytes: Bytes, plaintext: Bytes, nonce: Nonce): Bytes {
    var aad := BuildAad(headerBytes, HeaderMac(c, fmk, headerBytes));
    nonce + c.seal(DeriveCek(c, fmk), nonce, aad, plaintext)
  }

  /** The framed parts of a container `encrypt` writes. */
  function EncryptParts(c: Crypto, codec: Codec, a: Archiver, files: seq<PayloadFile>, recipients: seq<Recipient>,
                        rnd: Randomness): Result<Envelope>
  {
    if recipients == [] then Err(InvalidKeyMaterial(NoRecipients))
    else
      var fmk := GenerateFmk(c, rnd.ikm);
      var records :- BuildRecords(c, recipients, fmk, rnd.draws);
      var headerBytes :- Encode(codec, Header(records, ChaCha20Poly1305));
      var plaintext :- Pack(a, files);
      Ok(Envelope(headerBytes, HeaderMac(c, fmk, headerBytes),
                  SealedPayload(c, fmk, headerBytes, plaintext, rnd.nonce)))
  }

  lemma EncryptedHeaderFits(c: Crypto, codec: Codec, a: Archiver, files: seq<PayloadFile>, recipients: seq<Recipient>,
                            rnd: Randomness)
    requires EncryptParts(c, codec, a, files, recipients, rnd).Ok?
    ensures |EncryptParts(c, codec, a, files, recipients, rnd).value.headerBytes| <= MAX_HEADER_LEN
  {
  }

  /** The bytes of the container, or the error that prevents it. */
  function EncryptResult(c: Crypto, codec: Codec, a: Archiver, files: seq<PayloadFile>, recipients: seq<Recipient>,
                         rnd: Randomness): Result<Bytes>
  {
    var env :- EncryptParts(c, codec, a, files, recipients, rnd);
    EncryptedHeaderFits(c, codec, a, files, recipients, rnd);
    Ok(Frame(env))
  }

  /** An output that may run full. */
  class Output {
    var written: Bytes
    const room: Option<nat>

    constructor (room: Option<nat>)
      ensures written == [] && this.room == room
    {
      written := [];
      this.room := room;
    }

    method WriteAll(b: Bytes) returns (ok: bool)
      modifies this
      ensures ok ==> written == old(written) + b
      ensures !ok ==> old(written) <= written < old(written) + b
    {
      if b == [] || room.None? || |written| + |b| <= room.value {
        written := written + b;
        return true;
      }
      if |written| < room.value {
        written := written + b[..room.value - |written|];
      }
      return false;
    }
  }

  method BuildAll(c: Crypto, recipients: seq<Recipient>, fmk: Key, draws: nat -> Draw)
    returns (r: Result<seq<RecipientRecord>>)
    ensures r == BuildRecords(c, recipients, fmk, draws)
  {
    var records: seq<RecipientRecord> := [];
    for i := 0 to |recipients|
      invariant BuildRecords(c, recipients[..i], fmk, draws) == Ok(records)
    {
      assert recipients[..i + 1][..i] == recipients[..i];
      var capsule := Encapsulate(c, recipients[i], draws(i));
      if capsule.Err? {
        BuildStopsAt(c, recipients, fmk, draws, i + 1);
        return Err(capsule.error);
      }
      var wrapped := WrapXor(fmk, capsule.value.1);
      records := records + [RecipientRecord(recipients[i].keyLabel, wrapped, Xor, capsule.value.0)];
    }
    assert recipients[..|recipients|] == recipients;
    return Ok(records);
  }

  lemma {:induction false} BuildStopsAt(c: Crypto, recipients: seq<Recipient>, fmk: Key, draws: nat -> Draw, n: nat)
    requires n <= |recipients| && BuildRecords(c, recipients[..n], fmk, draws).Err?
    ensures BuildRecords(c, recipients, fmk, draws) == BuildRecords(c, recipients[..n], fmk, draws)
  {
    if n < |recipients| {
      assert recipients[..|recipients| - 1][..n] == recipients[..n];
      BuildStopsAt(c, recipients[..|recipients| - 1], fmk, draws, n);
    } else {
      assert recipients[..n] == recipients;
    }
  }

  /**
   `encrypt`: nothing is written until every part exists; then the seven parts follow each other,
   and a full output leaves a strict prefix of the container.
   */
  method Encrypt(c: Crypto, codec: Codec, a: Archiver, files: seq<PayloadFile>, recipients: seq<Recipient>,
                 rnd: Randomness, out: Output) returns (r: Result<()>)
    modifies out
    ensures
      var spec := EncryptResult(c, codec, a, files, recipients, rnd);
      if spec.Err? then r == Err(spec.error) && out.written == old(out.written)
      else
        || (r == Ok(()) && out.written == old(out.written) + spec.value)
        || (r == Err(Io) && old(out.written) <= out.written < old(out.written) + spec.value)
  {
    if recipients == [] {
      return Err(InvalidKeyMaterial(NoRecipients));
    }
    var fmk := GenerateFmk(c, rnd.ikm);
    var records :- BuildAll(c, recipients, fmk, rnd.draws);
    var headerBytes :- EncodeLoop(codec, Header(records, ChaCha20Poly1305));
    var mac := HeaderMac(c, fmk, headerBytes);
    var plaintext :- PackFiles(a, files);
    var payload := SealedPayload(c, fmk, headerBytes, plaintext, rnd.nonce);
    var env := Envelope(headerBytes, mac, payload);
    assert EncryptParts(c, codec, a, files, recipients, rnd) == Ok(env);
    var parts := [PRELUDE, [VERSION], ToBigEndian(|headerBytes|), headerBytes, mac,
                  payload[..NONCE_LEN], payload[NONCE_LEN..]];
    PartsMakeFrame(env, parts);
    var ok := WriteParts(parts, out);
    return if ok then Ok(()) else Err(Io);
  }

  function Concat(parts: seq<Bytes>): Bytes {
    if parts == [] then [] else Concat(parts[..|parts| - 1]) + parts[|parts| - 1]
  }

  lemma {:induction false} ConcatPrefix(parts: seq<Bytes>, n: nat)
    requires n <= |parts|
    ensures Concat(parts[..n]) <= Concat(parts)
  {
    if n < |parts| {
      ConcatPrefix(parts[..|parts| - 1], n);
      assert parts[..|parts| - 1][..n] == parts[..n];
    } else {
      assert parts[..n] == parts;
    }
  }

  lemma PartsMakeFrame(env: Envelope, parts: seq<Bytes>)
    requires |env.headerBytes| < U32_LIMIT && |env.payload| >= NONCE_LEN
    requires parts == [PRELUDE, [VERSION], ToBigEndian(|env.headerBytes|), env.headerBytes, env.headerHmac,
                       env.payload[..NONCE_LEN], env.payload[NONCE_LEN..]]
    ensures Concat(parts) == Frame(env)
  {
    forall n | 0 < n <= 7 ensures Concat(parts[..n]) == Concat(parts[..n - 1]) + parts[n - 1] {
      assert parts[..n][..n - 1] == parts[..n - 1];
    }
    assert parts[..7] == parts && parts[..0] == [];
    assert Concat(parts[..1]) == PRELUDE;
    assert Concat(parts[..2]) == PRELUDE + [VERSION];
    assert Concat(parts[..3]) == PRELUDE + [VERSION] + parts[2];
    assert Concat(parts[..5]) == PRELUDE + [VERSION] + parts[2] + env.headerBytes + env.headerHmac;
    assert env.payload == env.payload[..NONCE_LEN] + env.payload[NONCE_LEN..];
    assert Concat(parts) == Concat(parts[..5]) + env.payload;
  }

  method WriteParts(parts: seq<Bytes>, out: Output) returns (ok: bool)
    modifies out
    ensures ok ==> out.written == old(out.written) + Concat(parts)
    ensures !ok ==> old(out.written) <= out.written < old(out.written) + Concat(parts)
  {
    ghost var start := out.written;
    for i := 0 to |parts|
      invariant out.written == start + Concat(parts[..i])
    {
      assert parts[..i + 1][..i] == parts[..i];
      ConcatPrefix(parts, i + 1);
      ok := out.WriteAll(parts[i]);
      if !ok {
        return false;
      }
    }
    assert parts[..|parts|] == parts;
    return true;
  }

  // ----- opening -----

  /** `decrypt_payload`. */
  function DecryptPayload(c: Crypto, env: Envelope, verified: VerifiedHeader, fmk: Key): Result<Bytes> {
    match verified.header.payloadMethod
    case UnknownPayload(v) => Err(UnsupportedPayloadEncryptionMethod(v))
    case ChaCha20Poly1305 =>
      if |env.payload| < NONCE_LEN then Err(Truncated(NONCE_LEN, |env.payload|))
      else
        match c.open(DeriveCek(c, fmk), env.payload[..NONCE_LEN], verified.aad, env.payload[NONCE_LEN..])
        case None => Err(PayloadAuthenticationFailed)
        case Some(plaintext) => Ok(plaintext)
  }

  datatype Decrypted = Decrypted(env: Envelope, header: OpenedHeader, plaintext: Bytes)

  /** The part all entry points share: parse, open the header, open the payload. */
  function DecryptCommon(c: Crypto, codec: Codec, container: Bytes, key: DecryptionKey,
                         limits: Limits): Result<Decrypted> {
    var env :- Parse(container);
    var found :- OpenHeaderResult(c, codec, env, key, limits);
    var plaintext :- DecryptPayload(c, env, found.verified, found.fmk);
    Ok(Decrypted(env, found, plaintext))
  }

  /** The archive stream of a decrypted payload, read under the ceiling for its length. */
  function StreamOf(a: Archiver, plaintext: Bytes, limits: Limits): Stream {
    a.parse(plaintext, Replies(a.inflate(plaintext), InflateCeiling(|plaintext|, limits)))
  }

  /** Inflating through a `LimitedReader` with that ceiling, then reading tar entries. */
  method OpenArchive(a: Archiver, plaintext: Bytes, limits: Limits) returns (s: Stream)
    ensures s == StreamOf(a, plaintext, limits)
  {
    var reader := new LimitedReader(InflateCeiling(|plaintext|, limits));
    var replies := reader.ReadAll(a.inflate(plaintext));
    return a.parse(plaintext, replies);
  }

  method OpenPayload(c: Crypto, codec: Codec, container: Bytes, key: DecryptionKey, limits: Limits)
    returns (r: Result<Decrypted>)
    ensures r == DecryptCommon(c, codec, container, key, limits)
  {
    var env :- Parse(container);
    var found, left, events := OpenHeader(c, codec, env, key, limits);
    if found.Err? {
      return Err(found.error);
    }
    var plaintext :- DecryptPayload(c, env, found.value.verified, found.value.fmk);
    return Ok(Decrypted(env, found.value, plaintext));
  }

  function DecryptToMemoryResult(c: Crypto, codec: Codec, a: Archiver, container: Bytes, key: DecryptionKey,
                                 limits: Limits)
    : Result<seq<PayloadFile>>
  {
    var d :- DecryptCommon(c, codec, container, key, limits);
    MemoryResult(StreamOf(a, d.plaintext, limits), limits)
  }

  /** `decrypt_to_memory`. */
  method DecryptToMemory(c: Crypto, codec: Codec, a: Archiver, container: Bytes, key: DecryptionKey, limits: Limits)
    returns (r: Result<seq<PayloadFile>>)
    ensures r == DecryptToMemoryResult(c, codec, a, container, key, limits)
  {
    var d :- OpenPayload(c, codec, container, key, limits);
    var s := OpenArchive(a, d.plaintext, limits);
    r := UnpackToMemory(s, limits);
  }

  function ListContainerResult(c: Crypto, codec: Codec, a: Archiver, container: Bytes, key: DecryptionKey,
                               limits: Limits)
    : Result<seq<ArchiveEntry>>
  {
    var d :- DecryptCommon(c, codec, container, key, limits);
    ListResult(StreamOf(a, d.plaintext, limits), limits)
  }

  /** `container::list`. */
  method ListContainer(c: Crypto, codec: Codec, a: Archiver, container: Bytes, key: DecryptionKey, limits: Limits)
    returns (r: Result<seq<ArchiveEntry>>)
    ensures r == ListContainerResult(c, codec, a, container, key, limits)
  {
    var d :- OpenPayload(c, codec, container, key, limits);
    var s := OpenArchive(a, d.plaintext, limits);
    r := ListEntries(s, limits);
  }

  /** What `decrypt_to_dir` leaves on disk and answers. */
  function DecryptToDirOutcome(c: Crypto, codec: Codec, a: Archiver, container: Bytes, key: DecryptionKey,
                               limits: Limits,
                               d: Disk, faults: Faults): (Disk, Result<(seq<ArchiveEntry>, MatchedRecipient)>)
  {
    match DecryptCommon(c, codec, container, key, limits)
    case Err(error) => (d, Err(error))
    case Ok(p) =>
      var o := UnpackOutcome(d, StreamOf(a, p.plaintext, limits), limits, faults);
      (o.disk, if o.result.Err? then Err(o.result.error) else Ok((o.result.value, p.header.matched)))
  }

  /** `decrypt_to_dir`. */
  method DecryptToDir(c: Crypto, codec: Codec, a: Archiver, container: Bytes, key: DecryptionKey, limits: Limits,
                      fs: FileSystem) returns (r: Result<(seq<ArchiveEntry>, MatchedRecipient)>)
    modifies fs`disk
    ensures (fs.disk, r) == DecryptToDirOutcome(c, codec, a, container, key, limits, old(fs.disk), fs.faults)
  {
    var p :- OpenPayload(c, codec, container, key, limits);
    var s := OpenArchive(a, p.plaintext, limits);
    var entries :- fs.UnpackToDir(s, limits);
    return Ok((entries, p.header.matched));
  }

  // ----- how much an archive can grow -----

  /**
   Whatever a container holds, what either unpacker returns or writes stays within the ceiling for the decrypted
   length, hence within the byte cap and, above the floor, within the ratio.
   */
  lemma UnpackedDataBounded(c: Crypto, codec: Codec, a: Archiver, container: Bytes, key: DecryptionKey, limits: Limits,
                            d: Disk, faults: Faults)
    requires Metered(a) && DecryptCommon(c, codec, container, key, limits).Ok?
    requires
      InflateCeiling(|DecryptCommon(c, codec, container, key, limits).value.plaintext|, limits) < U64_LIMIT - 1
    ensures
      var size := |DecryptCommon(c, codec, container, key, limits).value.plaintext|;
      var bound := Min(limits.maxUncompressedBytes, Max(size * limits.maxCompressionRatio, 65536));
      var mem := DecryptToMemoryResult(c, codec, a, container, key, limits);
      var (after, dir) := DecryptToDirOutcome(c, codec, a, container, key, limits, d, faults);
      && (mem.Ok? ==> FilesData(mem.value) <= bound)
      && (dir.Ok? ==> WrittenData(after, dir.value.0) <= bound)
  {
    hide DecryptCommon, DirRun, MemRun, Replies, InflateCeiling;
    var plaintext := DecryptCommon(c, codec, container, key, limits).value.plaintext;
    var s := StreamOf(a, plaintext, limits);
    InflationBounded(|plaintext|, limits, a.inflate(plaintext));
    if s.Items? {
      MemoryWithinStream(s.items, limits);
      if DirRun(d, s.items, limits, faults).failure.None? {
        ExtractionWithinStream(d, s.items, limits, faults);
      }
    }
  }

  /**
   What the default limits guarantee, whoever sent the container: a bounded number of files and of bytes, no links, and
   nothing that was there before changed, on success or failure.
   */
  lemma DefaultsAreSafe(c: Crypto, codec: Codec, a: Archiver, container: Bytes, key: DecryptionKey, d: Disk,
                        faults: Faults)
    requires Metered(a) && DecryptCommon(c, codec, container, key, DEFAULT_LIMITS).Ok?
    ensures
      var p := DecryptCommon(c, codec, container, key, DEFAULT_LIMITS).value;
      var s, bound := StreamOf(a, p.plaintext, DEFAULT_LIMITS), Min(0x4_0000_0000, Max(|p.plaintext| * 100, 65536));
      var mem := DecryptToMemoryResult(c, codec, a, container, key, DEFAULT_LIMITS);
      var (after, dir) := DecryptToDirOutcome(c, codec, a, container, key, DEFAULT_LIMITS, d, faults);
      && |p.header.verified.header.recipients| <= 64
      && (mem.Ok? ==> |mem.value| <= 1000 && FilesData(mem.value) <= bound)
      && (dir.Ok? ==> |dir.value.0| <= 1000 && WrittenData(after, dir.value.0) <= bound)
      && (mem.Ok? || dir.Ok? ==>
            s.Items? && forall k :: 0 <= k < |s.items| ==>
              s.items[k].Next? && (s.items[k].entry.kind == Regular || s.items[k].entry.kind == Directory))
      && (forall q :: q in d.nodes ==> q in after.nodes && after.nodes[q] == d.nodes[q])
  {
    hide DecryptCommon, UnpackOutcome, MemRun, Replies, WrittenData, FilesData, Metered;
    var p := DecryptCommon(c, codec, container, key, DEFAULT_LIMITS).value;
    var s := StreamOf(a, p.plaintext, DEFAULT_LIMITS);
    RecipientsWithin(c, codec, container, key, DEFAULT_LIMITS);
    UnpackedDataBounded(c, codec, a, container, key, DEFAULT_LIMITS, d, faults);
    EarlierContentsUntouched(d, s, DEFAULT_LIMITS, faults);
    if s.Items? && MemoryResult(s, DEFAULT_LIMITS).Ok? {
      MemoryIsExact(s.items, DEFAULT_LIMITS);
      OnlySafeKinds(s.items, DEFAULT_LIMITS);
    }
    if UnpackOutcome(d, s, DEFAULT_LIMITS, faults).result.Ok? {
      UnpackIsExact(d, s, DEFAULT_LIMITS, faults);
      ExtractsOnlySafeKinds(d, s.items, DEFAULT_LIMITS, faults);
    }
  }

  lemma RecipientsWithin(c: Crypto, codec: Codec, container: Bytes, key: DecryptionKey, limits: Limits)
    requires DecryptCommon(c, codec, container, key, limits).Ok?
    ensures |DecryptCommon(c, codec, container, key, limits).value.header.verified.header.recipients|
         <= limits.maxRecipients
  {
    hide Search, VerdictAt;
  }
}
