/** Trying several keys on one container (crates/umbrik-cli/src/main.rs), where each attempt may touch the disk. */
module Candidates {
  import opened Basics
  import opened LimitsModel
  import opened Splitting
  import opened HeaderCodec
  import opened Keys
  import opened Schemes
  import opened Opening
  import opened Archive
  import opened Extraction
  import opened Container
  import opened EndToEnd

  // ----- which passwords are tried -----

  const COLON: byte := 0x3A

  /** `password_candidates`: the part after a label, then the whole text. */
  function PasswordCandidates(spec: Bytes): seq<Bytes> {
    match SplitOnce(spec, COLON)
    case Some((prefix, rest)) => if prefix != [] && rest != [] then [rest, spec] else [spec]
    case None => [spec]
  }

  /** However the argument was meant, the password is among the candidates: as a whole, or behind a label. */
  lemma BothReadingsTried(password: Bytes, prefix: Bytes)
    ensures password in PasswordCandidates(password)
    ensures prefix != [] && COLON !in prefix && password != [] ==>
      password in PasswordCandidates(prefix + [COLON] + password)
  {
    if COLON !in prefix {
      SplitOnceAt(prefix, COLON, password);
    }
  }

  /**
   The candidates in the order they are tried: what follows the first colon, then the whole, when something stands on
   both sides of it; otherwise the whole alone.
   */
  lemma CandidatesInOrder(spec: Bytes)
    ensures COLON !in spec ==> PasswordCandidates(spec) == [spec]
    ensures forall prefix, rest :: spec == prefix + Ascii(":") + rest && COLON !in prefix ==>
      PasswordCandidates(spec) == if prefix == [] || rest == [] then [spec] else [rest, spec]
  {
    assert Ascii(":") == [COLON];
    forall prefix, rest | spec == prefix + Ascii(":") + rest && COLON !in prefix
      ensures PasswordCandidates(spec) == if prefix == [] || rest == [] then [spec] else [rest, spec]
    {
      SplitOnceAt(prefix, COLON, rest);
    }
  }

  // ----- trying them -----

  /** What stays the same over all attempts; what the system refuses may differ from one to the next. */
  datatype Job = Job(c: Crypto, codec: Codec, a: Archiver, container: Bytes, limits: Limits, faults: nat -> Faults)

  type Success = (seq<ArchiveEntry>, MatchedRecipient)

  datatype Answer = Opened(value: Success) | FirstError(error: Error) | NoKeyMaterial

  /** The `k`-th attempt, made on the disk as it then is. */
  function Attempt(job: Job, key: DecryptionKey, d: Disk, k: nat): (Disk, Result<Success>) {
    DecryptToDirOutcome(job.c, job.codec, job.a, job.container, key, job.limits, d, job.faults(k))
  }

  /** The disk after the first `n` keys have been tried one after the other. */
  function DiskAfter(job: Job, keys: seq<DecryptionKey>, d: Disk, n: nat): Disk
    requires n <= |keys|
  {
    if n == 0 then d else Attempt(job, keys[n - 1], DiskAfter(job, keys, d, n - 1), n - 1).0
  }

  function AttemptAt(job: Job, keys: seq<DecryptionKey>, d: Disk, k: nat): Result<Success>
    requires k < |keys|
  {
    Attempt(job, keys[k], DiskAfter(job, keys, d, k), k).1
  }

  predicate FailBefore(job: Job, keys: seq<DecryptionKey>, d: Disk, n: nat)
    requires n <= |keys|
  {
    forall k :: 0 <= k < n ==> AttemptAt(job, keys, d, k).Err?
  }

  /** The first success decides; without one every key was tried and the first error is the answer. */
  predicate Decides(job: Job, keys: seq<DecryptionKey>, d: Disk, r: Answer, tried: nat) {
    && tried <= |keys|
    && match r {
         case Opened(value) =>
           tried > 0 && AttemptAt(job, keys, d, tried - 1) == Ok(value) && FailBefore(job, keys, d, tried - 1)
         case FirstError(error) =>
           && keys != [] && tried == |keys|
           && FailBefore(job, keys, d, tried) && AttemptAt(job, keys, d, 0) == Err(error)
         case NoKeyMaterial => keys == []
       }
  }

  /** `try_keys` around `decrypt_to_dir`. */
  method TryKeys(job: Job, keys: seq<DecryptionKey>, fs: FileSystem) returns (r: Answer, tried: nat)
    modifies fs
    ensures Decides(job, keys, old(fs.disk), r, tried)
    ensures fs.disk == DiskAfter(job, keys, old(fs.disk), tried)
  {
    hide DecryptToDirOutcome;
    var firstError: Option<Error> := None;
    tried := 0;
    ghost var start := fs.disk;
    for i := 0 to |keys|
      invariant tried == i && fs.disk == DiskAfter(job, keys, start, i)
      invariant FailBefore(job, keys, start, i)
      invariant firstError.None? <==> i == 0
      invariant i > 0 ==> AttemptAt(job, keys, start, 0) == Err(firstError.value)
    {
      fs.faults := job.faults(i);
      var attempt := DecryptToDir(job.c, job.codec, job.a, job.container, keys[i], job.limits, fs);
      assert attempt == AttemptAt(job, keys, start, i);
      tried := i + 1;
      if attempt.Ok? {
        return Opened(attempt.value), tried;
      }
      if firstError.None? {
        firstError := Some(attempt.error);
      }
    }
    return if firstError.Some? then FirstError(firstError.value) else NoKeyMaterial, tried;
  }

  // ----- what failed attempts leave behind -----

  /** Earlier paths are in place, nothing outside moved, and no new file remains but for those that are stuck. */
  ghost predicate Restored(d: Disk, after: Disk, limits: Limits, stuck: set<string>) {
    && after.outside == d.outside
    && (forall p :: p in d.nodes ==> p in after.nodes && Kept(d.nodes[p], after.nodes[p], limits))
    && (forall p :: p in after.nodes && p !in d.nodes ==> after.nodes[p].Dir? || p in stuck)
  }

  lemma {:induction false} FailedAttemptRestores(job: Job, key: DecryptionKey, d: Disk, k: nat)
    requires Attempt(job, key, d, k).1.Err?
    ensures Restored(d, Attempt(job, key, d, k).0, job.limits, job.faults(k).undeletable)
  {
    hide DecryptCommon, UnpackOutcome, LeftBehind;
    var p := DecryptCommon(job.c, job.codec, job.container, key, job.limits);
    if p.Ok? {
      var s := StreamOf(job.a, p.value.plaintext, job.limits);
      FailedUnpackRestores(d, s, job.limits, job.faults(k));
      SymlinksNeverFollowed(d, s, job.limits, job.faults(k));
    }
  }

  lemma RestoredTransitive(d0: Disk, d1: Disk, d2: Disk, limits: Limits, stuck1: set<string>, stuck2: set<string>)
    requires Restored(d0, d1, limits, stuck1) && Restored(d1, d2, limits, stuck2)
    ensures Restored(d0, d2, limits, stuck1 + stuck2)
  {
  }

  /** Names the system refused to unlink during some of the first `n` attempts. */
  function Stuck(job: Job, n: nat): set<string> {
    if n == 0 then {} else Stuck(job, n - 1) + job.faults(n - 1).undeletable
  }

  /** However many keys are tried without success, earlier paths survive and no stray file is left. */
  lemma {:induction false} FailedKeysRestore(job: Job, keys: seq<DecryptionKey>, d: Disk, n: nat)
    requires n <= |keys| && FailBefore(job, keys, d, n)
    ensures Restored(d, DiskAfter(job, keys, d, n), job.limits, Stuck(job, n))
  {
    hide Attempt;
    if n > 0 {
      FailedKeysRestore(job, keys, d, n - 1);
      assert AttemptAt(job, keys, d, n - 1).Err?;
      FailedAttemptRestores(job, keys[n - 1], DiskAfter(job, keys, d, n - 1), n - 1);
      RestoredTransitive(d, DiskAfter(job, keys, d, n - 1), DiskAfter(job, keys, d, n), job.limits,
                         Stuck(job, n - 1), job.faults(n - 1).undeletable);
    }
  }

  /** With overwriting off no sequence of attempts, successful or not, changes anything that was there before. */
  lemma {:induction false} AttemptsPreserve(job: Job, keys: seq<DecryptionKey>, d: Disk, n: nat)
    requires n <= |keys| && !job.limits.allowOverwrite
    ensures forall p :: p in d.nodes ==>
      p in DiskAfter(job, keys, d, n).nodes && DiskAfter(job, keys, d, n).nodes[p] == d.nodes[p]
  {
    hide DecryptCommon, UnpackOutcome;
    if n > 0 {
      AttemptsPreserve(job, keys, d, n - 1);
      var before := DiskAfter(job, keys, d, n - 1);
      var p := DecryptCommon(job.c, job.codec, job.container, keys[n - 1], job.limits);
      if p.Ok? {
        EarlierContentsUntouched(before, StreamOf(job.a, p.value.plaintext, job.limits), job.limits, job.faults(n - 1));
      }
    }
  }

  // ----- the recipient's key among strangers -----

  /** Sound key material of nobody the container was sent to, within the KDF budget. */
  ghost predicate StrangerTo(s: Sending, key: DecryptionKey, limits: Limits)
    requires s.Parts().Ok?
  {
    && (exists secrets :: Sound(s.c, key, secrets))
    && (key.Password? ==> ITERATIONS * PasswordCount(s.recipients) <= limits.maxTotalKdfIterations)
    && Stranger(s.c, s.Parts().value, s.Records().value, key)
  }

  ghost predicate JobFor(s: Sending, job: Job) {
    && s.Container().Ok?
    && job.c == s.c && job.codec == s.codec && job.a == s.a
    && job.container == s.Container().value
  }

  lemma StrangerFails(s: Sending, job: Job, key: DecryptionKey, d: Disk, k: nat)
    requires s.Lawful() && s.Parts().Ok? && JobFor(s, job)
    requires |s.recipients| <= job.limits.maxRecipients && StrangerTo(s, key, job.limits)
    ensures Attempt(job, key, d, k).1.Err? && Attempt(job, key, d, k).0 == d
  {
    hide DecryptCommon, Sound, Stranger, Addressed, EncryptResult, EncryptParts, BuildRecords, LawfulArchiver,
      LawfulAgreement, LawfulAead, LawfulCodec, UnpackOutcome;
    var secrets :| Sound(s.c, key, secrets);
    StrangerRefused(s, key, secrets, job.limits);
  }

  /** Strangers' keys fail and never reach the disk, whatever the system would refuse. */
  lemma {:induction false} StrangersFail(s: Sending, job: Job, keys: seq<DecryptionKey>, d: Disk, n: nat)
    requires s.Lawful() && s.Parts().Ok? && JobFor(s, job) && n <= |keys|
    requires |s.recipients| <= job.limits.maxRecipients
    requires forall j :: 0 <= j < n ==> StrangerTo(s, keys[j], job.limits)
    ensures FailBefore(job, keys, d, n) && DiskAfter(job, keys, d, n) == d
  {
    hide Attempt, StrangerTo, JobFor, EncryptParts, LawfulArchiver, LawfulAgreement, LawfulAead, LawfulCodec;
    if n > 0 {
      StrangersFail(s, job, keys, d, n - 1);
      StrangerFails(s, job, keys[n - 1], d, n - 1);
    }
  }

  lemma DeliverableIsLawful(s: Sending, r: Receiving)
    requires Deliverable(s, r)
    ensures s.Lawful() && s.Parts().Ok? && |s.recipients| <= r.limits.maxRecipients
  {
  }

  /** The turn of the recipient's key, on the disk no stranger has touched. */
  lemma {:induction false} RecipientsTurn(s: Sending, r: Receiving, job: Job, keys: seq<DecryptionKey>, k: nat, d: Disk)
    requires Deliverable(s, r) && JobFor(s, job) && job.limits == r.limits
    requires k < |keys| && keys[k] == r.key && DiskAfter(job, keys, d, k) == d
    requires Faultless(job.faults(k)) && NamesFree(d, s.files)
    ensures
      var attempt, after := AttemptAt(job, keys, d, k), DiskAfter(job, keys, d, k + 1);
      if DistinctNames(s.files)
      then attempt.Ok? && attempt.value.1.index <= r.i && OnDiskExactly(d, after, attempt.value.0, s.files)
      else attempt == Err(UnsafeArchiveEntry(DuplicateName)) && after == d
  {
    hide Deliverable, Faultless, NamesFree, OnDiskExactly, DistinctNames, DecryptToDirOutcome, EncryptResult;
    EndToEndDir(s, r, d, job.faults(k));
  }

  /** A first success leaves no choice. */
  lemma FirstSuccessDecides(job: Job, keys: seq<DecryptionKey>, k: nat, d: Disk, answer: Answer, tried: nat)
    requires k < |keys| && FailBefore(job, keys, d, k) && AttemptAt(job, keys, d, k).Ok?
    requires Decides(job, keys, d, answer, tried)
    ensures tried == k + 1 && answer == Opened(AttemptAt(job, keys, d, k).value)
  {
    hide AttemptAt;
  }

  /**
   The recipient's key behind any number of strangers: trying them in order answers with that key, on a disk that
   holds exactly the sent files; with coinciding names it fails with the duplicate-name error and changes nothing.
   */
  lemma {:induction false} RecipientAmongStrangers(s: Sending, r: Receiving, job: Job, keys: seq<DecryptionKey>, k: nat,
                                                   d: Disk, answer: Answer, tried: nat)
    requires Deliverable(s, r) && JobFor(s, job) && job.limits == r.limits
    requires k < |keys| && keys[k] == r.key && forall j :: 0 <= j < k ==> StrangerTo(s, keys[j], r.limits)
    requires Faultless(job.faults(k)) && NamesFree(d, s.files)
    requires Decides(job, keys, d, answer, tried)
    ensures
      if DistinctNames(s.files) then
        && tried == k + 1 && answer.Opened? && answer.value.1.index <= r.i
        && OnDiskExactly(d, DiskAfter(job, keys, d, tried), answer.value.0, s.files)
      else
        && AttemptAt(job, keys, d, k) == Err(UnsafeArchiveEntry(DuplicateName))
        && DiskAfter(job, keys, d, k + 1) == d
  {
    hide *;
    DeliverableIsLawful(s, r);
    StrangersFail(s, job, keys, d, k);
    RecipientsTurn(s, r, job, keys, k, d);
    if DistinctNames(s.files) {
      FirstSuccessDecides(job, keys, k, d, answer, tried);
    }
  }
}
