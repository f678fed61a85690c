/**
 Opening a header (crates/umbrik-core/src/container.rs): the scan over recipient records with its
 running PBKDF2 budget, against a declarative search over per-record verdicts.
 */
module Opening {
  import opened Basics
  import opened LimitsModel
  import opened EnvelopeModel
  import opened HeaderCodec
  import opened Keys
  import opened Schemes

  // ----- what a run does to the outside -----

  /** Expensive or user-visible work, tagged with the record it was done for. */
  datatype Event =
    | Stretched(record: nat, iterations: nat)
    | Listed(record: nat)
    | Performed(record: nat, identity: Identity, peer: EcPublicKey)

  /** PBKDF2 iterations actually performed. */
  function Work(events: seq<Event>): nat {
    if events == [] then 0
    else Work(events[..|events| - 1])
         + (if events[|events| - 1].Stretched? then events[|events| - 1].iterations else 0)
  }

  // ----- one record, declaratively -----

  /** Schemes that parse but are not implemented. */
  function Refusal(capsule: Capsule): Option<CapsuleReason> {
    match capsule
    case RsaPublicKey(_, _) => Some(RsaUnsupported)
    case KeyServer => Some(ServerDeferred)
    case KeyShares => Some(SharesOutOfScope)
    case UnknownCapsuleTag(_) => Some(UnknownCapsule)
    case _ => None
  }

  /** A password record whose derivation the offered key would start. */
  predicate WantsPbkdf2(rec: RecipientRecord, key: DecryptionKey) {
    && rec.fmkMethod == Xor && key.Password?
    && rec.capsule.Pbkdf2? && rec.capsule.kdfAlgorithm == Pbkdf2WithHmacSha256
  }

  /** Iterations a record asks for when the offered key is tried on it. */
  function Demand(rec: RecipientRecord, key: DecryptionKey): nat {
    if WantsPbkdf2(rec, key) && rec.capsule.kdfIterations >= 0 then rec.capsule.kdfIterations else 0
  }

  /** Iterations the first `n` records ask for together. */
  function DemandBefore(records: seq<RecipientRecord>, key: DecryptionKey, n: nat): nat
    requires n <= |records|
  {
    if n == 0 then 0 else DemandBefore(records, key, n - 1) + Demand(records[n - 1], key)
  }

  /** The record would push the total past the allowance. */
  predicate OverBudget(records: seq<RecipientRecord>, key: DecryptionKey, allowance: nat, j: nat)
    requires j < |records|
  {
    Demand(records[j], key) > 0 && DemandBefore(records, key, j + 1) > allowance
  }

  /** The first identity, in the provider's order, that the capsule is addressed to. */
  function FindIdentity(ids: seq<Identity>, capsule: Capsule): (found: Option<Identity>)
    ensures found.Some? ==> found.value in ids && Matches(found.value, capsule)
    ensures found.None? ==> forall id :: id in ids ==> !Matches(id, capsule)
  {
    if ids == [] then None
    else if Matches(ids[0], capsule) then Some(ids[0])
    else FindIdentity(ids[1..], capsule)
  }

  /** The ECDH peer of a record: the sender's ephemeral key on the record's curve. */
  function Peer(capsule: Capsule): EcPublicKey
    requires capsule.EccPublicKey?
  {
    EcPublicKey(capsule.curve, capsule.senderKey)
  }

  /** The KEK a provider establishes for an EC record at position `j`. */
  function ProviderKek(c: Crypto, capsule: Capsule, provider: KeyProvider, j: nat): Result<Option<Key>>
    requires capsule.EccPublicKey?
  {
    var ids :- provider.identities(j);
    match FindIdentity(ids, capsule)
    case None => Ok(None)
    case Some(id) =>
      var shared :- provider.perform(j, id, Peer(capsule));
      var kek :- Sc01Kek(c, shared, capsule.recipientKey, capsule.senderKey);
      Ok(Some(kek))
  }

  /** The KEK the offered key establishes for a record, leaving the budget aside. */
  function KekFor(c: Crypto, rec: RecipientRecord, key: DecryptionKey, j: nat): Result<Option<Key>> {
    if rec.fmkMethod != Xor then Ok(None)
    else if rec.capsule.SymmetricKey? && key.Secret? then
      var kek :- Sc05Kek(c, key.secret, rec.capsule.salt, rec.keyLabel);
      Ok(Some(kek))
    else if rec.capsule.EccPublicKey? && key.Provider? then
      ProviderKek(c, rec.capsule, key.provider, j)
    else if WantsPbkdf2(rec, key) then
      var p := rec.capsule;
      if p.kdfIterations < 0 then Err(InvalidKeyMaterial(NegativeIterations))
      else
        var kek :- Sc06Kek(c, key.text, p.salt, p.passwordSalt, p.kdfIterations, rec.keyLabel);
        Ok(Some(kek))
    else Ok(None)
  }

  datatype Verdict =
    | Unsupported(reason: CapsuleReason)
    | NotForUs
    | Mismatch
    | Fails(error: Error)
    | Opens(fmk: Key)

  predicate Stops(v: Verdict) {
    v.Fails? || v.Opens?
  }

  /** What record `j` contributes, stated without any running state. */
  function VerdictAt(c: Crypto, env: Envelope, records: seq<RecipientRecord>, key: DecryptionKey,
                     allowance: nat, j: nat): Verdict
    requires j < |records|
  {
    var rec := records[j];
    if Refusal(rec.capsule).Some? then Unsupported(Refusal(rec.capsule).value)
    else if OverBudget(records, key, allowance, j) then Fails(LimitExceeded(KdfBudget))
    else
      match KekFor(c, rec, key, j)
      case Err(error) => Fails(error)
      case Ok(None) => NotForUs
      case Ok(Some(kek)) =>
        match Unwrap(rec.encryptedFmk, kek)
        case Err(error) => Fails(error)
        case Ok(fmk) => if Authenticates(c, env, fmk) then Opens(fmk) else Mismatch
  }

  // ----- the search -----

  /** The least stopping position, or the length when nothing stops the scan. */
  function FirstStop(vs: seq<Verdict>): (i: nat)
    ensures i <= |vs|
    ensures i < |vs| ==> Stops(vs[i])
    ensures forall k :: 0 <= k < i ==> !Stops(vs[k])
  {
    if vs == [] then 0
    else if Stops(vs[0]) then 0
    else 1 + FirstStop(vs[1..])
  }

  predicate SawCandidate(vs: seq<Verdict>) {
    exists k :: 0 <= k < |vs| && vs[k].Mismatch?
  }

  function FirstUnsupported(vs: seq<Verdict>): (found: Option<CapsuleReason>)
    ensures found.None? <==> forall k :: 0 <= k < |vs| ==> !vs[k].Unsupported?
  {
    if vs == [] then None
    else if FirstUnsupported(vs[..|vs| - 1]).Some? then FirstUnsupported(vs[..|vs| - 1])
    else if vs[|vs| - 1].Unsupported? then Some(vs[|vs| - 1].reason)
    else None
  }

  /** The answer of the search: the position that opened, with its master key, or an error. */
  function Search(vs: seq<Verdict>): Result<(nat, Key)> {
    var i := FirstStop(vs);
    if i < |vs| then
      if vs[i].Opens? then Ok((i, vs[i].fmk)) else Err(vs[i].error)
    else if SawCandidate(vs) then Err(HeaderHmacMismatch)
    else match FirstUnsupported(vs)
      case Some(reason) => Err(UnsupportedCapsule(reason))
      case None => Err(NoMatchingRecipient)
  }

  predicate IsFirstUnsupported(vs: seq<Verdict>, k: nat)
    requires k < |vs|
  {
    vs[k].Unsupported? && forall m :: 0 <= m < k ==> !vs[m].Unsupported?
  }

  /** The search succeeds at `i` exactly when `i` opens and no earlier record opens or fails. */
  lemma SearchOkIff(vs: seq<Verdict>, i: nat, fmk: Key)
    ensures Search(vs) == Ok((i, fmk)) <==>
      i < |vs| && vs[i] == Opens(fmk) && forall k :: 0 <= k < i ==> !Stops(vs[k])
  {
  }

  /** The first record to stop the scan by failing answers with its own error. */
  lemma SearchFails(vs: seq<Verdict>, i: nat)
    requires i < |vs| && vs[i].Fails? && forall k :: 0 <= k < i ==> !Stops(vs[k])
    ensures Search(vs) == Err(vs[i].error)
  {
    assert !(FirstStop(vs) < i);
    assert !(i < FirstStop(vs));
  }

  /** With nothing to stop at, the error tells apart a wrong key, a foreign scheme and no match. */
  lemma SearchErrors(vs: seq<Verdict>)
    requires forall k :: 0 <= k < |vs| ==> !Stops(vs[k])
    ensures Search(vs) == Err(HeaderHmacMismatch) <==> exists k :: 0 <= k < |vs| && vs[k].Mismatch?
    ensures Search(vs) == Err(NoMatchingRecipient) <==> forall k :: 0 <= k < |vs| ==> vs[k].NotForUs?
    ensures !SawCandidate(vs) ==> forall k :: 0 <= k < |vs| && IsFirstUnsupported(vs, k) ==>
      Search(vs) == Err(UnsupportedCapsule(vs[k].reason))
  {
    assert FirstStop(vs) == |vs|;
    forall k | 0 <= k < |vs| && IsFirstUnsupported(vs, k)
      ensures FirstUnsupported(vs) == Some(vs[k].reason)
    {
      FirstUnsupportedAt(vs, k);
    }
  }

  lemma {:induction false} FirstUnsupportedAt(vs: seq<Verdict>, k: nat)
    requires k < |vs| && IsFirstUnsupported(vs, k)
    ensures FirstUnsupported(vs) == Some(vs[k].reason)
  {
    if k < |vs| - 1 {
      FirstUnsupportedAt(vs[..|vs| - 1], k);
    }
  }

  // ----- events and charges of a run -----

  /** The work done for record `j` if the scan reaches it. */
  function EventsAt(records: seq<RecipientRecord>, key: DecryptionKey, allowance: nat, j: nat): seq<Event>
    requires j < |records|
  {
    var rec := records[j];
    if rec.fmkMethod != Xor then []
    else if rec.capsule.EccPublicKey? && key.Provider? then
      var ids := key.provider.identities(j);
      if ids.Ok? && FindIdentity(ids.value, rec.capsule).Some? then
        [Listed(j), Performed(j, FindIdentity(ids.value, rec.capsule).value, Peer(rec.capsule))]
      else [Listed(j)]
    else if WantsPbkdf2(rec, key) && rec.capsule.kdfIterations >= 0
            && !OverBudget(records, key, allowance, j)
            && Sc06Refusal(rec.capsule.salt, rec.capsule.passwordSalt, rec.capsule.kdfIterations).None? then
      [Stretched(j, rec.capsule.kdfIterations)]
    else []
  }

  /** Iterations charged to the budget for record `j`; one over budget is not charged. */
  function ChargeAt(records: seq<RecipientRecord>, key: DecryptionKey, allowance: nat, j: nat): nat
    requires j < |records|
  {
    if OverBudget(records, key, allowance, j) then 0 else Demand(records[j], key)
  }

  /** Everything there is to know about a run, record by record, whether or not the scan gets there. */
  datatype Run = Run(verdicts: seq<Verdict>, charges: seq<nat>, events: seq<seq<Event>>)

  function RunOf(c: Crypto, env: Envelope, records: seq<RecipientRecord>, key: DecryptionKey, allowance: nat): Run {
    Run(seq(|records|, j requires 0 <= j < |records| => VerdictAt(c, env, records, key, allowance, j)),
        seq(|records|, j requires 0 <= j < |records| => ChargeAt(records, key, allowance, j)),
        seq(|records|, j requires 0 <= j < |records| => EventsAt(records, key, allowance, j)))
  }

  ghost predicate Describes(run: Run, c: Crypto, env: Envelope, records: seq<RecipientRecord>,
                            key: DecryptionKey, allowance: nat)
  {
    && |run.verdicts| == |run.charges| == |run.events| == |records|
    && forall j {:trigger VerdictAt(c, env, records, key, allowance, j)} :: 0 <= j < |records| ==>
         && run.verdicts[j] == VerdictAt(c, env, records, key, allowance, j)
         && run.charges[j] == ChargeAt(records, key, allowance, j)
         && run.events[j] == EventsAt(records, key, allowance, j)
  }

  lemma RunOfDescribes(c: Crypto, env: Envelope, records: seq<RecipientRecord>, key: DecryptionKey, allowance: nat)
    ensures Describes(RunOf(c, env, records, key, allowance), c, env, records, key, allowance)
  {
  }

  function Total(charges: seq<nat>): nat {
    if charges == [] then 0 else Total(charges[..|charges| - 1]) + charges[|charges| - 1]
  }

  function Flatten(lists: seq<seq<Event>>): seq<Event> {
    if lists == [] then [] else Flatten(lists[..|lists| - 1]) + lists[|lists| - 1]
  }

  /** Records a run looks at: through the stopping one, or all of them. */
  function Examined(vs: seq<Verdict>): (n: nat)
    ensures n <= |vs|
  {
    if FirstStop(vs) < |vs| then FirstStop(vs) + 1 else |vs|
  }

  /** Iterations charged over the run. */
  function Charged(run: Run): nat
    requires |run.verdicts| == |run.charges|
  {
    Total(run.charges[..Examined(run.verdicts)])
  }

  /** The trace of the run. */
  function Trace(run: Run): seq<Event>
    requires |run.verdicts| == |run.events|
  {
    Flatten(run.events[..Examined(run.verdicts)])
  }

  // ----- the code -----

  /** `provider_kek`: identities are matched before the private-key operation is asked for. */
  method EstablishByProvider(c: Crypto, capsule: Capsule, provider: KeyProvider, j: nat)
    returns (r: Result<Option<Key>>, events: seq<Event>)
    requires capsule.EccPublicKey?
    ensures r == ProviderKek(c, capsule, provider, j)
    ensures events ==
      var ids := provider.identities(j);
      if ids.Ok? && FindIdentity(ids.value, capsule).Some?
      then [Listed(j), Performed(j, FindIdentity(ids.value, capsule).value, Peer(capsule))]
      else [Listed(j)]
  {
    var ids := provider.identities(j);
    events := [Listed(j)];
    if ids.Err? {
      return Err(ids.error), events;
    }
    var found := FindIdentity(ids.value, capsule);
    if found.None? {
      return Ok(None), events;
    }
    events := events + [Performed(j, found.value, Peer(capsule))];
    var shared := provider.perform(j, found.value, Peer(capsule));
    if shared.Err? {
      return Err(shared.error), events;
    }
    var kek := Sc01Kek(c, shared.value, capsule.recipientKey, capsule.senderKey);
    if kek.Err? {
      return Err(kek.error), events;
    }
    return Ok(Some(kek.value)), events;
  }

  /** `try_kek`: the budget is charged before the derivation starts. */
  method TryKek(c: Crypto, records: seq<RecipientRecord>, j: nat, key: DecryptionKey, ghost allowance: nat,
                budget: nat)
    returns (r: Result<Option<Key>>, left: nat, events: seq<Event>)
    requires j < |records|
    requires budget + DemandBefore(records, key, j) == allowance
    ensures OverBudget(records, key, allowance, j) ==>
      r == Err(LimitExceeded(KdfBudget)) && left == budget && events == []
    ensures !OverBudget(records, key, allowance, j) ==>
      r == KekFor(c, records[j], key, j) && left == budget - Demand(records[j], key)
    ensures events == EventsAt(records, key, allowance, j)
  {
    var rec := records[j];
    left, events := budget, [];
    if rec.fmkMethod != Xor {
      return Ok(None), left, events;
    }
    match (rec.capsule, key)
    case (SymmetricKey(salt), Secret(secret)) =>
      var kek := Sc05Kek(c, secret, salt, rec.keyLabel);
      if kek.Err? {
        return Err(kek.error), left, events;
      }
      return Ok(Some(kek.value)), left, events;
    case (EccPublicKey(_, _, _), Provider(provider)) =>
      r, events := EstablishByProvider(c, rec.capsule, provider, j);
      return r, left, events;
    case (Pbkdf2(salt, passwordSalt, algorithm, iterations), Password(text)) =>
      if algorithm != Pbkdf2WithHmacSha256 {
        return Ok(None), left, events;
      }
      if iterations < 0 {
        return Err(InvalidKeyMaterial(NegativeIterations)), left, events;
      }
      if iterations > left {
        return Err(LimitExceeded(KdfBudget)), left, events;
      }
      left := left - iterations;
      if Sc06Refusal(salt, passwordSalt, iterations).None? {
        events := [Stretched(j, iterations)];
      }
      var kek := Sc06Kek(c, text, salt, passwordSalt, iterations, rec.keyLabel);
      if kek.Err? {
        return Err(kek.error), left, events;
      }
      return Ok(Some(kek.value)), left, events;
    case _ =>
      return Ok(None), left, events;
  }

  /** One pass of the loop body for an implemented capsule: establish, unwrap, verify. */
  method Attempt(c: Crypto, env: Envelope, header: Header, j: nat, key: DecryptionKey, ghost allowance: nat,
                budget: nat)
    returns (verdict: Verdict, left: nat, events: seq<Event>)
    requires j < |header.recipients| && Refusal(header.recipients[j].capsule).None?
    requires budget + DemandBefore(header.recipients, key, j) == allowance
    ensures verdict == VerdictAt(c, env, header.recipients, key, allowance, j) && !verdict.Unsupported?
    ensures left == budget - ChargeAt(header.recipients, key, allowance, j)
    ensures !verdict.Fails? ==> left + DemandBefore(header.recipients, key, j + 1) == allowance
    ensures events == EventsAt(header.recipients, key, allowance, j)
  {
    var records := header.recipients;
    var kek;
    kek, left, events := TryKek(c, records, j, key, allowance, budget);
    if kek.Err? {
      return Fails(kek.error), left, events;
    }
    if kek.value.None? {
      return NotForUs, left, events;
    }
    var fmk := UnwrapXor(records[j].encryptedFmk, kek.value.value);
    if fmk.Err? {
      return Fails(fmk.error), left, events;
    }
    var verified := Verify(c, env, header, DeriveHhk(c, fmk.value));
    return if verified.Ok? then Opens(fmk.value) else Mismatch, left, events;
  }

  datatype Scheme = Sc01 | Sc02 | Sc03Or04 | Sc05 | Sc06 | Sc07 | UnknownScheme

  function SchemeOf(capsule: Capsule): Scheme {
    match capsule
    case SymmetricKey(_) => Sc05
    case Pbkdf2(_, _, _, _) => Sc06
    case EccPublicKey(_, _, _) => Sc01
    case RsaPublicKey(_, _) => Sc02
    case KeyServer => Sc03Or04
    case KeyShares => Sc07
    case UnknownCapsuleTag(_) => UnknownScheme
  }

  datatype MatchedRecipient = MatchedRecipient(index: nat, keyLabel: Text, scheme: Scheme)

  datatype OpenedHeader = OpenedHeader(verified: VerifiedHeader, fmk: Key, matched: MatchedRecipient)

  /** The opened header a position and a master key stand for. */
  function Opened(env: Envelope, header: Header, i: nat, fmk: Key): OpenedHeader
    requires i < |header.recipients|
  {
    var rec := header.recipients[i];
    OpenedHeader(VerifiedHeader(header, BuildAad(env.headerBytes, env.headerHmac)), fmk,
                 MatchedRecipient(i, rec.keyLabel, SchemeOf(rec.capsule)))
  }

  /** What opening a decoded header answers, by the search over its verdicts. */
  function OpenDecoded(c: Crypto, env: Envelope, header: Header, key: DecryptionKey, limits: Limits)
    : Result<OpenedHeader>
  {
    if |header.recipients| > limits.maxRecipients then Err(LimitExceeded(TooManyRecipients))
    else
      var run := RunOf(c, env, header.recipients, key, limits.maxTotalKdfIterations);
      var (i, fmk) :- Search(run.verdicts);
      Ok(Opened(env, header, i, fmk))
  }

  /** `open_header` as an answer. */
  function OpenHeaderResult(c: Crypto, codec: Codec, env: Envelope, key: DecryptionKey, limits: Limits)
    : Result<OpenedHeader>
  {
    var header :- Decode(codec, env.headerBytes);
    OpenDecoded(c, env, header, key, limits)
  }

  lemma SawCandidateSnoc(vs: seq<Verdict>, v: Verdict)
    ensures SawCandidate(vs + [v]) <==> SawCandidate(vs) || v.Mismatch?
  {
    var all := vs + [v];
    if v.Mismatch? {
      assert all[|vs|].Mismatch?;
    }
    if SawCandidate(vs) {
      var k :| 0 <= k < |vs| && vs[k].Mismatch?;
      assert all[k].Mismatch?;
    }
  }

  /** How one more verdict moves what the scan remembers. */
  lemma ScanStep(vs: seq<Verdict>, i: nat)
    requires i < |vs| && i <= FirstStop(vs)
    ensures Stops(vs[i]) <==> FirstStop(vs) == i
    ensures SawCandidate(vs[..i + 1]) <==> SawCandidate(vs[..i]) || vs[i].Mismatch?
    ensures FirstUnsupported(vs[..i + 1]) ==
      if FirstUnsupported(vs[..i]).Some? then FirstUnsupported(vs[..i])
      else if vs[i].Unsupported? then Some(vs[i].reason) else None
  {
    var now, after := vs[..i], vs[..i + 1];
    assert after[..i] == now && after[i] == vs[i];
    SawCandidateSnoc(now, vs[i]);
    assert after == now + [vs[i]];
  }

  /** A record of an unimplemented scheme costs nothing and does nothing. */
  lemma RefusedIsFree(c: Crypto, env: Envelope, records: seq<RecipientRecord>, key: DecryptionKey, allowance: nat,
                      j: nat)
    requires j < |records| && Refusal(records[j].capsule).Some?
    ensures VerdictAt(c, env, records, key, allowance, j) == Unsupported(Refusal(records[j].capsule).value)
    ensures ChargeAt(records, key, allowance, j) == 0 && EventsAt(records, key, allowance, j) == []
    ensures DemandBefore(records, key, j + 1) == DemandBefore(records, key, j)
  {
  }

  lemma RunStep(run: Run, i: nat)
    requires |run.verdicts| == |run.charges| == |run.events| && i < |run.charges|
    ensures Total(run.charges[..i + 1]) == Total(run.charges[..i]) + run.charges[i]
    ensures Flatten(run.events[..i + 1]) == Flatten(run.events[..i]) + run.events[i]
  {
    assert run.charges[..i + 1][..i] == run.charges[..i];
    assert run.events[..i + 1][..i] == run.events[..i];
  }

  /** The scanning loop, with its budget, its candidate flag and its first unsupported scheme. */
  method ScanRecords(c: Crypto, env: Envelope, header: Header, key: DecryptionKey, allowance: nat, ghost run: Run)
    returns (r: Result<(nat, Key)>, left: nat, events: seq<Event>)
    requires Describes(run, c, env, header.recipients, key, allowance)
    ensures r == Search(run.verdicts)
    ensures left + Charged(run) == allowance
    ensures events == Trace(run)
  {
    hide VerdictAt, ChargeAt, EventsAt;
    var records := header.recipients;
    ghost var vs := run.verdicts;
    left, events := allowance, [];
    var sawCandidate := false;
    var unsupported: Option<CapsuleReason> := None;
    for i := 0 to |records|
      invariant i <= FirstStop(vs)
      invariant left + DemandBefore(records, key, i) == allowance
      invariant left + Total(run.charges[..i]) == allowance
      invariant events == Flatten(run.events[..i])
      invariant sawCandidate <==> SawCandidate(vs[..i])
      invariant unsupported == FirstUnsupported(vs[..i])
    {
      ScanStep(vs, i);
      RunStep(run, i);
      if Refusal(records[i].capsule).Some? {
        RefusedIsFree(c, env, records, key, allowance, i);
        if unsupported.None? {
          unsupported := Refusal(records[i].capsule);
        }
        continue;
      }
      var verdict, left', done := Attempt(c, env, header, i, key, allowance, left);
      left, events := left', events + done;
      if verdict.Fails? {
        return Err(verdict.error), left, events;
      }
      if verdict.Opens? {
        return Ok((i, verdict.fmk)), left, events;
      }
      if verdict.Mismatch? {
        sawCandidate := true;
      }
    }
    assert vs[..|records|] == vs;
    if sawCandidate {
      return Err(HeaderHmacMismatch), left, events;
    }
    if unsupported.Some? {
      return Err(UnsupportedCapsule(unsupported.value)), left, events;
    }
    return Err(NoMatchingRecipient), left, events;
  }

  /** `open_header`. */
  method OpenHeader(c: Crypto, codec: Codec, env: Envelope, key: DecryptionKey, limits: Limits)
    returns (r: Result<OpenedHeader>, left: nat, events: seq<Event>)
    ensures r == OpenHeaderResult(c, codec, env, key, limits)
    ensures Work(events) + left <= limits.maxTotalKdfIterations
    ensures
      var header := Decode(codec, env.headerBytes);
      if header.Ok? && |header.value.recipients| <= limits.maxRecipients then
        var run := RunOf(c, env, header.value.recipients, key, limits.maxTotalKdfIterations);
        left + Charged(run) == limits.maxTotalKdfIterations && events == Trace(run)
      else left == limits.maxTotalKdfIterations && events == []
  {
    left, events := limits.maxTotalKdfIterations, [];
    var header := DecodeLoop(codec, env.headerBytes);
    if header.Err? {
      return Err(header.error), left, events;
    }
    if |header.value.recipients| > limits.maxRecipients {
      return Err(LimitExceeded(TooManyRecipients)), left, events;
    }
    ghost var run := RunOf(c, env, header.value.recipients, key, limits.maxTotalKdfIterations);
    RunOfDescribes(c, env, header.value.recipients, key, limits.maxTotalKdfIterations);
    var found;
    found, left, events := ScanRecords(c, env, header.value, key, limits.maxTotalKdfIterations, run);
    WorkWithinCharges(c, env, header.value.recipients, key, limits.maxTotalKdfIterations, run, Examined(run.verdicts));
    if found.Err? {
      return Err(found.error), left, events;
    }
    return Ok(Opened(env, header.value, found.value.0, found.value.1)), left, events;
  }

  // ----- what every run keeps -----

  lemma {:induction false} WorkConcat(a: seq<Event>, b: seq<Event>)
    ensures Work(a + b) == Work(a) + Work(b)
  {
    if b == [] {
      assert a + b == a;
    } else {
      WorkConcat(a, b[..|b| - 1]);
      assert (a + b)[..|a + b| - 1] == a + b[..|b| - 1];
    }
  }

  /** Work done for one record never exceeds what it was charged; over budget, it is none. */
  lemma WorkOfRecord(records: seq<RecipientRecord>, key: DecryptionKey, allowance: nat, j: nat)
    requires j < |records|
    ensures Work(EventsAt(records, key, allowance, j))
         <= ChargeAt(records, key, allowance, j)
  {
    var events := EventsAt(records, key, allowance, j);
    if |events| > 0 {
      assert Work(events[..0]) == 0;
      if |events| == 2 {
        assert Work(events[..1]) == 0 by { assert events[..1][..0] == []; }
      } else {
        assert events[..|events| - 1] == [];
      }
    }
  }

  /** Iterations performed never exceed iterations charged, after any number of records. */
  lemma {:induction false} WorkWithinCharges(c: Crypto, env: Envelope, records: seq<RecipientRecord>,
                                             key: DecryptionKey, allowance: nat, run: Run, n: nat)
    requires Describes(run, c, env, records, key, allowance) && n <= |records|
    ensures Work(Flatten(run.events[..n])) <= Total(run.charges[..n])
  {
    if n > 0 {
      WorkWithinCharges(c, env, records, key, allowance, run, n - 1);
      RunStep(run, n - 1);
      WorkConcat(Flatten(run.events[..n - 1]), run.events[n - 1]);
      assert run.verdicts[n - 1] == VerdictAt(c, env, records, key, allowance, n - 1);
      WorkOfRecord(records, key, allowance, n - 1);
    }
  }

  /** A private-key operation as the contract of `KeyProvider` demands it. */
  predicate Justified(e: Event, records: seq<RecipientRecord>, key: DecryptionKey) {
    e.Performed? ==>
      && e.record < |records| && key.Provider?
      && records[e.record].capsule.EccPublicKey?
      && Matches(e.identity, records[e.record].capsule)
      && e.peer == Peer(records[e.record].capsule)
      && key.provider.identities(e.record).Ok?
      && e.identity in key.provider.identities(e.record).value
  }

  /** The trace of a prefix of a run is orderly: justified operations, at most one per record. */
  predicate Orderly(events: seq<Event>, records: seq<RecipientRecord>, key: DecryptionKey, n: nat) {
    && (forall i :: 0 <= i < |events| ==> events[i].record < n && Justified(events[i], records, key))
    && (forall i, j :: 0 <= i < j < |events| && events[i].Performed? && events[j].Performed? ==>
          events[i].record < events[j].record)
  }

  lemma EventsAtOrderly(records: seq<RecipientRecord>, key: DecryptionKey, allowance: nat, j: nat)
    requires j < |records|
    ensures
      var events := EventsAt(records, key, allowance, j);
      && Orderly(events, records, key, j + 1)
      && forall i :: 0 <= i < |events| ==> events[i].record == j
  {
  }

  /**
   Over every run, a private-key operation uses an identity the provider listed for that record, matching the
   record's capsule, against the record's sender key, and no record causes two of them.
   */
  lemma {:induction false} OperationsJustified(c: Crypto, env: Envelope, records: seq<RecipientRecord>,
                                               key: DecryptionKey, allowance: nat, run: Run, n: nat)
    requires Describes(run, c, env, records, key, allowance) && n <= |records|
    ensures Orderly(Flatten(run.events[..n]), records, key, n)
  {
    if n > 0 {
      OperationsJustified(c, env, records, key, allowance, run, n - 1);
      RunStep(run, n - 1);
      assert run.verdicts[n - 1] == VerdictAt(c, env, records, key, allowance, n - 1);
      EventsAtOrderly(records, key, allowance, n - 1);
      OrderlyConcat(Flatten(run.events[..n - 1]), run.events[n - 1], records, key, n);
    }
  }

  lemma OrderlyConcat(a: seq<Event>, b: seq<Event>, records: seq<RecipientRecord>, key: DecryptionKey, n: nat)
    requires n > 0 && Orderly(a, records, key, n - 1) && Orderly(b, records, key, n)
    requires forall i :: 0 <= i < |b| ==> b[i].record == n - 1
    ensures Orderly(a + b, records, key, n)
  {
  }

  /** A container with no record for any listed identity never causes a private-key operation. */
  lemma NoMatchNoOperation(c: Crypto, env: Envelope, records: seq<RecipientRecord>, key: DecryptionKey, allowance: nat,
                           run: Run)
    requires Describes(run, c, env, records, key, allowance)
    requires key.Provider? ==> forall j :: 0 <= j < |records| && key.provider.identities(j).Ok? ==>
      FindIdentity(key.provider.identities(j).value, records[j].capsule).None?
    ensures forall i :: 0 <= i < |Trace(run)| ==> !Trace(run)[i].Performed?
  {
    OperationsJustified(c, env, records, key, allowance, run, Examined(run.verdicts));
  }

  // ----- verdicts, from the record and the key alone -----

  /** The position of the first identity on the record's curve with the record's point. */
  predicate FirstHolder(ids: seq<Identity>, capsule: Capsule, m: nat)
    requires capsule.EccPublicKey?
  {
    && m < |ids| && ids[m].key.curve == capsule.curve && ids[m].key.point == capsule.recipientKey
    && forall k :: 0 <= k < m ==> ids[k].key.curve != capsule.curve || ids[k].key.point != capsule.recipientKey
  }

  lemma {:induction false} FindsFirstHolder(ids: seq<Identity>, capsule: Capsule) returns (m: nat)
    requires capsule.EccPublicKey?
    ensures FindIdentity(ids, capsule).Some? ==>
      FirstHolder(ids, capsule, m) && FindIdentity(ids, capsule) == Some(ids[m])
  {
    m := 0;
    if ids != [] && !Matches(ids[0], capsule) {
      var m' := FindsFirstHolder(ids[1..], capsule);
      m := m' + 1;
      assert forall k :: 1 <= k <= m < |ids| ==> ids[k] == ids[1..][k - 1];
    }
  }

  /** Whoever is found is the first holder, and one is found whenever there is one. */
  lemma FoundIffHolder(ids: seq<Identity>, capsule: Capsule)
    requires capsule.EccPublicKey?
    ensures FindIdentity(ids, capsule).None? <==> forall m: nat :: !FirstHolder(ids, capsule, m)
    ensures forall m: nat :: FirstHolder(ids, capsule, m) ==> FindIdentity(ids, capsule) == Some(ids[m])
  {
    var found := FindsFirstHolder(ids, capsule);
    forall m: nat | FirstHolder(ids, capsule, m) ensures FindIdentity(ids, capsule) == Some(ids[m]) {
      assert ids[m] in ids && Matches(ids[m], capsule);
    }
  }

  /** PBKDF2 iterations that records up to position `n` name, for those a password is tried on. */
  function IterationsNamed(records: seq<RecipientRecord>, n: nat): int
    requires n <= |records|
  {
    if n == 0 then 0
    else
      var rec := records[n - 1];
      IterationsNamed(records, n - 1)
      + (if rec.fmkMethod == Xor && rec.capsule.Pbkdf2? && rec.capsule.kdfAlgorithm == Pbkdf2WithHmacSha256
         then Max(rec.capsule.kdfIterations, 0) else 0)
  }

  lemma {:induction false} PasswordDemand(records: seq<RecipientRecord>, key: DecryptionKey, n: nat)
    requires n <= |records| && key.Password?
    ensures DemandBefore(records, key, n) == IterationsNamed(records, n)
  {
    if n > 0 {
      PasswordDemand(records, key, n - 1);
    }
  }

  /** A shared key tried on an SC05 record: a short secret, then a short salt. */
  function SecretObjection(secret: Bytes, salt: Bytes): Option<Error> {
    if |secret| < 32 then Some(InvalidKeyMaterial(SecretTooShort))
    else if |salt| < 32 then Some(InvalidKeyMaterial(SaltTooShort))
    else None
  }

  /** A password tried on an SC06 record, `spent` being the iterations named through this record. */
  function PasswordObjection(capsule: Capsule, spent: int, allowance: nat): Option<Error>
    requires capsule.Pbkdf2?
  {
    if capsule.kdfIterations < 0 then Some(InvalidKeyMaterial(NegativeIterations))
    else if capsule.kdfIterations > 0 && spent > allowance then Some(LimitExceeded(KdfBudget))
    else if |capsule.salt| < 32 then Some(InvalidKeyMaterial(SaltTooShort))
    else if capsule.kdfIterations == 0 then Some(InvalidKeyMaterial(ZeroIterations))
    else if capsule.kdfIterations > 100_000_000 then Some(LimitExceeded(KdfCeiling))
    else if |capsule.passwordSalt| < 32 then Some(InvalidKeyMaterial(PasswordSaltTooShort))
    else None
  }

  /** A provider asked about an SC01 record: it cannot list, its operation fails, or agrees on nothing. */
  ghost predicate ProviderObjects(capsule: Capsule, provider: KeyProvider, j: nat, error: Error)
    requires capsule.EccPublicKey?
  {
    match provider.identities(j)
    case Err(e) => error == e
    case Ok(ids) =>
      exists m: nat :: FirstHolder(ids, capsule, m) &&
        match provider.perform(j, ids[m], EcPublicKey(capsule.curve, capsule.senderKey)) {
          case Err(e) => error == e
          case Ok(shared) => shared == [] && error == InvalidKeyMaterial(EmptySharedSecret)
        }
  }

  /** The offered key is tried on the record and got past every guard, up to the stored master key itself. */
  ghost predicate Tried(rec: RecipientRecord, key: DecryptionKey, j: nat) {
    && rec.fmkMethod == Xor
    && match key {
         case Secret(_) => rec.capsule.SymmetricKey?
         case Password(_) => rec.capsule.Pbkdf2? && rec.capsule.kdfAlgorithm == Pbkdf2WithHmacSha256
         case Provider(p) =>
           && rec.capsule.EccPublicKey?
           && match p.identities(j) {
                case Ok(ids) => exists m: nat :: FirstHolder(ids, rec.capsule, m)
                case Err(_) => true
              }
       }
  }

  /** What stands in the way before the stored master key is looked at. */
  ghost predicate Objects(records: seq<RecipientRecord>, key: DecryptionKey, allowance: nat, j: nat, error: Error)
    requires j < |records|
  {
    var rec := records[j];
    Tried(rec, key, j) &&
    match key {
      case Secret(secret) => SecretObjection(secret, rec.capsule.salt) == Some(error)
      case Password(_) => PasswordObjection(rec.capsule, IterationsNamed(records, j + 1), allowance) == Some(error)
      case Provider(p) => ProviderObjects(rec.capsule, p, j, error)
    }
  }

  lemma ProviderAnswers(c: Crypto, capsule: Capsule, provider: KeyProvider, j: nat)
    requires capsule.EccPublicKey?
    ensures
      var kek := ProviderKek(c, capsule, provider, j);
      && (forall e :: ProviderObjects(capsule, provider, j, e) <==> kek == Err(e))
      && (kek == Ok(None) <==>
            provider.identities(j).Ok? && forall m: nat :: !FirstHolder(provider.identities(j).value, capsule, m))
      && forall k, m: nat :: kek == Ok(Some(k)) && FirstHolder(provider.identities(j).value, capsule, m) ==>
           var shared := provider.perform(j, provider.identities(j).value[m],
                                          EcPublicKey(capsule.curve, capsule.senderKey));
           shared.Ok? && k == c.expand(c.extract(Ascii("CDOC20kekpremaster"), shared.value),
                                       Ascii("CDOC20kekXOR") + capsule.recipientKey + capsule.senderKey)
  {
    assert KEK_INFO_PREFIX + XOR_NAME == Ascii("CDOC20kekXOR");
    if provider.identities(j).Ok? {
      FoundIffHolder(provider.identities(j).value, capsule);
    }
  }

  /** The KEK of the format for a tried record, from what is stored and what is offered. */
  ghost predicate DerivedKek(c: Crypto, rec: RecipientRecord, key: DecryptionKey, j: nat, kek: Key)
    requires Tried(rec, key, j)
  {
    match key
    case Secret(secret) =>
      kek == c.expand(c.extract(rec.capsule.salt, secret), Ascii("CDOC20kekXOR") + rec.keyLabel)
    case Password(text) =>
      && rec.capsule.kdfIterations >= 0
      && kek == c.expand(c.extract(rec.capsule.salt,
                                   c.pbkdf2(text, rec.capsule.passwordSalt, rec.capsule.kdfIterations)),
                         Ascii("CDOC20kekXOR") + rec.keyLabel)
    case Provider(p) =>
      && p.identities(j).Ok?
      && exists m: nat :: FirstHolder(p.identities(j).value, rec.capsule, m) &&
           match p.perform(j, p.identities(j).value[m], EcPublicKey(rec.capsule.curve, rec.capsule.senderKey)) {
             case Ok(shared) =>
               kek == c.expand(c.extract(Ascii("CDOC20kekpremaster"), shared),
                               Ascii("CDOC20kekXOR") + rec.capsule.recipientKey + rec.capsule.senderKey)
             case Err(_) => false
           }
  }

  /** What trying the key comes to, before the stored master key is unwrapped. */
  ghost predicate KekExplained(c: Crypto, records: seq<RecipientRecord>, key: DecryptionKey, allowance: nat, j: nat)
    requires j < |records|
  {
    var rec, kek, over := records[j], KekFor(c, records[j], key, j), OverBudget(records, key, allowance, j);
    if !Tried(rec, key, j) then !over && kek == Ok(None) && forall e :: !Objects(records, key, allowance, j, e)
    else
      && (forall e :: Objects(records, key, allowance, j, e) <==>
            if over then e == LimitExceeded(KdfBudget) else kek == Err(e))
      && (!over && kek.Ok? ==> kek.value.Some? && DerivedKek(c, rec, key, j, kek.value.value))
      && forall k :: !over && kek.Ok? && DerivedKek(c, rec, key, j, k) ==> kek == Ok(Some(k))
  }

  lemma SecretExplained(c: Crypto, records: seq<RecipientRecord>, key: DecryptionKey, allowance: nat, j: nat)
    requires j < |records| && key.Secret?
    ensures KekExplained(c, records, key, allowance, j)
  {
    assert KEK_INFO_PREFIX + XOR_NAME == Ascii("CDOC20kekXOR");
  }

  lemma PasswordExplained(c: Crypto, records: seq<RecipientRecord>, key: DecryptionKey, allowance: nat, j: nat)
    requires j < |records| && key.Password?
    ensures KekExplained(c, records, key, allowance, j)
  {
    assert KEK_INFO_PREFIX + XOR_NAME == Ascii("CDOC20kekXOR");
    PasswordDemand(records, key, j + 1);
  }

  lemma ProviderExplained(c: Crypto, records: seq<RecipientRecord>, key: DecryptionKey, allowance: nat, j: nat)
    requires j < |records| && key.Provider?
    ensures KekExplained(c, records, key, allowance, j)
  {
    hide ProviderKek, FirstHolder;
    var rec := records[j];
    if rec.fmkMethod == Xor && rec.capsule.EccPublicKey? {
      ProviderAnswers(c, rec.capsule, key.provider, j);
      var kek := ProviderKek(c, rec.capsule, key.provider, j);
      if kek.Ok? && kek.value.Some? {
        var m: nat :| FirstHolder(key.provider.identities(j).value, rec.capsule, m);
        assert DerivedKek(c, rec, key, j, kek.value.value);
      }
    }
  }

  /** Schemes that are recognised and refused, each with its reason. */
  predicate Foreign(capsule: Capsule, reason: CapsuleReason) {
    || (capsule.RsaPublicKey? && reason == RsaUnsupported)
    || (capsule == KeyServer && reason == ServerDeferred)
    || (capsule == KeyShares && reason == SharesOutOfScope)
    || (capsule.UnknownCapsuleTag? && reason == UnknownCapsule)
  }

  /**
   The verdict on any record, for any key, told from record and key: a foreign scheme is unsupported; a record the key
   is not for is passed over; an objection is reported as it is; a stored master key of the wrong length is refused;
   and otherwise the record opens exactly if the master key it unwraps to authenticates the header bytes.
   */
  lemma VerdictExplained(c: Crypto, env: Envelope, records: seq<RecipientRecord>, key: DecryptionKey, allowance: nat,
                         j: nat)
    requires j < |records|
    ensures
      var v, rec := VerdictAt(c, env, records, key, allowance, j), records[j];
      && (forall reason :: v == Unsupported(reason) <==> Foreign(rec.capsule, reason))
      && (!v.Unsupported? && !Tried(rec, key, j) ==> v == NotForUs)
      && (forall e :: Objects(records, key, allowance, j, e) ==> v == Fails(e))
      && (Tried(rec, key, j) && (forall e :: !Objects(records, key, allowance, j, e)) ==>
            && (|rec.encryptedFmk| != 32 ==> v == Fails(InvalidKeyMaterial(EncryptedFmkLength)))
            && (|rec.encryptedFmk| == 32 ==> v.Opens? || v.Mismatch?)
            && forall kek :: |rec.encryptedFmk| == 32 && DerivedKek(c, rec, key, j, kek) ==>
                 var fmk := XorKey(rec.encryptedFmk, kek);
                 v == if c.hmac(c.expand(fmk, Ascii("CDOC20hmac")), env.headerBytes) == env.headerHmac
                      then Opens(fmk) else Mismatch)
  {
    hide KekFor, OverBudget, Tried, Objects, DerivedKek, XorKey;
    match key {
      case Secret(_) => SecretExplained(c, records, key, allowance, j);
      case Password(_) => PasswordExplained(c, records, key, allowance, j);
      case Provider(_) => ProviderExplained(c, records, key, allowance, j);
    }
    if Tried(records[j], key, j) {
      TriedIsNotForeign(records[j], key, j);
      var kek := KekFor(c, records[j], key, j);
      assert OverBudget(records, key, allowance, j) ==>
        Objects(records, key, allowance, j, LimitExceeded(KdfBudget));
      assert kek.Err? && !OverBudget(records, key, allowance, j) ==> Objects(records, key, allowance, j, kek.error);
    }
  }

  lemma TriedIsNotForeign(rec: RecipientRecord, key: DecryptionKey, j: nat)
    requires Tried(rec, key, j)
    ensures Refusal(rec.capsule).None?
  {
  }

  predicate PerformsFor(ids: seq<Identity>, capsule: Capsule, j: nat, m: nat, events: seq<Event>)
    requires capsule.EccPublicKey?
  {
    && FirstHolder(ids, capsule, m)
    && events == [Listed(j), Performed(j, ids[m], EcPublicKey(capsule.curve, capsule.senderKey))]
  }

  /**
   The work done for a record, told from record and key: a provider is listed once and, if it holds the record's key,
   performs one operation against the sender's; a password that meets no objection is stretched once; else nothing.
   */
  lemma EventsExplained(records: seq<RecipientRecord>, key: DecryptionKey, allowance: nat, j: nat)
    requires j < |records|
    ensures
      var events, rec := EventsAt(records, key, allowance, j), records[j];
      match key {
        case Secret(_) => events == []
        case Password(_) =>
          if Tried(rec, key, j) && PasswordObjection(rec.capsule, IterationsNamed(records, j + 1), allowance).None?
          then events == [Stretched(j, rec.capsule.kdfIterations)] else events == []
        case Provider(_) =>
          var ids := key.provider.identities(j);
          if rec.fmkMethod != Xor || !rec.capsule.EccPublicKey? then events == []
          else if ids.Err? || !Tried(rec, key, j) then events == [Listed(j)]
          else exists m: nat :: PerformsFor(key.provider.identities(j).value, rec.capsule, j, m, events)
      }
  {
    hide FirstHolder, FindIdentity;
    var rec := records[j];
    if key.Password? {
      PasswordDemand(records, key, j + 1);
    } else if key.Provider? && rec.capsule.EccPublicKey? && key.provider.identities(j).Ok? {
      var ids := key.provider.identities(j).value;
      FoundIffHolder(ids, rec.capsule);
      if m: nat :| FirstHolder(ids, rec.capsule, m) {
        assert rec.fmkMethod == Xor ==>
          PerformsFor(ids, rec.capsule, j, m, EventsAt(records, key, allowance, j));
      }
    }
  }

  /** Nothing before position `i` ends the scan. */
  ghost predicate Reaches(c: Crypto, env: Envelope, records: seq<RecipientRecord>, key: DecryptionKey, allowance: nat,
                          i: nat)
    requires i <= |records|
  {
    forall k :: 0 <= k < i ==> !Stops(VerdictAt(c, env, records, key, allowance, k))
  }

  /** The scheme names shown for the three kinds of record that can open. */
  predicate NamesScheme(capsule: Capsule, scheme: Scheme) {
    || (capsule.SymmetricKey? && scheme == Sc05)
    || (capsule.Pbkdf2? && scheme == Sc06)
    || (capsule.EccPublicKey? && scheme == Sc01)
  }

  /**
   Where the scan stops decides the answer of `open_header`: an objection of the record is the error, unaltered, and an
   opening reports this very record: its position, its label, its scheme and the master key it unwrapped to.
   */
  lemma StopDecides(c: Crypto, codec: Codec, env: Envelope, header: Header, key: DecryptionKey, limits: Limits, i: nat)
    requires Decode(codec, env.headerBytes) == Ok(header) && i < |header.recipients| <= limits.maxRecipients
    requires Reaches(c, env, header.recipients, key, limits.maxTotalKdfIterations, i)
    ensures
      var r, rec := OpenHeaderResult(c, codec, env, key, limits), header.recipients[i];
      && (forall e :: Objects(header.recipients, key, limits.maxTotalKdfIterations, i, e) ==> r == Err(e))
      && match VerdictAt(c, env, header.recipients, key, limits.maxTotalKdfIterations, i) {
           case Fails(e) => r == Err(e)
           case Opens(fmk) =>
             && r.Ok? && r.value.fmk == fmk && r.value.verified.header == header
             && r.value.verified.aad == Ascii("CDOC20payload") + env.headerBytes + env.headerHmac
             && r.value.matched.index == i && r.value.matched.keyLabel == rec.keyLabel
             && NamesScheme(rec.capsule, r.value.matched.scheme)
           case _ => true
         }
  {
    hide VerdictAt, Search, Objects, ChargeAt, EventsAt;
    var allowance := limits.maxTotalKdfIterations;
    var vs := RunOf(c, env, header.recipients, key, allowance).verdicts;
    VerdictExplained(c, env, header.recipients, key, allowance, i);
    assert vs[i] == VerdictAt(c, env, header.recipients, key, allowance, i);
    if vs[i].Fails? {
      SearchFails(vs, i);
    } else if vs[i].Opens? {
      OpensIsKnown(c, env, header.recipients, key, allowance, i);
      SearchOkIff(vs, i, vs[i].fmk);
    }
  }

  lemma OpensIsKnown(c: Crypto, env: Envelope, records: seq<RecipientRecord>, key: DecryptionKey, allowance: nat,
                     i: nat)
    requires i < |records| && VerdictAt(c, env, records, key, allowance, i).Opens?
    ensures NamesScheme(records[i].capsule, SchemeOf(records[i].capsule))
  {
  }

  /** What `open_header` answers when no record stops the scan, or the scan does not start. */
  lemma NothingOpens(c: Crypto, codec: Codec, env: Envelope, key: DecryptionKey, limits: Limits)
    ensures
      var r := OpenHeaderResult(c, codec, env, key, limits);
      match Decode(codec, env.headerBytes) {
        case Err(e) => r == Err(e)
        case Ok(header) =>
          var records := header.recipients;
          if |records| > limits.maxRecipients then r == Err(LimitExceeded(TooManyRecipients))
          else
            Reaches(c, env, records, key, limits.maxTotalKdfIterations, |records|) ==>
              if exists k :: 0 <= k < |records| && MismatchAt(c, env, records, key, limits, k)
              then r == Err(HeaderHmacMismatch)
              else
                && (forall k, reason :: 0 <= k < |records| && FirstForeign(records, k, reason) ==>
                      r == Err(UnsupportedCapsule(reason)))
                && ((forall k, reason :: 0 <= k < |records| ==> !Foreign(records[k].capsule, reason)) ==>
                      r == Err(NoMatchingRecipient))
      }
  {
    hide VerdictAt, Search, ChargeAt, EventsAt, Decode;
    var decoded := Decode(codec, env.headerBytes);
    if decoded.Ok? && |decoded.value.recipients| <= limits.maxRecipients {
      var records, allowance := decoded.value.recipients, limits.maxTotalKdfIterations;
      if Reaches(c, env, records, key, allowance, |records|) {
        var vs := RunOf(c, env, records, key, allowance).verdicts;
        forall k | 0 <= k < |records|
          ensures vs[k].Mismatch? <==> MismatchAt(c, env, records, key, limits, k)
          ensures forall reason :: vs[k] == Unsupported(reason) <==> Foreign(records[k].capsule, reason)
          ensures !Stops(vs[k])
        {
          assert vs[k] == VerdictAt(c, env, records, key, allowance, k);
          VerdictExplained(c, env, records, key, allowance, k);
        }
        SearchErrors(vs);
      }
    }
  }

  ghost predicate MismatchAt(c: Crypto, env: Envelope, records: seq<RecipientRecord>, key: DecryptionKey,
                               limits: Limits, k: nat)
    requires k < |records|
  {
    VerdictAt(c, env, records, key, limits.maxTotalKdfIterations, k).Mismatch?
  }

  ghost predicate FirstForeign(records: seq<RecipientRecord>, k: nat, reason: CapsuleReason)
    requires k < |records|
  {
    && Foreign(records[k].capsule, reason)
    && forall m, other :: 0 <= m < k ==> !Foreign(records[m].capsule, other)
  }

  // ----- what a label binds -----

  /** The records with one label edited. */
  function Relabelled(records: seq<RecipientRecord>, j: nat, keyLabel: Text): seq<RecipientRecord>
    requires j < |records|
  {
    records[j := records[j].(keyLabel := keyLabel)]
  }

  lemma {:induction false} LabelsCostNothing(records: seq<RecipientRecord>, j: nat, keyLabel: Text, key: DecryptionKey,
                                             n: nat)
    requires j < |records| && n <= |records|
    ensures DemandBefore(Relabelled(records, j, keyLabel), key, n) == DemandBefore(records, key, n)
  {
    if n > 0 {
      LabelsCostNothing(records, j, keyLabel, key, n - 1);
    }
  }

  /** Editing a label can only change the verdict on its own record. */
  lemma LabelTouchesOneVerdict(c: Crypto, env: Envelope, records: seq<RecipientRecord>, key: DecryptionKey,
                               allowance: nat, j: nat, keyLabel: Text, k: nat)
    requires j < |records| && k < |records| && (k != j || records[j].capsule.EccPublicKey?)
    ensures VerdictAt(c, env, Relabelled(records, j, keyLabel), key, allowance, k)
         == VerdictAt(c, env, records, key, allowance, k)
  {
    hide DemandBefore, FindIdentity, Authenticates;
    LabelsCostNothing(records, j, keyLabel, key, k + 1);
  }

  /**
   The label of an EC record enters no decision of the scan: under any header bytes and HMAC, for any key, every
   record keeps its verdict when the label is edited, and so the search its answer.
   */
  lemma EcLabelIsFree(c: Crypto, env: Envelope, records: seq<RecipientRecord>, key: DecryptionKey, allowance: nat,
                      j: nat, keyLabel: Text)
    requires j < |records| && records[j].capsule.EccPublicKey?
    ensures
      var run, run' := RunOf(c, env, records, key, allowance),
                       RunOf(c, env, Relabelled(records, j, keyLabel), key, allowance);
      run'.verdicts == run.verdicts && Search(run'.verdicts) == Search(run.verdicts)
  {
    hide VerdictAt, Search, ChargeAt, EventsAt;
    forall k | 0 <= k < |records|
      ensures VerdictAt(c, env, Relabelled(records, j, keyLabel), key, allowance, k)
           == VerdictAt(c, env, records, key, allowance, k)
    {
      LabelTouchesOneVerdict(c, env, records, key, allowance, j, keyLabel, k);
    }
  }

  /** The label enters the KEK that the offered key establishes for this record. */
  predicate BoundByLabel(rec: RecipientRecord, key: DecryptionKey) {
    (rec.capsule.SymmetricKey? && key.Secret?) || (WantsPbkdf2(rec, key) && rec.capsule.kdfIterations >= 0)
  }

  /** The secret a password or shared key is turned into before the label enters. */
  function PreLabelSecret(c: Crypto, rec: RecipientRecord, key: DecryptionKey): Bytes
    requires BoundByLabel(rec, key)
  {
    c.extract(rec.capsule.salt,
              if key.Secret? then key.secret
              else c.pbkdf2(key.text, rec.capsule.passwordSalt, rec.capsule.kdfIterations))
  }

  /**
   For password and shared-key records the label is load-bearing: unless the derivation itself collides, editing it
   makes the right key unwrap a different master key.
   */
  lemma EditedLabelLosesFmk(c: Crypto, rec: RecipientRecord, key: DecryptionKey, j: nat, keyLabel: Text)
    requires BoundByLabel(rec, key)
    requires KekFor(c, rec, key, j).Ok? && KekFor(c, rec, key, j).value.Some? && |rec.encryptedFmk| == FMK_LEN
    requires rec.keyLabel != keyLabel
    requires SymmetricInfo(rec.keyLabel) != SymmetricInfo(keyLabel) ==>
      c.expand(PreLabelSecret(c, rec, key), SymmetricInfo(rec.keyLabel))
        != c.expand(PreLabelSecret(c, rec, key), SymmetricInfo(keyLabel))
    ensures
      var kek, kek' := KekFor(c, rec, key, j), KekFor(c, rec.(keyLabel := keyLabel), key, j);
      && kek'.Ok? && kek'.value.Some?
      && Unwrap(rec.encryptedFmk, kek'.value.value) != Unwrap(rec.encryptedFmk, kek.value.value)
  {
    if SymmetricInfo(rec.keyLabel) == SymmetricInfo(keyLabel) {
      SymmetricInfoInjective(rec.keyLabel, keyLabel);
    }
    var k := KekFor(c, rec, key, j).value.value;
    var k' := KekFor(c, rec.(keyLabel := keyLabel), key, j).value.value;
    if XorKey(rec.encryptedFmk, k) == XorKey(rec.encryptedFmk, k') {
      XorKeyCancels(rec.encryptedFmk, k, k');
    }
  }

  /** The master key the offered key unwraps from a record, if it gets that far. */
  function Unwrapped(c: Crypto, rec: RecipientRecord, key: DecryptionKey, j: nat): Option<Key> {
    match KekFor(c, rec, key, j)
    case Ok(Some(kek)) =>
      (match Unwrap(rec.encryptedFmk, kek)
       case Ok(fmk) => Some(fmk)
       case Err(_) => None)
    case _ => None
  }

  /** Neither the derivation collides for the two labels nor does another master key pass for the real one. */
  ghost predicate NoCollision(c: Crypto, env: Envelope, rec: RecipientRecord, key: DecryptionKey, j: nat,
                              keyLabel: Text)
    requires BoundByLabel(rec, key)
  {
    && c.expand(PreLabelSecret(c, rec, key), SymmetricInfo(rec.keyLabel))
         != c.expand(PreLabelSecret(c, rec, key), SymmetricInfo(keyLabel))
    && match Unwrapped(c, rec.(keyLabel := keyLabel), key, j) {
         case Some(fmk) => Authenticates(c, env, fmk) ==> Unwrapped(c, rec, key, j) == Some(fmk)
         case None => true
       }
  }

  lemma EditedVerdict(c: Crypto, env: Envelope, records: seq<RecipientRecord>, key: DecryptionKey, allowance: nat,
                      j: nat, keyLabel: Text)
    requires j < |records| && BoundByLabel(records[j], key) && records[j].keyLabel != keyLabel
    requires Unwrapped(c, records[j], key, j).Some? && NoCollision(c, env, records[j], key, j, keyLabel)
    ensures VerdictAt(c, env, Relabelled(records, j, keyLabel), key, allowance, j)
         == if OverBudget(records, key, allowance, j) then Fails(LimitExceeded(KdfBudget)) else Mismatch
  {
    hide DemandBefore, Authenticates, FindIdentity;
    LabelsCostNothing(records, j, keyLabel, key, j + 1);
    EditedLabelLosesFmk(c, records[j], key, j, keyLabel);
  }

  /**
   Editing the label of a password or shared-key record locks its holder out, even if the header is authenticated
   anew: unless something collides or another record lets the key in, opening fails.
   */
  lemma EditedLabelLocksOut(c: Crypto, env: Envelope, header: Header, key: DecryptionKey, limits: Limits, j: nat,
                            keyLabel: Text)
    requires j < |header.recipients| && header.recipients[j].keyLabel != keyLabel
    requires BoundByLabel(header.recipients[j], key) && Unwrapped(c, header.recipients[j], key, j).Some?
    requires NoCollision(c, env, header.recipients[j], key, j, keyLabel)
    requires forall k :: 0 <= k < |header.recipients| && k != j ==>
      !VerdictAt(c, env, header.recipients, key, limits.maxTotalKdfIterations, k).Opens?
    ensures
      var got := OpenDecoded(c, env, header.(recipients := Relabelled(header.recipients, j, keyLabel)), key, limits);
      && got.Err?
      && (|header.recipients| == 1 <= limits.maxRecipients ==>
            Demand(header.recipients[j], key) <= limits.maxTotalKdfIterations ==> got == Err(HeaderHmacMismatch))
  {
    hide VerdictAt, NoCollision, Unwrapped, ChargeAt, EventsAt;
    var records, allowance := header.recipients, limits.maxTotalKdfIterations;
    var records' := Relabelled(records, j, keyLabel);
    var vs := RunOf(c, env, records', key, allowance).verdicts;
    EditedVerdict(c, env, records, key, allowance, j, keyLabel);
    forall k | 0 <= k < |records| ensures !vs[k].Opens? {
      assert vs[k] == VerdictAt(c, env, records', key, allowance, k);
      if k != j {
        LabelTouchesOneVerdict(c, env, records, key, allowance, j, keyLabel, k);
      }
    }
    if |records| == 1 && Demand(records[j], key) <= allowance {
      assert DemandBefore(records, key, 1) == DemandBefore(records, key, 0) + Demand(records[0], key);
      assert vs[0].Mismatch?;
      SearchErrors(vs);
    }
  }
}
