/** Choosing certificates from directory entries (crates/umbrik-ldap/src/lib.rs); DN rules and parsing are abstract. */
module DirectoryLookup {
  import opened Basics

  datatype Rejection = NotAuthentication | MobileId | UnsupportedKey | Unparseable

  datatype CertificateRecipient = CertificateRecipient(key: Bytes, subject: string)

  datatype Parsed = Usable(recipient: CertificateRecipient) | Refused(reason: Rejection)

  /** What a DN says about its entry, the card type it names, and what a certificate parses to. */
  datatype Rules = Rules(
    classify: string -> Option<Rejection>,
    cardType: string -> string,
    parse: Bytes -> Parsed)

  datatype DirectoryEntry = DirectoryEntry(dn: string, certificates: seq<Bytes>)

  datatype DirectoryMatch = DirectoryMatch(recipient: CertificateRecipient, dn: string, cardType: string)
  datatype Rejected = Rejected(dn: string, reason: Rejection)
  datatype Lookup = Lookup(matches: seq<DirectoryMatch>, rejected: seq<Rejected>)

  // ----- what there is to decide about -----

  /** An unusable entry, or one certificate of a usable entry. */
  datatype Observation = UnusableEntry(dn: string, reason: Rejection) | Certificate(dn: string, der: Bytes)

  function CertificatesOf(dn: string, ders: seq<Bytes>): (obs: seq<Observation>)
    ensures |obs| == |ders|
  {
    seq(|ders|, i requires 0 <= i < |ders| => Certificate(dn, ders[i]))
  }

  function Observed(rules: Rules, e: DirectoryEntry): seq<Observation> {
    match rules.classify(e.dn)
    case Some(reason) => [UnusableEntry(e.dn, reason)]
    case None => CertificatesOf(e.dn, e.certificates)
  }

  /** All decisions, in the order of the entries and of the certificates within them. */
  function Observations(rules: Rules, entries: seq<DirectoryEntry>): seq<Observation> {
    if entries == [] then []
    else Observations(rules, entries[..|entries| - 1]) + Observed(rules, entries[|entries| - 1])
  }

  predicate Offers(rules: Rules, o: Observation, key: Bytes) {
    o.Certificate? && rules.parse(o.der).Usable? && rules.parse(o.der).recipient.key == key
  }

  datatype Fate = Matched | Duplicate | Dropped(reason: Rejection)

  /** Each observation has one fate: dropped with a reason, a later copy of a key, or the key's first occurrence. */
  function FateOf(rules: Rules, obs: seq<Observation>, i: nat): Fate
    requires i < |obs|
  {
    match obs[i]
    case UnusableEntry(_, reason) => Dropped(reason)
    case Certificate(_, der) =>
      match rules.parse(der)
      case Refused(reason) => Dropped(reason)
      case Usable(r) => if exists j :: 0 <= j < i && Offers(rules, obs[j], r.key) then Duplicate else Matched
  }

  /** The first `n` observations with the given outcome, gathered in order. */
  function MatchesOf(rules: Rules, obs: seq<Observation>, n: nat): seq<DirectoryMatch>
    requires n <= |obs|
  {
    if n == 0 then []
    else
      var before := MatchesOf(rules, obs, n - 1);
      var o := obs[n - 1];
      if FateOf(rules, obs, n - 1) == Matched
      then before + [DirectoryMatch(rules.parse(o.der).recipient, o.dn, rules.cardType(o.dn))]
      else before
  }

  function RejectedOf(rules: Rules, obs: seq<Observation>, n: nat): seq<Rejected>
    requires n <= |obs|
  {
    if n == 0 then []
    else
      var before := RejectedOf(rules, obs, n - 1);
      var fate := FateOf(rules, obs, n - 1);
      if fate.Dropped? then before + [Rejected(obs[n - 1].dn, fate.reason)] else before
  }

  function DuplicatesOf(rules: Rules, obs: seq<Observation>, n: nat): nat
    requires n <= |obs|
  {
    if n == 0 then 0 else DuplicatesOf(rules, obs, n - 1) + (if FateOf(rules, obs, n - 1) == Duplicate then 1 else 0)
  }

  /** What has been gathered once all observations are decided. */
  function Decided(rules: Rules, obs: seq<Observation>): Lookup {
    Lookup(MatchesOf(rules, obs, |obs|), RejectedOf(rules, obs, |obs|))
  }

  function Selected(rules: Rules, entries: seq<DirectoryEntry>): Lookup {
    Decided(rules, Observations(rules, entries))
  }

  // ----- the code -----

  predicate HasKey(matches: seq<DirectoryMatch>, key: Bytes) {
    exists k :: 0 <= k < |matches| && matches[k].recipient.key == key
  }

  /** The keys matched so far are exactly the keys offered so far, so looking through the matches finds duplicates. */
  lemma {:induction false} MatchedKeys(rules: Rules, obs: seq<Observation>, n: nat, key: Bytes)
    requires n <= |obs|
    ensures HasKey(MatchesOf(rules, obs, n), key) <==> exists j :: 0 <= j < n && Offers(rules, obs[j], key)
  {
    if n > 0 {
      MatchedKeys(rules, obs, n - 1, key);
      var before, after := MatchesOf(rules, obs, n - 1), MatchesOf(rules, obs, n);
      if HasKey(before, key) {
        var k :| 0 <= k < |before| && before[k].recipient.key == key;
        assert after[k] == before[k];
      }
      if Offers(rules, obs[n - 1], key) && FateOf(rules, obs, n - 1) == Matched {
        assert after[|before|].recipient.key == key;
      }
    }
  }

  /** Fates look back only, so they do not change when more is observed. */
  lemma {:induction false} PrefixFates(rules: Rules, a: seq<Observation>, b: seq<Observation>, n: nat)
    requires n <= |a|
    ensures MatchesOf(rules, a + b, n) == MatchesOf(rules, a, n)
    ensures RejectedOf(rules, a + b, n) == RejectedOf(rules, a, n)
  {
    if n > 0 {
      PrefixFates(rules, a, b, n - 1);
      assert forall j :: 0 <= j < n ==> (a + b)[j] == a[j];
    }
  }

  /** One more observation is decided by looking through the matches gathered so far. */
  lemma DecideNext(rules: Rules, obs: seq<Observation>, o: Observation)
    ensures
      var now := Decided(rules, obs);
      Decided(rules, obs + [o]) ==
        match o {
          case UnusableEntry(dn, reason) => now.(rejected := now.rejected + [Rejected(dn, reason)])
          case Certificate(dn, der) =>
            match rules.parse(der) {
              case Refused(reason) => now.(rejected := now.rejected + [Rejected(dn, reason)])
              case Usable(r) =>
                if HasKey(now.matches, r.key) then now
                else now.(matches := now.matches + [DirectoryMatch(r, dn, rules.cardType(dn))])
            }
        }
  {
    var all := obs + [o];
    PrefixFates(rules, obs, [o], |obs|);
    if o.Certificate? && rules.parse(o.der).Usable? {
      MatchedKeys(rules, obs, |obs|, rules.parse(o.der).recipient.key);
      assert forall j :: 0 <= j < |obs| ==> all[j] == obs[j];
    }
  }

  /** The inner loop: the certificates of one usable entry. */
  method AddCertificates(rules: Rules, dn: string, ders: seq<Bytes>, start: Lookup, ghost obs: seq<Observation>)
    returns (out: Lookup)
    requires start == Decided(rules, obs)
    ensures out == Decided(rules, obs + CertificatesOf(dn, ders))
  {
    hide Decided, HasKey;
    out := start;
    ghost var more := CertificatesOf(dn, ders);
    assert obs + more[..0] == obs;
    for i := 0 to |ders|
      invariant out == Decided(rules, obs + more[..i])
    {
      DecideNext(rules, obs + more[..i], Certificate(dn, ders[i]));
      assert obs + more[..i + 1] == obs + more[..i] + [Certificate(dn, ders[i])];
      match rules.parse(ders[i])
      case Usable(recipient) =>
        if HasKey(out.matches, recipient.key) {
          continue;
        }
        out := out.(matches := out.matches + [DirectoryMatch(recipient, dn, rules.cardType(dn))]);
      case Refused(reason) =>
        out := out.(rejected := out.rejected + [Rejected(dn, reason)]);
    }
    assert more[..|ders|] == more;
  }

  lemma DecidedNothing(rules: Rules)
    ensures Decided(rules, []) == Lookup([], [])
  {
  }

  /** `select_certificates`. */
  method SelectCertificates(rules: Rules, entries: seq<DirectoryEntry>) returns (out: Lookup)
    ensures out == Selected(rules, entries)
  {
    hide Decided, HasKey, CertificatesOf;
    out := Lookup([], []);
    DecidedNothing(rules);
    for i := 0 to |entries|
      invariant out == Decided(rules, Observations(rules, entries[..i]))
    {
      assert entries[..i + 1][..i] == entries[..i];
      var e := entries[i];
      ghost var obs := Observations(rules, entries[..i]);
      assert Observations(rules, entries[..i + 1]) == obs + Observed(rules, e);
      if rules.classify(e.dn).Some? {
        DecideNext(rules, obs, UnusableEntry(e.dn, rules.classify(e.dn).value));
        out := out.(rejected := out.rejected + [Rejected(e.dn, rules.classify(e.dn).value)]);
        continue;
      }
      out := AddCertificates(rules, e.dn, e.certificates, out, obs);
    }
    assert entries[..|entries|] == entries;
  }

  // ----- what the selection keeps -----

  /** Every observation ends up in exactly one place: a match, a rejection, or a duplicate of an earlier match. */
  lemma {:induction false} SelectionConserves(rules: Rules, obs: seq<Observation>, n: nat)
    requires n <= |obs|
    ensures |MatchesOf(rules, obs, n)| + |RejectedOf(rules, obs, n)| + DuplicatesOf(rules, obs, n) == n
  {
    if n > 0 {
      SelectionConserves(rules, obs, n - 1);
    }
  }

  function UnusableEntries(rules: Rules, entries: seq<DirectoryEntry>): nat {
    if entries == [] then 0
    else UnusableEntries(rules, entries[..|entries| - 1])
         + (if rules.classify(entries[|entries| - 1].dn).Some? then 1 else 0)
  }

  /** Certificates of the entries that are usable. */
  function CertificateCount(rules: Rules, entries: seq<DirectoryEntry>): nat {
    if entries == [] then 0
    else CertificateCount(rules, entries[..|entries| - 1])
         + (if rules.classify(entries[|entries| - 1].dn).Some? then 0 else |entries[|entries| - 1].certificates|)
  }

  lemma {:induction false} ObservationCount(rules: Rules, entries: seq<DirectoryEntry>)
    ensures |Observations(rules, entries)| == UnusableEntries(rules, entries) + CertificateCount(rules, entries)
  {
    if entries != [] {
      ObservationCount(rules, entries[..|entries| - 1]);
    }
  }

  /** Counted from the directory's answer: nothing the search returned is lost or counted twice. */
  lemma NothingIsLost(rules: Rules, entries: seq<DirectoryEntry>)
    ensures
      var found, obs := Selected(rules, entries), Observations(rules, entries);
      |found.matches| + |found.rejected| + DuplicatesOf(rules, obs, |obs|)
        == UnusableEntries(rules, entries) + CertificateCount(rules, entries)
  {
    var obs := Observations(rules, entries);
    SelectionConserves(rules, obs, |obs|);
    ObservationCount(rules, entries);
  }

  predicate DistinctKeys(ms: seq<DirectoryMatch>) {
    forall j, k :: 0 <= j < k < |ms| ==> ms[j].recipient.key != ms[k].recipient.key
  }

  lemma DistinctKeysSnoc(ms: seq<DirectoryMatch>, m: DirectoryMatch)
    requires DistinctKeys(ms) && !HasKey(ms, m.recipient.key)
    ensures DistinctKeys(ms + [m])
  {
  }

  /** Matches have pairwise distinct keys. */
  lemma {:induction false} MatchesDistinct(rules: Rules, obs: seq<Observation>, n: nat)
    requires n <= |obs|
    ensures DistinctKeys(MatchesOf(rules, obs, n))
  {
    if n > 0 {
      MatchesDistinct(rules, obs, n - 1);
      if FateOf(rules, obs, n - 1) == Matched {
        var recipient := rules.parse(obs[n - 1].der).recipient;
        MatchedKeys(rules, obs, n - 1, recipient.key);
        DistinctKeysSnoc(MatchesOf(rules, obs, n - 1),
                         DirectoryMatch(recipient, obs[n - 1].dn, rules.cardType(obs[n - 1].dn)));
      }
    }
  }

  /** The entry is usable and one of its certificates parses to the key. */
  predicate EntryOffers(rules: Rules, e: DirectoryEntry, key: Bytes) {
    && rules.classify(e.dn).None?
    && exists i :: 0 <= i < |e.certificates| && Offers(rules, Certificate(e.dn, e.certificates[i]), key)
  }

  predicate Available(rules: Rules, entries: seq<DirectoryEntry>, key: Bytes) {
    exists e :: e in entries && EntryOffers(rules, e, key)
  }

  predicate AnyOffers(rules: Rules, obs: seq<Observation>, key: Bytes) {
    exists j :: 0 <= j < |obs| && Offers(rules, obs[j], key)
  }

  lemma AnyOffersConcat(rules: Rules, a: seq<Observation>, b: seq<Observation>, key: Bytes)
    ensures AnyOffers(rules, a + b, key) <==> AnyOffers(rules, a, key) || AnyOffers(rules, b, key)
  {
    if AnyOffers(rules, a, key) {
      var j :| 0 <= j < |a| && Offers(rules, a[j], key);
      assert (a + b)[j] == a[j];
    }
    if AnyOffers(rules, b, key) {
      var j :| 0 <= j < |b| && Offers(rules, b[j], key);
      assert (a + b)[|a| + j] == b[j];
    }
  }

  lemma ObservedEntryKeys(rules: Rules, e: DirectoryEntry, key: Bytes)
    ensures AnyOffers(rules, Observed(rules, e), key) <==> EntryOffers(rules, e, key)
  {
    if EntryOffers(rules, e, key) {
      var i :| 0 <= i < |e.certificates| && Offers(rules, Certificate(e.dn, e.certificates[i]), key);
      assert Offers(rules, Observed(rules, e)[i], key);
    }
  }

  lemma {:induction false} ObservedKeys(rules: Rules, entries: seq<DirectoryEntry>, key: Bytes)
    ensures AnyOffers(rules, Observations(rules, entries), key) <==> Available(rules, entries, key)
  {
    if entries != [] {
      hide AnyOffers, EntryOffers, Observed;
      var before, e := entries[..|entries| - 1], entries[|entries| - 1];
      ObservedKeys(rules, before, key);
      AnyOffersConcat(rules, Observations(rules, before), Observed(rules, e), key);
      ObservedEntryKeys(rules, e, key);
      assert entries == before + [e];
    }
  }

  /** A key is selected exactly when some usable certificate of some usable entry carries it. */
  lemma SelectedKeysAreAvailable(rules: Rules, entries: seq<DirectoryEntry>, key: Bytes)
    ensures HasKey(Selected(rules, entries).matches, key) <==> Available(rules, entries, key)
  {
    hide HasKey, Available;
    var obs := Observations(rules, entries);
    MatchedKeys(rules, obs, |obs|, key);
    ObservedKeys(rules, entries, key);
  }

  /** The set of selected keys does not depend on the order in which the entries arrive. */
  lemma SelectionIgnoresOrder(rules: Rules, entries: seq<DirectoryEntry>, shuffled: seq<DirectoryEntry>, key: Bytes)
    requires multiset(entries) == multiset(shuffled)
    ensures HasKey(Selected(rules, entries).matches, key) <==> HasKey(Selected(rules, shuffled).matches, key)
  {
    hide Selected, HasKey, EntryOffers;
    SelectedKeysAreAvailable(rules, entries, key);
    SelectedKeysAreAvailable(rules, shuffled, key);
    assert forall e :: e in entries <==> e in multiset(entries);
    assert forall e :: e in shuffled <==> e in multiset(shuffled);
  }

  // ----- first occurrences, from the entry list alone -----

  /** A certificate of an entry, or the entry itself (certificate position zero) if it is unusable. */
  datatype Place = Place(entry: nat, certificate: nat)

  predicate Earlier(p: Place, q: Place) {
    p.entry < q.entry || (p.entry == q.entry && p.certificate < q.certificate)
  }

  predicate InOrder(places: seq<Place>) {
    forall i, j :: 0 <= i < j < |places| ==> Earlier(places[i], places[j])
  }

  predicate IsPlace(rules: Rules, entries: seq<DirectoryEntry>, p: Place) {
    && p.entry < |entries|
    && if rules.classify(entries[p.entry].dn).Some? then p.certificate == 0
       else p.certificate < |entries[p.entry].certificates|
  }

  /** What lies at a place. */
  function At(rules: Rules, entries: seq<DirectoryEntry>, p: Place): Observation
    requires IsPlace(rules, entries, p)
  {
    var e := entries[p.entry];
    match rules.classify(e.dn)
    case Some(reason) => UnusableEntry(e.dn, reason)
    case None => Certificate(e.dn, e.certificates[p.certificate])
  }

  /** The certificate at this place is usable and carries the key. */
  predicate CarriesKey(rules: Rules, entries: seq<DirectoryEntry>, p: Place, key: Bytes) {
    && p.entry < |entries| && rules.classify(entries[p.entry].dn).None?
    && p.certificate < |entries[p.entry].certificates|
    && match rules.parse(entries[p.entry].certificates[p.certificate]) {
         case Usable(recipient) => recipient.key == key
         case Refused(_) => false
       }
  }

  /** The entry is unusable, or the certificate at this place is, for this reason. */
  predicate RefusedAt(rules: Rules, entries: seq<DirectoryEntry>, p: Place, reason: Rejection) {
    && p.entry < |entries|
    && match rules.classify(entries[p.entry].dn) {
         case Some(r) => p.certificate == 0 && reason == r
         case None =>
           && p.certificate < |entries[p.entry].certificates|
           && rules.parse(entries[p.entry].certificates[p.certificate]) == Refused(reason)
       }
  }

  /** Each match comes from the earliest place with its key, in the order of those places. */
  ghost predicate FirstOccurrences(rules: Rules, entries: seq<DirectoryEntry>, matches: seq<DirectoryMatch>,
                                   places: seq<Place>)
  {
    && |places| == |matches| && InOrder(places)
    && forall k :: 0 <= k < |matches| ==>
         && CarriesKey(rules, entries, places[k], matches[k].recipient.key)
         && matches[k].dn == entries[places[k].entry].dn
         && matches[k].cardType == rules.cardType(matches[k].dn)
         && rules.parse(entries[places[k].entry].certificates[places[k].certificate]) == Usable(matches[k].recipient)
         && forall p :: CarriesKey(rules, entries, p, matches[k].recipient.key) ==> !Earlier(p, places[k])
  }

  /** The rejections are the refused places, all of them, in order, each with its entry's name and its reason. */
  ghost predicate AllRefusals(rules: Rules, entries: seq<DirectoryEntry>, rejected: seq<Rejected>, places: seq<Place>) {
    && |places| == |rejected| && InOrder(places)
    && (forall k :: 0 <= k < |rejected| ==>
          && RefusedAt(rules, entries, places[k], rejected[k].reason)
          && rejected[k].dn == entries[places[k].entry].dn)
    && forall p, reason :: RefusedAt(rules, entries, p, reason) ==> p in places
  }

  /** The places of an entry list, one per observation. */
  ghost predicate Enumerates(rules: Rules, entries: seq<DirectoryEntry>, obs: seq<Observation>, places: seq<Place>) {
    && |places| == |obs| && InOrder(places)
    && (forall i :: 0 <= i < |places| ==> IsPlace(rules, entries, places[i]) && obs[i] == At(rules, entries, places[i]))
    && forall p :: IsPlace(rules, entries, p) ==> p in places
  }

  function PlacesOf(rules: Rules, e: DirectoryEntry, n: nat): (places: seq<Place>)
    ensures |places| == |Observed(rules, e)|
    ensures forall i :: 0 <= i < |places| ==> places[i] == Place(n, i)
  {
    seq(|Observed(rules, e)|, i requires 0 <= i < |Observed(rules, e)| => Place(n, i))
  }

  lemma {:induction false} PlacesExist(rules: Rules, entries: seq<DirectoryEntry>) returns (places: seq<Place>)
    ensures Enumerates(rules, entries, Observations(rules, entries), places)
  {
    if entries == [] {
      places := [];
    } else {
      var n, last := |entries| - 1, entries[|entries| - 1];
      var before := PlacesExist(rules, entries[..n]);
      var more := PlacesOf(rules, last, n);
      places := before + more;
      var obs := Observations(rules, entries);
      forall i | 0 <= i < |places|
        ensures IsPlace(rules, entries, places[i]) && obs[i] == At(rules, entries, places[i])
      {
        if i < |before| {
          assert IsPlace(rules, entries[..n], before[i]);
        }
      }
      forall p | IsPlace(rules, entries, p) ensures p in places {
        if p.entry < n {
          assert IsPlace(rules, entries[..n], p);
        } else {
          assert more[p.certificate] == p;
        }
      }
      assert forall i :: 0 <= i < |before| ==> IsPlace(rules, entries[..n], before[i]) && before[i].entry < n;
    }
  }

  /** Which observations were matched, in order. */
  function MatchedAt(rules: Rules, obs: seq<Observation>, n: nat): (at: seq<nat>)
    requires n <= |obs|
    ensures forall k :: 0 <= k < |at| ==> at[k] < n && FateOf(rules, obs, at[k]) == Matched
    ensures forall j, k :: 0 <= j < k < |at| ==> at[j] < at[k]
  {
    if n == 0 then []
    else if FateOf(rules, obs, n - 1) == Matched then MatchedAt(rules, obs, n - 1) + [n - 1]
    else MatchedAt(rules, obs, n - 1)
  }

  function DroppedAt(rules: Rules, obs: seq<Observation>, n: nat): (at: seq<nat>)
    requires n <= |obs|
    ensures forall k :: 0 <= k < |at| ==> at[k] < n && FateOf(rules, obs, at[k]).Dropped?
    ensures forall j, k :: 0 <= j < k < |at| ==> at[j] < at[k]
    ensures forall i :: 0 <= i < n && FateOf(rules, obs, i).Dropped? ==> i in at
  {
    if n == 0 then []
    else if FateOf(rules, obs, n - 1).Dropped? then DroppedAt(rules, obs, n - 1) + [n - 1]
    else DroppedAt(rules, obs, n - 1)
  }

  lemma {:induction false} MatchesAt(rules: Rules, obs: seq<Observation>, n: nat)
    requires n <= |obs|
    ensures
      var at, ms := MatchedAt(rules, obs, n), MatchesOf(rules, obs, n);
      && |ms| == |at|
      && forall k :: 0 <= k < |at| ==>
           var o := obs[at[k]];
           ms[k] == DirectoryMatch(rules.parse(o.der).recipient, o.dn, rules.cardType(o.dn))
  {
    if n > 0 {
      MatchesAt(rules, obs, n - 1);
    }
  }

  lemma {:induction false} RejectionsAt(rules: Rules, obs: seq<Observation>, n: nat)
    requires n <= |obs|
    ensures
      var at, rs := DroppedAt(rules, obs, n), RejectedOf(rules, obs, n);
      && |rs| == |at|
      && forall k :: 0 <= k < |at| ==> rs[k] == Rejected(obs[at[k]].dn, FateOf(rules, obs, at[k]).reason)
  {
    if n > 0 {
      RejectionsAt(rules, obs, n - 1);
    }
  }

  function Pick(places: seq<Place>, at: seq<nat>): (picked: seq<Place>)
    requires forall k :: 0 <= k < |at| ==> at[k] < |places|
    ensures |picked| == |at| && forall k :: 0 <= k < |at| ==> picked[k] == places[at[k]]
  {
    seq(|at|, k requires 0 <= k < |at| => places[at[k]])
  }

  /** A place that carries a key is enumerated, and is an offer of that key. */
  lemma CarriedIsOffered(rules: Rules, entries: seq<DirectoryEntry>, obs: seq<Observation>, places: seq<Place>,
                         p: Place, key: Bytes) returns (i: nat)
    requires Enumerates(rules, entries, obs, places) && CarriesKey(rules, entries, p, key)
    ensures i < |obs| && places[i] == p && Offers(rules, obs[i], key)
  {
    assert IsPlace(rules, entries, p);
    i :| 0 <= i < |places| && places[i] == p;
  }

  lemma MatchIsFirst(rules: Rules, entries: seq<DirectoryEntry>, obs: seq<Observation>, places: seq<Place>, i: nat)
    requires Enumerates(rules, entries, obs, places) && i < |obs| && FateOf(rules, obs, i) == Matched
    ensures
      var key := rules.parse(obs[i].der).recipient.key;
      && CarriesKey(rules, entries, places[i], key)
      && forall p :: CarriesKey(rules, entries, p, key) ==> !Earlier(p, places[i])
  {
    var key := rules.parse(obs[i].der).recipient.key;
    forall p | CarriesKey(rules, entries, p, key) ensures !Earlier(p, places[i]) {
      var j := CarriedIsOffered(rules, entries, obs, places, p, key);
      assert !(j < i);
      assert i < j ==> Earlier(places[i], places[j]);
    }
  }

  /** The matches are the first occurrences of their keys, in the order of entries and of certificates within them. */
  lemma MatchesAreFirst(rules: Rules, entries: seq<DirectoryEntry>)
    ensures exists places :: FirstOccurrences(rules, entries, Selected(rules, entries).matches, places)
  {
    var obs := Observations(rules, entries);
    var places := PlacesExist(rules, entries);
    MatchesAt(rules, obs, |obs|);
    var at := MatchedAt(rules, obs, |obs|);
    forall k | 0 <= k < |at|
      ensures
        var key := rules.parse(obs[at[k]].der).recipient.key;
        && CarriesKey(rules, entries, places[at[k]], key)
        && forall p :: CarriesKey(rules, entries, p, key) ==> !Earlier(p, places[at[k]])
    {
      MatchIsFirst(rules, entries, obs, places, at[k]);
    }
    assert FirstOccurrences(rules, entries, Selected(rules, entries).matches, Pick(places, at));
  }

  lemma RefusedIsDropped(rules: Rules, entries: seq<DirectoryEntry>, obs: seq<Observation>, places: seq<Place>, i: nat,
                         reason: Rejection)
    requires Enumerates(rules, entries, obs, places) && i < |obs|
    ensures FateOf(rules, obs, i) == Dropped(reason) <==> RefusedAt(rules, entries, places[i], reason)
    ensures places[i].entry < |entries| && obs[i].dn == entries[places[i].entry].dn
  {
    assert IsPlace(rules, entries, places[i]) && obs[i] == At(rules, entries, places[i]);
  }

  /** Every refused place was dropped, so it is among those picked. */
  lemma RefusedIsPicked(rules: Rules, entries: seq<DirectoryEntry>, obs: seq<Observation>, places: seq<Place>, p: Place,
                        reason: Rejection)
    requires Enumerates(rules, entries, obs, places) && RefusedAt(rules, entries, p, reason)
    ensures p in Pick(places, DroppedAt(rules, obs, |obs|))
  {
    hide FateOf, At;
    assert IsPlace(rules, entries, p);
    var i :| 0 <= i < |places| && places[i] == p;
    RefusedIsDropped(rules, entries, obs, places, i, reason);
    var at := DroppedAt(rules, obs, |obs|);
    var k :| 0 <= k < |at| && at[k] == i;
    assert Pick(places, at)[k] == p;
  }

  /** The rejections are all refused entries and certificates, in that order. */
  lemma RejectionsAreComplete(rules: Rules, entries: seq<DirectoryEntry>)
    ensures exists places :: AllRefusals(rules, entries, Selected(rules, entries).rejected, places)
  {
    hide FateOf, At, RefusedAt, DroppedAt, RejectedOf, MatchesOf, IsPlace;
    var obs := Observations(rules, entries);
    var places := PlacesExist(rules, entries);
    RejectionsAt(rules, obs, |obs|);
    var at, rejected := DroppedAt(rules, obs, |obs|), Selected(rules, entries).rejected;
    var picked := Pick(places, at);
    forall k | 0 <= k < |at|
      ensures RefusedAt(rules, entries, picked[k], rejected[k].reason)
      ensures picked[k].entry < |entries| && rejected[k].dn == entries[picked[k].entry].dn
    {
      RefusedIsDropped(rules, entries, obs, places, at[k], rejected[k].reason);
    }
    forall p, reason | RefusedAt(rules, entries, p, reason) ensures p in picked {
      RefusedIsPicked(rules, entries, obs, places, p, reason);
    }
    assert AllRefusals(rules, entries, rejected, picked);
  }
}
