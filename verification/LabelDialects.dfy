/** The two label dialects for eID recipients and the reader that shows both (crates/umbrik-core/src/keylabel.rs). */
module LabelDialects {
  import opened Basics
  import opened Splitting
  import opened Utf8
  import opened KeyLabel

  // ----- keys, in the upper case of the reference CLI and the lower case of libcdoc -----

  const V: Bytes := Ascii("V")
  const TYPE: Bytes := Ascii("TYPE")
  const CN: Bytes := Ascii("CN")
  const LABEL: Bytes := Ascii("LABEL")
  const FILE: Bytes := Ascii("FILE")
  const SERIAL_NUMBER: Bytes := Ascii("SERIAL_NUMBER")
  const FIRST_NAME: Bytes := Ascii("FIRST_NAME")
  const LAST_NAME: Bytes := Ascii("LAST_NAME")
  const CERT_SHA1: Bytes := Ascii("CERT_SHA1")

  const LOWER_V: Bytes := Ascii("v")
  const LOWER_TYPE: Bytes := Ascii("type")
  const LOWER_CN: Bytes := Ascii("cn")
  const LOWER_LABEL: Bytes := Ascii("label")
  const LOWER_FILE: Bytes := Ascii("file")
  const LOWER_SERIAL_NUMBER: Bytes := Ascii("serial_number")
  const LOWER_FIRST_NAME: Bytes := Ascii("first_name")
  const LOWER_LAST_NAME: Bytes := Ascii("last_name")
  const SERVER_EXP: Bytes := Ascii("server_exp")

  const VERSION: Bytes := Ascii("1")

  /** Keys told apart by their length and first byte; no key holds a separator. */
  lemma {:induction false} KeyShapes()
    ensures |V| == 1 && |TYPE| == 4 && |CN| == 2 && |LABEL| == 5 && |FILE| == 4 && |SERIAL_NUMBER| == 13
    ensures |FIRST_NAME| == 10 && |LAST_NAME| == 9 && |SERVER_EXP| == 10 && |CERT_SHA1| == 9
    ensures |LOWER_V| == 1 && |LOWER_TYPE| == 4 && |LOWER_CN| == 2 && |LOWER_LABEL| == 5 && |LOWER_FILE| == 4
    ensures |LOWER_SERIAL_NUMBER| == 13 && |LOWER_FIRST_NAME| == 10 && |LOWER_LAST_NAME| == 9
    ensures TYPE[0] == 0x54 && FILE[0] == 0x46 && CN[0] == 0x43 && LABEL[0] == 0x4C && SERIAL_NUMBER[0] == 0x53
    ensures V[0] == 0x56 && FIRST_NAME[0] == 0x46 && LAST_NAME[0] == 0x4C && CERT_SHA1[0] == 0x43
    ensures LOWER_TYPE[0] == 0x74 && LOWER_FILE[0] == 0x66 && LOWER_CN[0] == 0x63 && LOWER_LABEL[0] == 0x6C
    ensures LOWER_SERIAL_NUMBER[0] == 0x73 && LOWER_V[0] == 0x76 && LOWER_FIRST_NAME[0] == 0x66
    ensures LOWER_LAST_NAME[0] == 0x6C && SERVER_EXP[0] == 0x73
  {
  }

  /** Letters, digits and underscores only. */
  predicate Wordlike(s: string) {
    forall i :: 0 <= i < |s| ==> 'A' <= s[i] <= 'Z' || 'a' <= s[i] <= 'z' || '0' <= s[i] <= '9' || s[i] == '_'
  }

  lemma WordlikeIsPlain(s: string)
    requires Wordlike(s)
    ensures Plain(Ascii(s))
  {
    forall i | 0 <= i < |s| ensures Ascii(s)[i] != AMPERSAND && Ascii(s)[i] != EQUALS {
      assert 'A' <= s[i] <= 'Z' || 'a' <= s[i] <= 'z' || '0' <= s[i] <= '9' || s[i] == '_';
    }
  }

  lemma UpperKeysPlain()
    ensures Plain(V) && Plain(TYPE) && Plain(CN) && Plain(SERIAL_NUMBER) && Plain(FIRST_NAME) && Plain(LAST_NAME)
    ensures Plain(LABEL) && Plain(FILE) && Plain(CERT_SHA1)
  {
    hide Plain;
    WordlikeIsPlain("LABEL");
    WordlikeIsPlain("FILE");
    WordlikeIsPlain("CERT_SHA1");
    WordlikeIsPlain("V");
    WordlikeIsPlain("TYPE");
    WordlikeIsPlain("CN");
    WordlikeIsPlain("SERIAL_NUMBER");
    WordlikeIsPlain("FIRST_NAME");
    WordlikeIsPlain("LAST_NAME");
  }

  lemma LowerKeysPlain()
    ensures Plain(LOWER_V) && Plain(LOWER_TYPE) && Plain(LOWER_CN) && Plain(LOWER_SERIAL_NUMBER)
    ensures Plain(LOWER_FIRST_NAME) && Plain(LOWER_LAST_NAME) && Plain(SERVER_EXP)
  {
    hide Plain;
    WordlikeIsPlain("v");
    WordlikeIsPlain("type");
    WordlikeIsPlain("cn");
    WordlikeIsPlain("serial_number");
    WordlikeIsPlain("first_name");
    WordlikeIsPlain("last_name");
    WordlikeIsPlain("server_exp");
  }

  // ----- writers -----

  /** `LASTNAME,FIRSTNAME,...` split into (last, first), or nothing when it has another shape. */
  function SplitCommonName(commonName: Bytes): Option<(Bytes, Bytes)> {
    var parts := Split(commonName, COMMA);
    if |parts| >= 2 && parts[0] != [] && parts[1] != [] then Some((parts[0], parts[1])) else None
  }

  /** `KeyLabel::with`: empty values are dropped. */
  function With(params: seq<Pair>, key: Bytes, value: Bytes): seq<Pair> {
    if value == [] then params else Insert(params, key, value)
  }

  function WithOpt(params: seq<Pair>, key: Bytes, value: Option<Bytes>): seq<Pair> {
    if value.Some? then With(params, key, value.value) else params
  }

  /** `KeyLabel::new`. */
  function New(labelType: Bytes): seq<Pair> {
    Insert(Insert([], V, VERSION), TYPE, labelType)
  }

  /** `password` and `secret`, told apart by their type. */
  function NamedParams(labelType: Bytes, name: Bytes): seq<Pair> {
    With(New(labelType), LABEL, name)
  }

  function PasswordLabel(name: Bytes): Bytes {
    Render(NamedParams(Ascii("pw"), name))
  }

  function SecretLabel(name: Bytes): Bytes {
    Render(NamedParams(Ascii("secret"), name))
  }

  /** The parameters of `certificate`; those of `public_key` lack the first two. */
  function FileParams(labelType: Bytes, commonName: Option<Bytes>, sha1: Option<Bytes>, file: Option<Bytes>): seq<Pair>
  {
    WithOpt(WithOpt(WithOpt(New(labelType), CN, commonName), CERT_SHA1, sha1), FILE, file)
  }

  function CertificateLabel(commonName: Option<Bytes>, sha1: Option<Bytes>, file: Option<Bytes>): Bytes {
    Render(FileParams(Ascii("cert"), commonName, sha1, file))
  }

  function PublicKeyLabel(file: Option<Bytes>): Bytes {
    Render(FileParams(Ascii("pub_key"), None, None, file))
  }

  /** The sorted parameters of `eid`. */
  function EidParams(cardType: Bytes, commonName: Bytes, serialNumber: Option<Bytes>): seq<Pair> {
    var names := SplitCommonName(commonName);
    var p0 := New(cardType);
    var p1 := WithOpt(With(p0, CN, commonName), SERIAL_NUMBER, serialNumber);
    var p2 := WithOpt(p1, FIRST_NAME, if names.Some? then Some(names.value.1) else None);
    WithOpt(p2, LAST_NAME, if names.Some? then Some(names.value.0) else None)
  }

  function Eid(cardType: Bytes, commonName: Bytes, serialNumber: Option<Bytes>): Bytes {
    Render(EidParams(cardType, commonName, serialNumber))
  }

  function Optional(key: Bytes, value: Option<Bytes>): seq<Pair> {
    if value.Some? then [(key, value.value)] else []
  }

  /** The parameters of `eid_digidoc`, in insertion order; the expiry is given as its decimal text. */
  function DigidocParams(cardType: Bytes, commonName: Bytes, serialNumber: Option<Bytes>,
                         notAfter: Option<Bytes>): seq<Pair> {
    var names := SplitCommonName(commonName);
    [(LOWER_V, VERSION), (LOWER_CN, commonName)]
    + Optional(LOWER_FIRST_NAME, if names.Some? then Some(names.value.1) else None)
    + Optional(LOWER_LAST_NAME, if names.Some? then Some(names.value.0) else None)
    + Optional(LOWER_SERIAL_NUMBER, serialNumber)
    + [(LOWER_TYPE, cardType)]
    + Optional(SERVER_EXP, notAfter)
  }

  function EidDigidoc(cardType: Bytes, commonName: Bytes, serialNumber: Option<Bytes>, notAfter: Option<Bytes>): Bytes {
    Render(DigidocParams(cardType, commonName, serialNumber, notAfter))
  }

  // ----- the reader -----

  function OrElse(a: Option<Bytes>, b: Option<Bytes>): Option<Bytes> {
    if a.Some? then a else b
  }

  function Get(params: seq<Pair>, upper: Bytes, lower: Bytes): Option<Bytes> {
    OrElse(Lookup(params, upper), Lookup(params, lower))
  }

  /** The most identifying field available. */
  function BestName(params: seq<Pair>): Option<Bytes> {
    OrElse(Get(params, CN, LOWER_CN),
    OrElse(Get(params, LABEL, LOWER_LABEL),
    OrElse(Get(params, FILE, LOWER_FILE), Get(params, SERIAL_NUMBER, LOWER_SERIAL_NUMBER))))
  }

  function WithType(name: Bytes, cardType: Bytes): Bytes {
    name + Ascii(" (") + cardType + Ascii(")")
  }

  function Display(keyLabel: Bytes): Bytes {
    match Parse(keyLabel)
    case None => keyLabel
    case Some(params) =>
      match (BestName(params), Get(params, TYPE, LOWER_TYPE))
      case (Some(name), Some(cardType)) => WithType(name, cardType)
      case (Some(name), None) => name
      case (None, Some(cardType)) => Ascii("(") + cardType + Ascii(")")
      case (None, None) => keyLabel
  }

  // ----- both dialects render alike -----

  lemma LookupAfterWith(params: seq<Pair>, key: Bytes, value: Option<Bytes>, q: Bytes)
    ensures Lookup(WithOpt(params, key, value), q)
         == if q == key && value.Some? && value.value != [] then value else Lookup(params, q)
  {
    if value.Some? && value.value != [] {
      LookupAfterInsert(params, key, value.value, q);
    }
  }

  lemma LookupNew(labelType: Bytes, q: Bytes)
    ensures Lookup(New(labelType), q) == if q == TYPE then Some(labelType) else if q == V then Some(VERSION) else None
  {
    LookupAfterInsert([], V, VERSION, q);
    LookupAfterInsert(Insert([], V, VERSION), TYPE, labelType, q);
  }

  /** Every field of the sorted dialect; the two names only when the common name splits into them. */
  lemma EidLookup(cardType: Bytes, commonName: Bytes, serialNumber: Option<Bytes>, q: Bytes)
    ensures Lookup(EidParams(cardType, commonName, serialNumber), q) ==
      if q == SERIAL_NUMBER && serialNumber.Some? && serialNumber.value != [] then serialNumber
      else if q == CN && commonName != [] then Some(commonName)
      else if q == TYPE then Some(cardType)
      else if q == V then Some(VERSION)
      else if q == FIRST_NAME && SplitCommonName(commonName).Some? then Some(SplitCommonName(commonName).value.1)
      else if q == LAST_NAME && SplitCommonName(commonName).Some? then Some(SplitCommonName(commonName).value.0)
      else None
  {
    hide New, Lookup;
    KeyShapes();
    var names := SplitCommonName(commonName);
    LookupNew(cardType, q);
    var pc := With(New(cardType), CN, commonName);
    LookupAfterWith(New(cardType), CN, Some(commonName), q);
    var p1 := WithOpt(pc, SERIAL_NUMBER, serialNumber);
    LookupAfterWith(pc, SERIAL_NUMBER, serialNumber, q);
    var first := if names.Some? then Some(names.value.1) else None;
    var last := if names.Some? then Some(names.value.0) else None;
    LookupAfterWith(p1, FIRST_NAME, first, q);
    LookupAfterWith(WithOpt(p1, FIRST_NAME, first), LAST_NAME, last, q);
  }

  lemma WithKeeps(params: seq<Pair>, key: Bytes, value: Option<Bytes>)
    requires Sorted(params) && PlainKeys(params) && Plain(key)
    ensures Sorted(WithOpt(params, key, value)) && PlainKeys(WithOpt(params, key, value))
  {
    if value.Some? && value.value != [] {
      InsertKeepsSorted(params, key, value.value);
      InsertKeepsPlain(params, key, value.value);
    }
  }

  lemma NewWellFormed(labelType: Bytes)
    ensures Sorted(New(labelType)) && PlainKeys(New(labelType))
  {
    UpperKeysPlain();
    InsertKeepsSorted(Insert([], V, VERSION), TYPE, labelType);
    InsertKeepsPlain(Insert([], V, VERSION), TYPE, labelType);
  }

  lemma EidParamsWellFormed(cardType: Bytes, commonName: Bytes, serialNumber: Option<Bytes>)
    ensures var params := EidParams(cardType, commonName, serialNumber); Sorted(params) && PlainKeys(params)
  {
    UpperKeysPlain();
    var names := SplitCommonName(commonName);
    var p0 := New(cardType);
    NewWellFormed(cardType);
    var pc := With(p0, CN, commonName);
    WithKeeps(p0, CN, Some(commonName));
    var p1 := WithOpt(pc, SERIAL_NUMBER, serialNumber);
    WithKeeps(pc, SERIAL_NUMBER, serialNumber);
    var first := if names.Some? then Some(names.value.1) else None;
    var last := if names.Some? then Some(names.value.0) else None;
    WithKeeps(p1, FIRST_NAME, first);
    WithKeeps(WithOpt(p1, FIRST_NAME, first), LAST_NAME, last);
  }

  function CleanedOption(value: Option<Bytes>): Option<Bytes> {
    if value.Some? then Some(Lossy(value.value)) else None
  }

  lemma {:induction false} LookupCleaned(params: seq<Pair>, q: Bytes)
    ensures Lookup(Cleaned(params), q) == CleanedOption(Lookup(params, q))
  {
    if params != [] {
      LookupCleaned(params[1..], q);
      assert Cleaned(params)[1..] == Cleaned(params[1..]);
    }
  }

  /** Text the reader shows for the sorted dialect, field by field. */
  lemma ParsedEid(cardType: Bytes, commonName: Bytes, serialNumber: Option<Bytes>)
    ensures Parse(Eid(cardType, commonName, serialNumber))
         == Some(Cleaned(EidParams(cardType, commonName, serialNumber)))
  {
    var params := EidParams(cardType, commonName, serialNumber);
    EidParamsWellFormed(cardType, commonName, serialNumber);
    ParseInvertsRender(params);
    assert Sorted(Cleaned(params));
    InsertAllSorted(Cleaned(params));
  }

  /** The value a key ends up with when pairs are inserted in order: the last one given. */
  lemma LookupSnoc(params: seq<Pair>, p: Pair, q: Bytes)
    ensures Lookup(InsertAll(params + [p]), q) == if q == p.0 then Some(p.1) else Lookup(InsertAll(params), q)
  {
    assert (params + [p])[..|params|] == params;
    LookupAfterInsert(InsertAll(params), p.0, p.1, q);
  }

  lemma CleanedSnoc(params: seq<Pair>, p: Pair)
    ensures Cleaned(params + [p]) == Cleaned(params) + [(p.0, Lossy(p.1))]
  {
  }

  lemma LookupOptional(params: seq<Pair>, key: Bytes, value: Option<Bytes>, q: Bytes)
    requires q != key
    ensures Lookup(InsertAll(Cleaned(params + Optional(key, value))), q) == Lookup(InsertAll(Cleaned(params)), q)
  {
    if value.Some? {
      CleanedSnoc(params, (key, value.value));
      LookupSnoc(Cleaned(params), (key, Lossy(value.value)), q);
    } else {
      assert params + [] == params;
    }
  }

  lemma DigidocStart(commonName: Bytes, q: Bytes)
    requires q != LOWER_V
    ensures Lookup(InsertAll(Cleaned([(LOWER_V, VERSION), (LOWER_CN, commonName)])), q)
         == if q == LOWER_CN then Some(Lossy(commonName)) else None
  {
    var p0: seq<Pair> := [(LOWER_V, VERSION)];
    assert Cleaned(p0) == [(LOWER_V, Lossy(VERSION))] && Cleaned(p0)[..0] == [];
    CleanedSnoc(p0, (LOWER_CN, commonName));
    LookupSnoc(Cleaned(p0), (LOWER_CN, Lossy(commonName)), q);
    assert p0 + [(LOWER_CN, commonName)] == [(LOWER_V, VERSION), (LOWER_CN, commonName)];
  }

  /** The fields the reader looks for, in the insertion-ordered dialect. */
  lemma DigidocLookup(cardType: Bytes, commonName: Bytes, serialNumber: Option<Bytes>, notAfter: Option<Bytes>,
                      q: Bytes)
    requires q == CN || q == LOWER_CN || q == TYPE || q == LOWER_TYPE
    ensures Lookup(InsertAll(Cleaned(DigidocParams(cardType, commonName, serialNumber, notAfter))), q) ==
      if q == LOWER_CN then Some(Lossy(commonName)) else if q == LOWER_TYPE then Some(Lossy(cardType)) else None
  {
    hide Lookup, InsertAll, Cleaned, Optional, SplitCommonName;
    KeyShapes();
    var names := SplitCommonName(commonName);
    var first := if names.Some? then Some(names.value.1) else None;
    var last := if names.Some? then Some(names.value.0) else None;
    var p1 := [(LOWER_V, VERSION), (LOWER_CN, commonName)];
    DigidocStart(commonName, q);
    LookupOptional(p1, LOWER_FIRST_NAME, first, q);
    var p2 := p1 + Optional(LOWER_FIRST_NAME, first);
    LookupOptional(p2, LOWER_LAST_NAME, last, q);
    var p3 := p2 + Optional(LOWER_LAST_NAME, last);
    LookupOptional(p3, LOWER_SERIAL_NUMBER, serialNumber, q);
    var p4 := p3 + Optional(LOWER_SERIAL_NUMBER, serialNumber);
    CleanedSnoc(p4, (LOWER_TYPE, cardType));
    LookupSnoc(Cleaned(p4), (LOWER_TYPE, Lossy(cardType)), q);
    LookupOptional(p4 + [(LOWER_TYPE, cardType)], SERVER_EXP, notAfter, q);
  }

  lemma DigidocParamsPlain(cardType: Bytes, commonName: Bytes, serialNumber: Option<Bytes>, notAfter: Option<Bytes>)
    ensures PlainKeys(DigidocParams(cardType, commonName, serialNumber, notAfter))
  {
    LowerKeysPlain();
  }

  /** The libcdoc dialect always shows the name with its type, even an empty name. */
  lemma DigidocDisplays(cardType: Bytes, commonName: Bytes, serialNumber: Option<Bytes>, notAfter: Option<Bytes>)
    requires Valid(cardType) && Valid(commonName)
    ensures Display(EidDigidoc(cardType, commonName, serialNumber, notAfter)) == WithType(commonName, cardType)
  {
    hide Lookup, InsertAll, Cleaned, DigidocParams, Render, Parse;
    var params := DigidocParams(cardType, commonName, serialNumber, notAfter);
    DigidocParamsPlain(cardType, commonName, serialNumber, notAfter);
    ParseInvertsRender(params);
    KeyShapes();
    DigidocLookup(cardType, commonName, serialNumber, notAfter, CN);
    DigidocLookup(cardType, commonName, serialNumber, notAfter, LOWER_CN);
    DigidocLookup(cardType, commonName, serialNumber, notAfter, TYPE);
    DigidocLookup(cardType, commonName, serialNumber, notAfter, LOWER_TYPE);
    LossyKeepsValid(commonName);
    LossyKeepsValid(cardType);
  }

  lemma EidField(cardType: Bytes, commonName: Bytes, serialNumber: Option<Bytes>, q: Bytes)
    requires q != V && q != FIRST_NAME && q != LAST_NAME
    requires Valid(cardType) && Valid(commonName) && (serialNumber.Some? ==> Valid(serialNumber.value))
    ensures Lookup(Cleaned(EidParams(cardType, commonName, serialNumber)), q) ==
      if q == SERIAL_NUMBER && serialNumber.Some? && serialNumber.value != [] then serialNumber
      else if q == CN && commonName != [] then Some(commonName)
      else if q == TYPE then Some(cardType)
      else None
  {
    LookupCleaned(EidParams(cardType, commonName, serialNumber), q);
    EidLookup(cardType, commonName, serialNumber, q);
    LossyKeepsValid(cardType);
    LossyKeepsValid(commonName);
    if serialNumber.Some? {
      LossyKeepsValid(serialNumber.value);
    }
  }

  /** The reference dialect shows the name with its type exactly when there is a name: an empty one is not written. */
  lemma {:induction false} EidDisplaysIff(cardType: Bytes, commonName: Bytes, serialNumber: Option<Bytes>)
    requires Valid(cardType) && Valid(commonName) && (serialNumber.Some? ==> Valid(serialNumber.value))
    ensures Display(Eid(cardType, commonName, serialNumber)) == WithType(commonName, cardType) <==> commonName != []
  {
    hide Lookup, Cleaned, EidParams, Parse;
    ParsedEid(cardType, commonName, serialNumber);
    KeyShapes();
    EidField(cardType, commonName, serialNumber, CN);
    EidField(cardType, commonName, serialNumber, LOWER_CN);
    EidField(cardType, commonName, serialNumber, TYPE);
    EidField(cardType, commonName, serialNumber, LOWER_TYPE);
    EidField(cardType, commonName, serialNumber, LABEL);
    EidField(cardType, commonName, serialNumber, LOWER_LABEL);
    EidField(cardType, commonName, serialNumber, FILE);
    EidField(cardType, commonName, serialNumber, LOWER_FILE);
    EidField(cardType, commonName, serialNumber, SERIAL_NUMBER);
    EidField(cardType, commonName, serialNumber, LOWER_SERIAL_NUMBER);
    var shown := Display(Eid(cardType, commonName, serialNumber));
    if commonName == [] {
      assert |shown| != |WithType(commonName, cardType)|;
    }
  }

  // ----- what is shown, for every label -----

  /** Where a name is looked for, most identifying first, each in upper case before lower. */
  const NAME_KEYS: seq<Bytes> := [
    Ascii("CN"), Ascii("cn"), Ascii("LABEL"), Ascii("label"), Ascii("FILE"), Ascii("file"),
    Ascii("SERIAL_NUMBER"), Ascii("serial_number")]

  const TYPE_KEYS: seq<Bytes> := [Ascii("TYPE"), Ascii("type")]

  /** The value of the first key in the list that has one. */
  function FirstValue(params: seq<Pair>, keys: seq<Bytes>): (v: Option<Bytes>)
    ensures v.None? <==> forall i :: 0 <= i < |keys| ==> Lookup(params, keys[i]).None?
  {
    if keys == [] then None
    else if Lookup(params, keys[0]).Some? then Lookup(params, keys[0])
    else FirstValue(params, keys[1..])
  }

  lemma {:induction false} FirstValueIs(params: seq<Pair>, keys: seq<Bytes>, i: nat)
    requires i < |keys| && Lookup(params, keys[i]).Some? && forall k :: 0 <= k < i ==> Lookup(params, keys[k]).None?
    ensures FirstValue(params, keys) == Lookup(params, keys[i])
  {
    if i > 0 {
      FirstValueIs(params, keys[1..], i - 1);
    }
  }

  lemma FirstValuePair(params: seq<Pair>, upper: Bytes, lower: Bytes, rest: seq<Bytes>)
    ensures FirstValue(params, [upper, lower] + rest) == OrElse(Get(params, upper, lower), FirstValue(params, rest))
  {
    hide Lookup;
    assert ([upper, lower] + rest)[1..] == [lower] + rest && ([lower] + rest)[1..] == rest;
  }

  lemma BestNameIsFirst(params: seq<Pair>)
    ensures BestName(params) == FirstValue(params, NAME_KEYS)
    ensures Get(params, TYPE, LOWER_TYPE) == FirstValue(params, TYPE_KEYS)
  {
    hide Lookup, Get;
    var k3 := [SERIAL_NUMBER, LOWER_SERIAL_NUMBER] + [];
    var k2 := [FILE, LOWER_FILE] + k3;
    var k1 := [LABEL, LOWER_LABEL] + k2;
    assert NAME_KEYS == [CN, LOWER_CN] + k1;
    FirstValuePair(params, CN, LOWER_CN, k1);
    FirstValuePair(params, LABEL, LOWER_LABEL, k2);
    FirstValuePair(params, FILE, LOWER_FILE, k3);
    FirstValuePair(params, SERIAL_NUMBER, LOWER_SERIAL_NUMBER, []);
    FirstValuePair(params, TYPE, LOWER_TYPE, []);
    assert TYPE_KEYS == [TYPE, LOWER_TYPE] + [];
  }

  /**
   What is shown for any label whatever: one that does not parse, or names neither a holder nor a type, is shown as it
   is; otherwise the first name present, the type in parentheses behind it, or either alone.
   */
  lemma DisplayExplained(keyLabel: Bytes)
    ensures Display(keyLabel) ==
      if Parse(keyLabel).None? then keyLabel
      else
        match (FirstValue(Parse(keyLabel).value, NAME_KEYS), FirstValue(Parse(keyLabel).value, TYPE_KEYS)) {
          case (None, None) => keyLabel
          case (Some(name), None) => name
          case (None, Some(labelType)) => Ascii("(") + labelType + Ascii(")")
          case (Some(name), Some(labelType)) => name + Ascii(" (") + labelType + Ascii(")")
        }
  {
    hide Parse, BestName, FirstValue;
    if Parse(keyLabel).Some? {
      BestNameIsFirst(Parse(keyLabel).value);
    }
  }

  /** A label without the `data:,` prefix, as older containers have them, is shown verbatim. */
  lemma PlainLabelShown(keyLabel: Bytes)
    requires !(Ascii("data:,") <= keyLabel)
    ensures Display(keyLabel) == keyLabel
  {
    ParseNoneIff(keyLabel);
  }

  // ----- the shorthand labels -----

  /** The name, if there is one, and the type. */
  function Shown(name: Bytes, labelType: Bytes): Bytes {
    (if name == [] then [] else name + Ascii(" ")) + Ascii("(") + labelType + Ascii(")")
  }

  /** Values from `params` survive being written and read, so what is shown is told from `params`. */
  lemma RenderedDisplays(params: seq<Pair>)
    requires Sorted(params) && PlainKeys(params) && ValidValues(params)
    requires Lookup(params, TYPE).Some? && Lookup(params, TYPE).value != []
    requires forall key :: key != TYPE && Lookup(params, key).Some? ==> Lookup(params, key).value != []
    ensures Display(Render(params)) ==
      var name := BestName(params);
      Shown(if name.Some? then name.value else [], Lookup(params, TYPE).value)
  {
    hide Lookup, Parse, Render, Sorted, PlainKeys, ValidValues;
    LabelRoundTripIff(params);
    var t := Lookup(params, TYPE).value;
    assert Ascii("(") + t + Ascii(")") == [] + Ascii("(") + t + Ascii(")");
    assert Ascii(" (") == Ascii(" ") + Ascii("(");
    KeyShapes();
    var name := BestName(params);
    if name.Some? {
      assert name.value + (Ascii(" ") + Ascii("(")) + t + Ascii(")")
          == name.value + Ascii(" ") + Ascii("(") + t + Ascii(")");
    }
  }

  lemma WithKeepsValid(params: seq<Pair>, key: Bytes, value: Option<Bytes>)
    requires ValidValues(params) && (value.Some? ==> Valid(value.value))
    ensures ValidValues(WithOpt(params, key, value))
  {
    if value.Some? && value.value != [] {
      InsertKeys(params, key, value.value);
      var r := Insert(params, key, value.value);
      forall i | 0 <= i < |r| ensures Valid(r[i].1) {
        assert r[i] in r;
      }
    }
  }

  lemma NewIsValid(labelType: Bytes)
    requires Valid(labelType)
    ensures ValidValues(New(labelType))
  {
    assert VERSION == [0x31] && [0x31][1..] == [];
    assert Valid([0x31]);
    WithKeepsValid([], V, Some(VERSION));
    if labelType != [] {
      WithKeepsValid(Insert([], V, VERSION), TYPE, Some(labelType));
    } else {
      InsertKeys(Insert([], V, VERSION), TYPE, []);
      var r := New(labelType);
      forall i | 0 <= i < |r| ensures Valid(r[i].1) {
        assert r[i] in r;
      }
    }
  }

  function Text(value: Option<Bytes>): Bytes {
    if value.Some? then value.value else []
  }

  /** A password or shared-key label shows its name and its type, or the type alone. */
  lemma NamedDisplays(labelType: Bytes, name: Bytes)
    requires Valid(labelType) && labelType != [] && Valid(name)
    ensures Display(Render(NamedParams(labelType, name))) == Shown(name, labelType)
  {
    hide Lookup, Sorted, PlainKeys, ValidValues, Display, Render, New, WithOpt;
    KeyShapes();
    UpperKeysPlain();
    NewWellFormed(labelType);
    NewIsValid(labelType);
    var params := WithOpt(New(labelType), LABEL, Some(name));
    assert params == NamedParams(labelType, name) by { WithOptSome(New(labelType), LABEL, name); }
    WithKeeps(New(labelType), LABEL, Some(name));
    WithKeepsValid(New(labelType), LABEL, Some(name));
    forall q ensures Lookup(params, q) ==
      if q == LABEL && name != [] then Some(name) else if q == TYPE then Some(labelType)
      else if q == V then Some(VERSION) else None
    {
      LookupNew(labelType, q);
      LookupAfterWith(New(labelType), LABEL, Some(name), q);
    }
    RenderedDisplays(params);
  }

  lemma WithOptSome(params: seq<Pair>, key: Bytes, value: Bytes)
    ensures WithOpt(params, key, Some(value)) == With(params, key, value)
  {
  }

  lemma FileLookup(labelType: Bytes, commonName: Option<Bytes>, sha1: Option<Bytes>, file: Option<Bytes>, q: Bytes)
    ensures Lookup(FileParams(labelType, commonName, sha1, file), q) ==
      if q == FILE && Text(file) != [] then file else if q == CERT_SHA1 && Text(sha1) != [] then sha1
      else if q == CN && Text(commonName) != [] then commonName
      else if q == TYPE then Some(labelType) else if q == V then Some(VERSION) else None
  {
    hide Lookup, New, WithOpt;
    KeyShapes();
    var p1 := WithOpt(New(labelType), CN, commonName);
    LookupNew(labelType, q);
    LookupAfterWith(New(labelType), CN, commonName, q);
    LookupAfterWith(p1, CERT_SHA1, sha1, q);
    LookupAfterWith(WithOpt(p1, CERT_SHA1, sha1), FILE, file, q);
  }

  lemma FileParamsWellFormed(labelType: Bytes, commonName: Option<Bytes>, sha1: Option<Bytes>, file: Option<Bytes>)
    requires Valid(labelType) && Valid(Text(commonName)) && Valid(Text(sha1)) && Valid(Text(file))
    ensures
      var params := FileParams(labelType, commonName, sha1, file);
      Sorted(params) && PlainKeys(params) && ValidValues(params)
  {
    hide Sorted, PlainKeys, ValidValues, New, WithOpt, Plain, Valid;
    UpperKeysPlain();
    NewWellFormed(labelType);
    NewIsValid(labelType);
    var p1 := WithOpt(New(labelType), CN, commonName);
    WithKeeps(New(labelType), CN, commonName);
    WithKeepsValid(New(labelType), CN, commonName);
    var p2 := WithOpt(p1, CERT_SHA1, sha1);
    WithKeeps(p1, CERT_SHA1, sha1);
    WithKeepsValid(p1, CERT_SHA1, sha1);
    WithKeeps(p2, FILE, file);
    WithKeepsValid(p2, FILE, file);
  }

  /** A certificate label shows the common name or else the file, whichever is there, and its type. */
  lemma FileDisplays(labelType: Bytes, commonName: Option<Bytes>, sha1: Option<Bytes>, file: Option<Bytes>)
    requires Valid(labelType) && labelType != []
    requires Valid(Text(commonName)) && Valid(Text(sha1)) && Valid(Text(file))
    ensures Display(Render(FileParams(labelType, commonName, sha1, file)))
         == Shown(if Text(commonName) != [] then Text(commonName) else Text(file), labelType)
  {
    hide Lookup, Sorted, PlainKeys, ValidValues, Display, Render, FileParams, Valid, Shown;
    KeyShapes();
    var params := FileParams(labelType, commonName, sha1, file);
    FileParamsWellFormed(labelType, commonName, sha1, file);
    forall q ensures Lookup(params, q) ==
      if q == FILE && Text(file) != [] then file else if q == CERT_SHA1 && Text(sha1) != [] then sha1
      else if q == CN && Text(commonName) != [] then commonName
      else if q == TYPE then Some(labelType) else if q == V then Some(VERSION) else None
    {
      FileLookup(labelType, commonName, sha1, file, q);
    }
    RenderedDisplays(params);
  }

  /** What the four shorthands show. */
  lemma ShorthandsDisplay(name: Bytes, commonName: Option<Bytes>, sha1: Option<Bytes>, file: Option<Bytes>)
    requires Valid(name) && Valid(Text(commonName)) && Valid(Text(sha1)) && Valid(Text(file))
    ensures Display(PasswordLabel(name)) == Shown(name, Ascii("pw"))
    ensures Display(SecretLabel(name)) == Shown(name, Ascii("secret"))
    ensures Display(CertificateLabel(commonName, sha1, file))
         == Shown(if Text(commonName) != [] then Text(commonName) else Text(file), Ascii("cert"))
    ensures Display(PublicKeyLabel(file)) == Shown(Text(file), Ascii("pub_key"))
  {
    hide Display, Render, NamedParams, FileParams, Valid, Shown;
    assert Ascii("") == [];
    AsciiIsValid("");
    AsciiIsValid("pw");
    AsciiIsValid("secret");
    AsciiIsValid("cert");
    AsciiIsValid("pub_key");
    NamedDisplays(Ascii("pw"), name);
    NamedDisplays(Ascii("secret"), name);
    FileDisplays(Ascii("cert"), commonName, sha1, file);
    FileDisplays(Ascii("pub_key"), None, None, file);
  }

  lemma {:induction false} AsciiIsValid(s: string)
    requires forall i :: 0 <= i < |s| ==> s[i] as int < 128
    ensures Valid(Ascii(s))
  {
    if s != [] {
      AsciiIsValid(s[1..]);
      assert Ascii(s)[1..] == Ascii(s[1..]);
    }
  }

  /** A field that is written when there is something to write. */
  function Field(key: string, value: Bytes): seq<Pair> {
    if value == [] then [] else [(Ascii(key), value)]
  }

  /** The keys of the sorted labels, in their order. */
  lemma KeysInOrder()
    ensures Less(CERT_SHA1, CN) && Less(CN, FILE) && Less(CN, FIRST_NAME) && Less(FILE, TYPE)
    ensures Less(FIRST_NAME, LAST_NAME) && Less(LAST_NAME, SERIAL_NUMBER) && Less(LABEL, TYPE)
    ensures Less(SERIAL_NUMBER, TYPE) && Less(TYPE, V)
  {
    KeyShapes();
    assert CERT_SHA1[1] == 0x45 && CN[1] == 0x4E;
    assert Less(CERT_SHA1[1..], CN[1..]);
  }

  lemma {:induction false} LookupConcat(a: seq<Pair>, b: seq<Pair>, q: Bytes)
    ensures Lookup(a + b, q) == OrElse(Lookup(a, q), Lookup(b, q))
  {
    if a == [] {
      assert a + b == b;
    } else {
      assert (a + b)[1..] == a[1..] + b;
      LookupConcat(a[1..], b, q);
    }
  }

  /** The end of every sorted label. */
  function Tail(labelType: Bytes): seq<Pair> {
    [(Ascii("TYPE"), labelType), (Ascii("V"), Ascii("1"))]
  }

  lemma LookupTail(labelType: Bytes, q: Bytes)
    ensures Lookup(Tail(labelType), q) == Lookup(New(labelType), q)
  {
    LookupNew(labelType, q);
    var rest: seq<Pair> := [(V, VERSION)];
    assert Tail(labelType)[1..] == rest && rest[1..] == [];
  }

  lemma LookupField(key: string, value: Bytes, q: Bytes)
    ensures Lookup(Field(key, value), q) == if q == Ascii(key) && value != [] then Some(value) else None
  {
    var one: seq<Pair> := [(Ascii(key), value)];
    assert one[1..] == [];
  }

  /** The parameters of password and secret labels, in the order they are written. */
  lemma NamedWritten(labelType: Bytes, name: Bytes)
    ensures NamedParams(labelType, name) == Field("LABEL", name) + Tail(labelType)
  {
    hide Lookup, Less, New, WithOpt;
    KeyShapes();
    UpperKeysPlain();
    KeysInOrder();
    var params, written := NamedParams(labelType, name), Field("LABEL", name) + Tail(labelType);
    NewWellFormed(labelType);
    WithOptSome(New(labelType), LABEL, name);
    WithKeeps(New(labelType), LABEL, Some(name));
    LessIsStrictOrder(LABEL, TYPE, V);
    assert Sorted(written);
    forall q ensures Lookup(params, q) == Lookup(written, q) {
      LookupAfterWith(New(labelType), LABEL, Some(name), q);
      LookupConcat(Field("LABEL", name), Tail(labelType), q);
      LookupField("LABEL", name, q);
      LookupTail(labelType, q);
    }
    SortedIsDetermined(params, written);
  }

  function FileFields(commonName: Bytes, sha1: Bytes, file: Bytes): seq<Pair> {
    Field("CERT_SHA1", sha1) + Field("CN", commonName) + Field("FILE", file)
  }

  lemma FileFieldsSorted(labelType: Bytes, commonName: Bytes, sha1: Bytes, file: Bytes)
    ensures Sorted(FileFields(commonName, sha1, file) + Tail(labelType))
  {
    hide Less;
    KeysInOrder();
    LessIsStrictOrder(CERT_SHA1, CN, FILE);
    LessIsStrictOrder(CERT_SHA1, FILE, TYPE);
    LessIsStrictOrder(CERT_SHA1, TYPE, V);
    LessIsStrictOrder(CN, FILE, TYPE);
    LessIsStrictOrder(CN, TYPE, V);
    LessIsStrictOrder(FILE, TYPE, V);
    var head, tail := FileFields(commonName, sha1, file), Tail(labelType);
    assert |head| <= 3 && Sorted(head);
    assert forall i, j :: 0 <= i < |head| && 0 <= j < 2 ==> Less(head[i].0, tail[j].0);
  }

  /** The parameters of certificate and public-key labels, in the order they are written. */
  lemma FileWritten(labelType: Bytes, commonName: Option<Bytes>, sha1: Option<Bytes>, file: Option<Bytes>)
    ensures FileParams(labelType, commonName, sha1, file)
         == FileFields(Text(commonName), Text(sha1), Text(file)) + Tail(labelType)
  {
    hide Lookup, New, WithOpt, Sorted, PlainKeys, FileParams, Plain, Tail, Field;
    KeyShapes();
    var params, fields := FileParams(labelType, commonName, sha1, file),
                          FileFields(Text(commonName), Text(sha1), Text(file));
    FileParamsSorted(labelType, commonName, sha1, file);
    FileFieldsSorted(labelType, Text(commonName), Text(sha1), Text(file));
    forall q ensures Lookup(params, q) == Lookup(fields + Tail(labelType), q) {
      FileLookup(labelType, commonName, sha1, file, q);
      LookupNew(labelType, q);
      LookupTail(labelType, q);
      LookupConcat(fields, Tail(labelType), q);
      var f1, f2 := Field("CERT_SHA1", Text(sha1)), Field("CN", Text(commonName));
      LookupConcat(f1 + f2, Field("FILE", Text(file)), q);
      LookupConcat(f1, f2, q);
      LookupField("CERT_SHA1", Text(sha1), q);
      LookupField("CN", Text(commonName), q);
      LookupField("FILE", Text(file), q);
    }
    SortedIsDetermined(params, fields + Tail(labelType));
  }

  lemma FileParamsSorted(labelType: Bytes, commonName: Option<Bytes>, sha1: Option<Bytes>, file: Option<Bytes>)
    ensures Sorted(FileParams(labelType, commonName, sha1, file))
  {
    hide Sorted, PlainKeys, New, WithOpt, Plain;
    UpperKeysPlain();
    NewWellFormed(labelType);
    var p1 := WithOpt(New(labelType), CN, commonName);
    WithKeeps(New(labelType), CN, commonName);
    WithKeeps(p1, CERT_SHA1, sha1);
    WithKeeps(WithOpt(p1, CERT_SHA1, sha1), FILE, file);
  }

  // ----- names out of the common name -----

  /** A common name splits into last and first name exactly when it has this shape. */
  lemma SplitCommonNameIff(commonName: Bytes, last: Bytes, first: Bytes)
    ensures SplitCommonName(commonName) == Some((last, first)) <==>
      && last != [] && first != [] && COMMA !in last && COMMA !in first
      && (commonName == last + [COMMA] + first || last + [COMMA] + first + [COMMA] <= commonName)
  {
    var parts := Split(commonName, COMMA);
    PartsAvoidSeparator(commonName, COMMA);
    if COMMA !in last && COMMA !in first {
      if commonName == last + [COMMA] + first {
        SplitAtFirst(last, COMMA, first);
        SplitWhole(first, COMMA);
      }
      if last + [COMMA] + first + [COMMA] <= commonName {
        var rest := commonName[|last| + |first| + 2..];
        assert commonName == last + [COMMA] + (first + [COMMA] + rest);
        SplitAtFirst(last, COMMA, first + [COMMA] + rest);
        SplitAtFirst(first, COMMA, rest);
      }
    }
    if SplitCommonName(commonName) == Some((last, first)) {
      SplitShape(commonName, COMMA);
    }
  }

  /** The first two parts of a split are where the text starts. */
  lemma SplitShape(s: Bytes, sep: byte)
    requires |Split(s, sep)| >= 2
    ensures
      var parts := Split(s, sep);
      s == parts[0] + [sep] + parts[1] || parts[0] + [sep] + parts[1] + [sep] <= s
  {
    var parts := Split(s, sep);
    JoinInvertsSplit(s, sep);
    assert s == parts[0] + [sep] + Join(parts[1..], sep);
    if |parts| > 2 {
      assert Join(parts[1..], sep) == parts[1] + [sep] + Join(parts[1..][1..], sep);
    }
  }

  lemma {:induction false} JoinInvertsSplit(s: Bytes, sep: byte)
    ensures Join(Split(s, sep), sep) == s
  {
    if s != [] {
      JoinInvertsSplit(s[1..], sep);
      var rest := Split(s[1..], sep);
      if s[0] == sep {
        assert ([[]] + rest)[1..] == rest;
      } else {
        assert Split(s, sep)[1..] == rest[1..];
      }
      assert s == [s[0]] + s[1..];
    }
  }

  /** Both dialects store the first name as the first name and the last name as the last name. */
  lemma EidNames(cardType: Bytes, commonName: Bytes, serialNumber: Option<Bytes>, last: Bytes, first: Bytes)
    requires SplitCommonName(commonName) == Some((last, first))
    ensures Lookup(EidParams(cardType, commonName, serialNumber), Ascii("FIRST_NAME")) == Some(first)
    ensures Lookup(EidParams(cardType, commonName, serialNumber), Ascii("LAST_NAME")) == Some(last)
  {
    KeyShapes();
    EidLookup(cardType, commonName, serialNumber, FIRST_NAME);
    EidLookup(cardType, commonName, serialNumber, LAST_NAME);
  }

  function EidFields(commonName: Bytes, first: Bytes, last: Bytes, serialNumber: Option<Bytes>): seq<Pair> {
    Field("CN", commonName) + Field("FIRST_NAME", first) + Field("LAST_NAME", last)
    + Field("SERIAL_NUMBER", Text(serialNumber))
  }

  lemma EidFieldsSorted(cardType: Bytes, commonName: Bytes, first: Bytes, last: Bytes, serialNumber: Option<Bytes>)
    ensures Sorted(EidFields(commonName, first, last, serialNumber) + Tail(cardType))
  {
    hide Less;
    KeysInOrder();
    LessIsStrictOrder(CN, FIRST_NAME, LAST_NAME);
    LessIsStrictOrder(CN, LAST_NAME, SERIAL_NUMBER);
    LessIsStrictOrder(CN, SERIAL_NUMBER, TYPE);
    LessIsStrictOrder(CN, TYPE, V);
    LessIsStrictOrder(FIRST_NAME, LAST_NAME, SERIAL_NUMBER);
    LessIsStrictOrder(FIRST_NAME, SERIAL_NUMBER, TYPE);
    LessIsStrictOrder(FIRST_NAME, TYPE, V);
    LessIsStrictOrder(LAST_NAME, SERIAL_NUMBER, TYPE);
    LessIsStrictOrder(LAST_NAME, TYPE, V);
    LessIsStrictOrder(SERIAL_NUMBER, TYPE, V);
  }

  /** The parameters of the reference dialect, in the order they are written; the names only when there are two. */
  lemma EidWritten(cardType: Bytes, commonName: Bytes, serialNumber: Option<Bytes>)
    ensures
      var names := SplitCommonName(commonName);
      EidParams(cardType, commonName, serialNumber) ==
        EidFields(commonName, if names.Some? then names.value.1 else [], if names.Some? then names.value.0 else [],
                  serialNumber) + Tail(cardType)
  {
    hide Lookup, New, EidParams, Sorted, PlainKeys, Tail, Field;
    KeyShapes();
    var names := SplitCommonName(commonName);
    var first, last := if names.Some? then names.value.1 else [], if names.Some? then names.value.0 else [];
    var params, fields := EidParams(cardType, commonName, serialNumber),
                          EidFields(commonName, first, last, serialNumber);
    EidParamsWellFormed(cardType, commonName, serialNumber);
    EidFieldsSorted(cardType, commonName, first, last, serialNumber);
    forall q ensures Lookup(params, q) == Lookup(fields + Tail(cardType), q) {
      EidLookup(cardType, commonName, serialNumber, q);
      LookupNew(cardType, q);
      LookupTail(cardType, q);
      EidFieldsLookup(commonName, first, last, serialNumber, q);
      LookupConcat(fields, Tail(cardType), q);
    }
    SortedIsDetermined(params, fields + Tail(cardType));
  }

  lemma EidFieldsLookup(commonName: Bytes, first: Bytes, last: Bytes, serialNumber: Option<Bytes>, q: Bytes)
    ensures Lookup(EidFields(commonName, first, last, serialNumber), q) ==
      if q == CN && commonName != [] then Some(commonName)
      else if q == FIRST_NAME && first != [] then Some(first)
      else if q == LAST_NAME && last != [] then Some(last)
      else if q == SERIAL_NUMBER && Text(serialNumber) != [] then serialNumber
      else None
  {
    hide Lookup, Field;
    var f1, f2, f3 := Field("CN", commonName), Field("FIRST_NAME", first), Field("LAST_NAME", last);
    LookupConcat(f1 + f2 + f3, Field("SERIAL_NUMBER", Text(serialNumber)), q);
    LookupConcat(f1 + f2, f3, q);
    LookupConcat(f1, f2, q);
    LookupField("CN", commonName, q);
    LookupField("FIRST_NAME", first, q);
    LookupField("LAST_NAME", last, q);
    LookupField("SERIAL_NUMBER", Text(serialNumber), q);
  }

  function Part(key: string, value: Option<Bytes>): Bytes {
    if value.Some? then Ascii(key) + UrlEncode(value.value) else []
  }

  lemma {:induction false} JoinSnoc(parts: seq<Bytes>, last: Bytes, sep: byte)
    requires parts != []
    ensures Join(parts + [last], sep) == Join(parts, sep) + [sep] + last
  {
    var all := parts + [last];
    if |parts| == 1 {
      assert all[1..] == [last];
    } else {
      JoinSnoc(parts[1..], last, sep);
      assert all[1..] == parts[1..] + [last];
    }
  }

  lemma RenderSnoc(params: seq<Pair>, p: Pair)
    requires params != []
    ensures Render(params + [p]) == Render(params) + ([AMPERSAND] + p.0 + [EQUALS] + UrlEncode(p.1))
  {
    hide UrlEncode;
    JoinSnoc(PairTexts(params), PairText(p), AMPERSAND);
    assert PairTexts(params + [p]) == PairTexts(params) + [PairText(p)];
  }

  lemma RenderOptional(params: seq<Pair>, key: string, value: Option<Bytes>)
    requires params != []
    ensures Render(params + Optional(Ascii(key), value)) == Render(params) + Part("&" + key + "=", value)
  {
    hide UrlEncode, Render;
    if value.Some? {
      RenderSnoc(params, (Ascii(key), value.value));
      assert Ascii("&" + key + "=") == [AMPERSAND] + Ascii(key) + [EQUALS];
    } else {
      assert params + [] == params;
    }
  }

  lemma DigidocHead(commonName: Bytes)
    ensures Render([(LOWER_V, VERSION), (LOWER_CN, commonName)]) == Ascii("data:,v=1&cn=") + UrlEncode(commonName)
  {
    hide UrlEncode;
    var head: seq<Pair> := [(LOWER_V, VERSION)];
    assert head + [(LOWER_CN, commonName)] == [(LOWER_V, VERSION), (LOWER_CN, commonName)];
    RenderSnoc(head, (LOWER_CN, commonName));
    assert PairTexts(head) == [PairText(head[0])];
    OneEncodes();
    assert Ascii("data:,v=1&cn=")
        == Ascii("data:,") + (Ascii("v") + [EQUALS] + Ascii("1")) + [AMPERSAND] + LOWER_CN + [EQUALS];
  }

  lemma OneEncodes()
    ensures UrlEncode(VERSION) == Ascii("1")
  {
    assert VERSION[1..] == [];
    assert UrlEncode(VERSION[1..]) == [];
  }

  /** The libcdoc label, written out: fixed order, the names first name first, absent fields left away. */
  lemma DigidocText(cardType: Bytes, commonName: Bytes, serialNumber: Option<Bytes>, notAfter: Option<Bytes>)
    ensures
      var names := SplitCommonName(commonName);
      EidDigidoc(cardType, commonName, serialNumber, notAfter) ==
        Ascii("data:,v=1&cn=") + UrlEncode(commonName)
        + Part("&first_name=", if names.Some? then Some(names.value.1) else None)
        + Part("&last_name=", if names.Some? then Some(names.value.0) else None)
        + Part("&serial_number=", serialNumber)
        + Part("&type=", Some(cardType))
        + Part("&server_exp=", notAfter)
  {
    hide UrlEncode, Render, Optional, Part, SplitCommonName;
    var names := SplitCommonName(commonName);
    var first := if names.Some? then Some(names.value.1) else None;
    var last := if names.Some? then Some(names.value.0) else None;
    var p1 := [(LOWER_V, VERSION), (LOWER_CN, commonName)];
    DigidocHead(commonName);
    RenderOptional(p1, "first_name", first);
    var p2 := p1 + Optional(LOWER_FIRST_NAME, first);
    RenderOptional(p2, "last_name", last);
    var p3 := p2 + Optional(LOWER_LAST_NAME, last);
    RenderOptional(p3, "serial_number", serialNumber);
    var p4 := p3 + Optional(LOWER_SERIAL_NUMBER, serialNumber);
    RenderOptional(p4, "type", Some(cardType));
    var p5 := p4 + Optional(LOWER_TYPE, Some(cardType));
    RenderOptional(p5, "server_exp", notAfter);
    assert Optional(LOWER_TYPE, Some(cardType)) == [(LOWER_TYPE, cardType)] by { OptionalSome(LOWER_TYPE, cardType); }
    assert "&" + "first_name" + "=" == "&first_name=" && "&" + "last_name" + "=" == "&last_name=";
    assert "&" + "serial_number" + "=" == "&serial_number=" && "&" + "type" + "=" == "&type=";
    assert "&" + "server_exp" + "=" == "&server_exp=";
  }

  lemma OptionalSome(key: Bytes, value: Bytes)
    ensures Optional(key, Some(value)) == [(key, value)]
  {
  }
}
