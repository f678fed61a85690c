/** Machine-readable recipient labels (crates/umbrik-core/src/keylabel.rs), as bytes. */
module KeyLabel {
  import opened Basics
  import opened Splitting
  import opened Utf8

  const AMPERSAND: byte := 0x26
  const EQUALS: byte := 0x3D
  const PLUS: byte := 0x2B
  const PERCENT: byte := 0x25
  const SPACE: byte := 0x20
  const COMMA: byte := 0x2C

  const PREFIX: Bytes := Ascii("data:,")

  // ----- form-url encoding -----

  /** `A-Z a-z 0-9 . - * _` stay as they are. */
  predicate Unescaped(b: byte) {
    0x41 <= b <= 0x5A || 0x61 <= b <= 0x7A || 0x30 <= b <= 0x39 || b in {0x2E, 0x2D, 0x2A, 0x5F}
  }

  function HexDigit(n: nat): byte
    requires n < 16
  {
    if n < 10 then 0x30 + n else 0x41 + n - 10
  }

  function EncodeByte(b: byte): Bytes {
    if Unescaped(b) then [b]
    else if b == SPACE then [PLUS]
    else [PERCENT, HexDigit(b / 16), HexDigit(b % 16)]
  }

  function UrlEncode(value: Bytes): Bytes {
    if value == [] then [] else EncodeByte(value[0]) + UrlEncode(value[1..])
  }

  /** `form_urlencode`. */
  method FormUrlEncode(value: Bytes) returns (out: Bytes)
    ensures out == UrlEncode(value)
  {
    hide EncodeByte;
    out := [];
    assert value[0..] == value;
    for i := 0 to |value|
      invariant out + UrlEncode(value[i..]) == UrlEncode(value)
    {
      assert value[i..][1..] == value[i + 1..];
      assert out + (EncodeByte(value[i]) + UrlEncode(value[i + 1..])) == UrlEncode(value);
      out := out + EncodeByte(value[i]);
    }
    assert value[|value|..] == [];
  }

  function HexValue(b: byte): (r: Option<byte>)
    ensures r.Some? ==> r.value < 16
  {
    if 0x30 <= b <= 0x39 then Some(b - 0x30)
    else if 0x41 <= b <= 0x46 then Some(b - 0x41 + 10)
    else if 0x61 <= b <= 0x66 then Some(b - 0x61 + 10)
    else None
  }

  /** `u8::from_str_radix(_, 16)` on two bytes, which also takes a leading plus sign. */
  function FromHexPair(hi: byte, lo: byte): Option<byte> {
    if hi == PLUS then HexValue(lo)
    else if HexValue(hi).Some? && HexValue(lo).Some? then Some(HexValue(hi).value as int * 16 + HexValue(lo).value)
    else None
  }

  /** Bytes consumed and produced by the escape at the front of a non-empty text. */
  function DecodeFront(s: Bytes): (r: (nat, byte))
    requires s != []
    ensures 1 <= r.0 <= |s|
  {
    if s[0] == PLUS then (1, SPACE)
    else if s[0] == PERCENT && |s| >= 3 && FromHexPair(s[1], s[2]).Some? then (3, FromHexPair(s[1], s[2]).value)
    else (1, s[0])
  }

  function UrlDecodeBytes(s: Bytes): Bytes {
    if s == [] then []
    else [DecodeFront(s).1] + UrlDecodeBytes(s[DecodeFront(s).0..])
  }

  function UrlDecode(s: Bytes): Bytes {
    Lossy(UrlDecodeBytes(s))
  }

  lemma DecodeEmpty()
    ensures UrlDecodeBytes([]) == []
  {
  }

  /** What one turn of the decoding loop must do at position `i`. */
  lemma DecodeAt(value: Bytes, i: nat)
    requires i < |value|
    ensures
      var hex := if i + 3 <= |value| then FromHexPair(value[i + 1], value[i + 2]) else None;
      UrlDecodeBytes(value[i..]) ==
        if value[i] == PLUS then [SPACE] + UrlDecodeBytes(value[i + 1..])
        else if value[i] == PERCENT && hex.Some? then [hex.value] + UrlDecodeBytes(value[i + 3..])
        else [value[i]] + UrlDecodeBytes(value[i + 1..])
  {
    hide FromHexPair;
    var n := DecodeFront(value[i..]).0;
    assert value[i..][n..] == value[i + n..];
  }

  /** `form_urldecode`, advancing an index. */
  method FormUrlDecode(value: Bytes) returns (text: Bytes)
    ensures text == UrlDecode(value)
  {
    hide UrlDecodeBytes, FromHexPair;
    var out: Bytes := [];
    var i := 0;
    assert value[0..] == value;
    while i < |value|
      invariant i <= |value|
      invariant out + UrlDecodeBytes(value[i..]) == UrlDecodeBytes(value)
    {
      DecodeAt(value, i);
      if value[i] == PLUS {
        out := out + [SPACE];
        i := i + 1;
      } else if value[i] == PERCENT {
        var hex := if i + 3 <= |value| then FromHexPair(value[i + 1], value[i + 2]) else None;
        if hex.Some? {
          out := out + [hex.value];
          i := i + 3;
        } else {
          out := out + [PERCENT];
          i := i + 1;
        }
      } else {
        out := out + [value[i]];
        i := i + 1;
      }
    }
    assert value[i..] == [];
    DecodeEmpty();
    assert out + [] == out;
    return Lossy(out);
  }

  /** One encoded byte decodes to itself, whatever follows. */
  lemma DecodeEncodedByte(b: byte, rest: Bytes)
    ensures UrlDecodeBytes(EncodeByte(b) + rest) == [b] + UrlDecodeBytes(rest)
  {
    var s := EncodeByte(b) + rest;
    assert DecodeFront(s) == (|EncodeByte(b)|, b);
    assert s[|EncodeByte(b)|..] == rest;
  }

  /** Decoding inverts encoding on arbitrary bytes. */
  lemma {:induction false} DecodeInvertsEncode(value: Bytes)
    ensures UrlDecodeBytes(UrlEncode(value)) == value
  {
    if value != [] {
      DecodeInvertsEncode(value[1..]);
      DecodeEncodedByte(value[0], UrlEncode(value[1..]));
    }
  }

  const UPPER_HEX: Bytes := Ascii("0123456789ABCDEF")
  const LOWER_HEX: Bytes := Ascii("0123456789abcdef")

  /** Java's alphabet: letters, digits and `.-*_` stand for themselves, space is `+`, the rest upper-case escapes. */
  lemma EncodeByteMeans(b: byte)
    ensures
      var c := b as char;
      EncodeByte(b) ==
        if 'A' <= c <= 'Z' || 'a' <= c <= 'z' || '0' <= c <= '9' || c in ".-*_" then [b]
        else if c == ' ' then Ascii("+")
        else Ascii("%") + [UPPER_HEX[b / 16], UPPER_HEX[b % 16]]
  {
    assert '.' as int == 0x2E && '-' as int == 0x2D && '*' as int == 0x2A && '_' as int == 0x5F;
  }

  lemma HexValueMeans(b: byte, v: nat)
    requires v < 16
    ensures HexValue(b) == Some(v) <==> b == UPPER_HEX[v] || b == LOWER_HEX[v]
  {
  }

  /** Two hexadecimal digits of either case make an escape; so does a plus sign before one digit. */
  lemma HexPairMeans(hi: byte, lo: byte, v: byte)
    ensures FromHexPair(hi, lo) == Some(v) <==>
      || (HexValue(hi) == Some(v / 16) && HexValue(lo) == Some(v % 16))
      || (hi == '+' as int && HexValue(lo) == Some(v))
  {
  }

  /** Text that is no escape passes through: everything but a plus sign and a percent sign with two digits behind it. */
  lemma NoEscapePassesThrough(b: byte, rest: Bytes)
    requires b != PLUS
    requires b == PERCENT ==> |rest| < 2 || FromHexPair(rest[0], rest[1]).None?
    ensures UrlDecodeBytes([b] + rest) == [b] + UrlDecodeBytes(rest)
  {
    assert ([b] + rest)[1..] == rest;
  }

  lemma {:induction false} EncodedAvoidsSeparators(value: Bytes)
    ensures AMPERSAND !in UrlEncode(value) && EQUALS !in UrlEncode(value)
  {
    if value != [] {
      EncodedAvoidsSeparators(value[1..]);
    }
  }

  // ----- sorted parameters: a BTreeMap as its ordered pairs -----

  type Pair = (Bytes, Bytes)

  /** Byte-wise lexicographic order, the order of `String`. */
  predicate Less(a: Bytes, b: Bytes) {
    if b == [] then false
    else if a == [] then true
    else a[0] < b[0] || (a[0] == b[0] && Less(a[1..], b[1..]))
  }

  lemma {:induction false} LessIsStrictOrder(a: Bytes, b: Bytes, c: Bytes)
    ensures !Less(a, a)
    ensures Less(a, b) && Less(b, c) ==> Less(a, c)
    ensures a == b || Less(a, b) || Less(b, a)
  {
    if a != [] && b != [] {
      LessIsStrictOrder(a[1..], b[1..], if c == [] then [] else c[1..]);
      assert a == [a[0]] + a[1..] && b == [b[0]] + b[1..];
    } else if a != [] {
      LessIsStrictOrder(a[1..], [], []);
    }
  }

  predicate Sorted(params: seq<Pair>) {
    forall i, j :: 0 <= i < j < |params| ==> Less(params[i].0, params[j].0)
  }

  function Lookup(params: seq<Pair>, key: Bytes): Option<Bytes> {
    if params == [] then None
    else if params[0].0 == key then Some(params[0].1)
    else Lookup(params[1..], key)
  }

  /** `BTreeMap::insert`. */
  function Insert(params: seq<Pair>, key: Bytes, value: Bytes): seq<Pair> {
    if params == [] then [(key, value)]
    else if key == params[0].0 then [(key, value)] + params[1..]
    else if Less(key, params[0].0) then [(key, value)] + params
    else [params[0]] + Insert(params[1..], key, value)
  }

  /** Insertion brings in no pair but the new one. */
  lemma {:induction false} InsertKeys(params: seq<Pair>, key: Bytes, value: Bytes)
    ensures forall p :: p in Insert(params, key, value) ==> p == (key, value) || p in params
  {
    if params != [] {
      InsertKeys(params[1..], key, value);
    }
  }

  /** Insertion keeps the parameters strictly sorted. */
  lemma {:induction false} InsertKeepsSorted(params: seq<Pair>, key: Bytes, value: Bytes)
    requires Sorted(params)
    ensures Sorted(Insert(params, key, value))
  {
    if params != [] {
      var head, tail := params[0], params[1..];
      InsertKeepsSorted(tail, key, value);
      InsertKeys(tail, key, value);
      LessIsStrictOrder(key, head.0, key);
      forall p | p in tail ensures Less(head.0, p.0) && (Less(key, head.0) ==> Less(key, p.0)) {
        LessIsStrictOrder(key, head.0, p.0);
      }
    }
  }

  /** Insertion is map update. */
  lemma {:induction false} LookupAfterInsert(params: seq<Pair>, key: Bytes, value: Bytes, q: Bytes)
    ensures Lookup(Insert(params, key, value), q) == if q == key then Some(value) else Lookup(params, q)
  {
    if params != [] {
      LookupAfterInsert(params[1..], key, value, q);
    }
  }

  /** Inserting a key above all others appends it. */
  lemma {:induction false} InsertAbove(params: seq<Pair>, key: Bytes, value: Bytes)
    requires forall i :: 0 <= i < |params| ==> Less(params[i].0, key)
    ensures Insert(params, key, value) == params + [(key, value)]
  {
    if params != [] {
      LessIsStrictOrder(params[0].0, key, params[0].0);
      LessIsStrictOrder(key, key, key);
      InsertAbove(params[1..], key, value);
    }
  }

  lemma {:induction false} LookupBelow(params: seq<Pair>, q: Bytes)
    requires forall i :: 0 <= i < |params| ==> Less(q, params[i].0)
    ensures Lookup(params, q).None?
  {
    if params != [] {
      LessIsStrictOrder(q, q, q);
      LookupBelow(params[1..], q);
    }
  }

  lemma SortedAbove(params: seq<Pair>, q: Bytes)
    requires Sorted(params) && params != [] && Less(q, params[0].0)
    ensures forall i :: 0 <= i < |params| ==> Less(q, params[i].0)
  {
    forall i | 0 <= i < |params| ensures Less(q, params[i].0) {
      LessIsStrictOrder(q, params[0].0, params[i].0);
    }
  }

  /** Sorted parameters are determined by what they give for each key. */
  lemma {:induction false} SortedIsDetermined(p1: seq<Pair>, p2: seq<Pair>)
    requires Sorted(p1) && Sorted(p2) && forall q :: Lookup(p1, q) == Lookup(p2, q)
    ensures p1 == p2
  {
    if p1 == [] || p2 == [] {
      assert p1 != [] ==> Lookup(p1, p1[0].0).Some?;
      assert p2 != [] ==> Lookup(p2, p2[0].0).Some?;
    } else {
      var k1, k2 := p1[0].0, p2[0].0;
      LessIsStrictOrder(k1, k2, k1);
      assert Lookup(p1, k1).Some? && Lookup(p2, k2).Some?;
      if Less(k1, k2) {
        SortedAbove(p2, k1);
        LookupBelow(p2, k1);
      } else if Less(k2, k1) {
        SortedAbove(p1, k2);
        LookupBelow(p1, k2);
      }
      assert k1 == k2 && Lookup(p1, k1) == Lookup(p2, k1);
      forall q ensures Lookup(p1[1..], q) == Lookup(p2[1..], q) {
        TailLookup(p1, q);
        TailLookup(p2, q);
        assert Lookup(p1, q) == Lookup(p2, q);
      }
      SortedIsDetermined(p1[1..], p2[1..]);
      assert p1 == [p1[0]] + p1[1..] && p2 == [p2[0]] + p2[1..];
    }
  }

  lemma TailLookup(params: seq<Pair>, q: Bytes)
    requires Sorted(params) && params != []
    ensures Lookup(params[1..], q) == if q == params[0].0 then None else Lookup(params, q)
  {
    if q == params[0].0 {
      LookupBelow(params[1..], q);
    }
  }

  function InsertAll(params: seq<Pair>): seq<Pair> {
    if params == [] then []
    else Insert(InsertAll(params[..|params| - 1]), params[|params| - 1].0, params[|params| - 1].1)
  }

  lemma {:induction false} InsertAllSorted(params: seq<Pair>)
    ensures Sorted(InsertAll(params))
    ensures Sorted(params) ==> InsertAll(params) == params
  {
    if params != [] {
      var before, last := params[..|params| - 1], params[|params| - 1];
      InsertAllSorted(before);
      InsertKeepsSorted(InsertAll(before), last.0, last.1);
      if Sorted(params) {
        InsertAbove(before, last.0, last.1);
      }
    }
  }

  // ----- rendering and parsing -----

  function PairText(p: Pair): Bytes {
    p.0 + [EQUALS] + UrlEncode(p.1)
  }

  function PairTexts(params: seq<Pair>): (texts: seq<Bytes>)
    ensures |texts| == |params|
    ensures forall i :: 0 <= i < |params| ==> texts[i] == PairText(params[i])
  {
    seq(|params|, i requires 0 <= i < |params| => PairText(params[i]))
  }

  /** `KEY=value` pairs behind the prefix, in the given order. */
  function Render(params: seq<Pair>): Bytes {
    PREFIX + Join(PairTexts(params), AMPERSAND)
  }

  function ParsePairs(texts: seq<Bytes>): Option<seq<Pair>> {
    if texts == [] then Some([])
    else
      var before, text := ParsePairs(texts[..|texts| - 1]), texts[|texts| - 1];
      if before.None? || text == [] then before
      else
        match SplitOnce(text, EQUALS)
        case None => None
        case Some((key, value)) => Some(Insert(before.value, key, UrlDecode(value)))
  }

  function Parse(keyLabel: Bytes): Option<seq<Pair>> {
    if !(PREFIX <= keyLabel) then None
    else ParsePairs(Split(keyLabel[|PREFIX|..], AMPERSAND))
  }

  /** The loop of `parse`, inserting pair by pair. */
  method ParseLabel(keyLabel: Bytes) returns (r: Option<seq<Pair>>)
    ensures r == Parse(keyLabel)
  {
    if !(PREFIX <= keyLabel) {
      return None;
    }
    var texts := Split(keyLabel[|PREFIX|..], AMPERSAND);
    var params: seq<Pair> := [];
    for i := 0 to |texts|
      invariant ParsePairs(texts[..i]) == Some(params)
    {
      assert texts[..i + 1][..i] == texts[..i];
      if texts[i] == [] {
        continue;
      }
      var pair := SplitOnce(texts[i], EQUALS);
      if pair.None? {
        ParseFailureSticks(texts, i + 1);
        return None;
      }
      var value := FormUrlDecode(pair.value.1);
      params := Insert(params, pair.value.0, value);
    }
    assert texts[..|texts|] == texts;
    return Some(params);
  }

  lemma {:induction false} ParseFailureSticks(texts: seq<Bytes>, n: nat)
    requires n <= |texts| && ParsePairs(texts[..n]).None?
    ensures ParsePairs(texts).None?
  {
    if n < |texts| {
      assert texts[..|texts| - 1][..n] == texts[..n];
      ParseFailureSticks(texts[..|texts| - 1], n);
    } else {
      assert texts[..n] == texts;
    }
  }

  /** A key that neither separator can cut. */
  predicate Plain(key: Bytes) {
    AMPERSAND !in key && EQUALS !in key
  }

  predicate PlainKeys(params: seq<Pair>) {
    forall i :: 0 <= i < |params| ==> Plain(params[i].0)
  }

  lemma InsertKeepsPlain(params: seq<Pair>, key: Bytes, value: Bytes)
    requires PlainKeys(params) && Plain(key)
    ensures PlainKeys(Insert(params, key, value))
  {
    InsertKeys(params, key, value);
    var r := Insert(params, key, value);
    forall i | 0 <= i < |r| ensures Plain(r[i].0) {
      assert r[i] in r;
    }
  }

  function Cleaned(params: seq<Pair>): (r: seq<Pair>)
    ensures |r| == |params|
  {
    seq(|params|, i requires 0 <= i < |params| => (params[i].0, Lossy(params[i].1)))
  }

  lemma {:induction false} ParseRenderedPairs(params: seq<Pair>)
    requires PlainKeys(params)
    ensures ParsePairs(PairTexts(params)) == Some(InsertAll(Cleaned(params)))
  {
    if params != [] {
      var n := |params| - 1;
      ParseRenderedPairs(params[..n]);
      assert PairTexts(params)[..n] == PairTexts(params[..n]);
      assert Cleaned(params)[..n] == Cleaned(params[..n]);
      SplitOnceAt(params[n].0, EQUALS, UrlEncode(params[n].1));
      DecodeInvertsEncode(params[n].1);
    }
  }

  /** Rendering pairs in any order and parsing them back inserts them one after the other. */
  lemma ParseInvertsRender(params: seq<Pair>)
    requires PlainKeys(params)
    ensures Parse(Render(params)) == Some(InsertAll(Cleaned(params)))
  {
    var texts := PairTexts(params);
    var body := Join(texts, AMPERSAND);
    assert Render(params)[|PREFIX|..] == body;
    if params == [] {
      var texts' := Split(body, AMPERSAND);
      assert texts' == [[]] && texts'[..0] == [];
      assert ParsePairs(texts') == Some([]);
      assert Cleaned(params) == [];
    } else {
      forall i | 0 <= i < |texts| ensures AMPERSAND !in texts[i] {
        EncodedAvoidsSeparators(params[i].1);
      }
      SplitInvertsJoin(texts, AMPERSAND);
      ParseRenderedPairs(params);
    }
  }

  lemma {:induction false} ParsedPairsPlain(texts: seq<Bytes>)
    requires ParsePairs(texts).Some?
    requires forall i :: 0 <= i < |texts| ==> AMPERSAND !in texts[i]
    ensures PlainKeys(ParsePairs(texts).value) && Sorted(ParsePairs(texts).value)
  {
    if texts != [] {
      var before, text := texts[..|texts| - 1], texts[|texts| - 1];
      ParsedPairsPlain(before);
      if text != [] {
        var params, pair := ParsePairs(before).value, SplitOnce(text, EQUALS).value;
        InsertKeepsPlain(params, pair.0, UrlDecode(pair.1));
        InsertKeepsSorted(params, pair.0, UrlDecode(pair.1));
      }
    }
  }

  /** Whatever parses has strictly sorted keys free of separators. */
  lemma ParsedIsPlain(keyLabel: Bytes)
    requires Parse(keyLabel).Some?
    ensures PlainKeys(Parse(keyLabel).value) && Sorted(Parse(keyLabel).value)
  {
    PartsAvoidSeparator(keyLabel[|PREFIX|..], AMPERSAND);
    ParsedPairsPlain(Split(keyLabel[|PREFIX|..], AMPERSAND));
  }

  /** Some pair, not empty, has no equals sign. */
  predicate HasBarePair(texts: seq<Bytes>) {
    exists i :: 0 <= i < |texts| && texts[i] != [] && EQUALS !in texts[i]
  }

  lemma HasBarePairSnoc(texts: seq<Bytes>, last: Bytes)
    ensures HasBarePair(texts + [last]) <==> HasBarePair(texts) || (last != [] && EQUALS !in last)
  {
    var all := texts + [last];
    if HasBarePair(texts) {
      var i :| 0 <= i < |texts| && texts[i] != [] && EQUALS !in texts[i];
      assert all[i] == texts[i];
    }
    assert all[|texts|] == last;
  }

  lemma {:induction false} ParsePairsNoneIff(texts: seq<Bytes>)
    ensures ParsePairs(texts).None? <==> HasBarePair(texts)
  {
    hide HasBarePair, UrlDecode;
    if texts == [] {
      NoPairNoBare();
    } else {
      var before, last := texts[..|texts| - 1], texts[|texts| - 1];
      ParsePairsNoneIff(before);
      HasBarePairSnoc(before, last);
      assert texts == before + [last];
    }
  }

  lemma NoPairNoBare()
    ensures !HasBarePair([])
  {
  }

  /** A label does not parse exactly when the prefix is missing or a non-empty pair has no equals sign. */
  lemma ParseNoneIff(keyLabel: Bytes)
    ensures Parse(keyLabel).None? <==>
      !(Ascii("data:,") <= keyLabel) || HasBarePair(Split(keyLabel[6..], AMPERSAND))
  {
    hide HasBarePair, ParsePairs;
    assert PREFIX == Ascii("data:,") && |PREFIX| == 6;
    if PREFIX <= keyLabel {
      ParsePairsNoneIff(Split(keyLabel[6..], AMPERSAND));
    }
  }

  /** The text at position `i` gives this key a value. */
  predicate Gives(texts: seq<Bytes>, i: nat, key: Bytes, value: Bytes) {
    && i < |texts| && EQUALS !in key
    && texts[i] == key + [EQUALS] + value
  }

  ghost predicate LastToGive(texts: seq<Bytes>, i: nat, key: Bytes, value: Bytes) {
    Gives(texts, i, key, value) && forall j, other :: i < j < |texts| ==> !Gives(texts, j, key, other)
  }

  lemma GivesIff(texts: seq<Bytes>, i: nat, key: Bytes, value: Bytes)
    requires i < |texts|
    ensures Gives(texts, i, key, value) <==> SplitOnce(texts[i], EQUALS) == Some((key, value))
  {
    if EQUALS !in key {
      SplitOnceAt(key, EQUALS, value);
    }
  }

  /** When a key is given several times the last one counts, decoded. */
  lemma {:induction false} ParsedValue(texts: seq<Bytes>, i: nat, key: Bytes, value: Bytes)
    requires ParsePairs(texts).Some? && LastToGive(texts, i, key, value)
    ensures Lookup(ParsePairs(texts).value, key) == Some(UrlDecode(value))
  {
    hide UrlDecode;
    var n := |texts| - 1;
    var before := texts[..n];
    GivesIff(texts, i, key, value);
    if texts[n] != [] {
      var pair := SplitOnce(texts[n], EQUALS).value;
      GivesIff(texts, n, key, pair.1);
      GivesIff(texts, n, pair.0, pair.1);
      LookupAfterInsert(ParsePairs(before).value, pair.0, UrlDecode(pair.1), key);
    }
    if i < n {
      assert forall j, other :: i < j < n ==> (Gives(before, j, key, other) <==> Gives(texts, j, key, other));
      ParsedValue(before, i, key, value);
    }
  }

  /** A key nobody gives has no value. */
  lemma {:induction false} UngivenIsAbsent(texts: seq<Bytes>, key: Bytes)
    requires ParsePairs(texts).Some? && forall i: nat, value :: !Gives(texts, i, key, value)
    ensures Lookup(ParsePairs(texts).value, key).None?
  {
    hide UrlDecode;
    if texts != [] {
      var n := |texts| - 1;
      var before := texts[..n];
      assert forall i: nat, value :: Gives(before, i, key, value) ==> Gives(texts, i, key, value);
      UngivenIsAbsent(before, key);
      if texts[n] != [] {
        var pair := SplitOnce(texts[n], EQUALS).value;
        GivesIff(texts, n, key, pair.1);
        LookupAfterInsert(ParsePairs(before).value, pair.0, UrlDecode(pair.1), key);
      }
    }
  }

  predicate ValidValues(params: seq<Pair>) {
    forall i :: 0 <= i < |params| ==> Valid(params[i].1)
  }

  /**
   A sorted parameter map with UTF-8 values survives formatting and parsing exactly when no key holds
   a separator, and the keys come out strictly sorted.
   */
  lemma LabelRoundTripIff(params: seq<Pair>)
    requires Sorted(params) && ValidValues(params)
    ensures Parse(Render(params)) == Some(params) <==> PlainKeys(params)
  {
    if PlainKeys(params) {
      ParseInvertsRender(params);
      forall i | 0 <= i < |params| ensures Cleaned(params)[i] == params[i] {
        LossyKeepsValid(params[i].1);
      }
      assert Cleaned(params) == params;
      InsertAllSorted(params);
    }
    if Parse(Render(params)) == Some(params) {
      ParsedIsPlain(Render(params));
    }
  }

  /** Two different parameter maps never share a label. */
  lemma FormatInjective(p1: seq<Pair>, p2: seq<Pair>)
    requires Sorted(p1) && ValidValues(p1) && PlainKeys(p1)
    requires Sorted(p2) && ValidValues(p2) && PlainKeys(p2)
    requires Render(p1) == Render(p2)
    ensures p1 == p2
  {
    LabelRoundTripIff(p1);
    LabelRoundTripIff(p2);
  }
}
