/** Field extraction from a subject DN (crates/umbrik-core/src/cert.rs). */
module DistinguishedName {
  import opened Basics
  import opened Splitting

  // ----- splitting at unescaped commas -----

  /** The loop's memory: finished fields, the field under construction, and a pending backslash. */
  datatype Scan = Scan(fields: seq<string>, current: string, escaped: bool)

  function Step(st: Scan, ch: char): Scan {
    if st.escaped then Scan(st.fields, st.current + [ch], false)
    else if ch == '\\' then st.(escaped := true)
    else if ch == ',' then Scan(st.fields + [st.current], [], false)
    else st.(current := st.current + [ch])
  }

  function RunFrom(st: Scan, text: string): Scan
    decreases |text|
  {
    if text == [] then st else RunFrom(Step(st, text[0]), text[1..])
  }

  function Fields(subject: string): seq<string> {
    var st := RunFrom(Scan([], [], false), subject);
    st.fields + [st.current]
  }

  // ----- trimming -----

  /** `char::is_whitespace`. */
  predicate IsSpace(c: char) {
    || '\t' <= c <= '\r' || c == ' ' || c == '\U{85}' || c == '\U{A0}' || c == '\U{1680}'
    || '\U{2000}' <= c <= '\U{200A}' || c == '\U{2028}' || c == '\U{2029}' || c == '\U{202F}'
    || c == '\U{205F}' || c == '\U{3000}'
  }

  /** The 25 code points with the Unicode property White_Space. */
  const WHITE_SPACE: seq<int> := [
    0x0009, 0x000A, 0x000B, 0x000C, 0x000D, 0x0020, 0x0085, 0x00A0, 0x1680, 0x2000, 0x2001, 0x2002, 0x2003, 0x2004,
    0x2005, 0x2006, 0x2007, 0x2008, 0x2009, 0x200A, 0x2028, 0x2029, 0x202F, 0x205F, 0x3000]

  lemma IsSpaceIff(c: char)
    ensures IsSpace(c) <==> c as int in WHITE_SPACE
  {
  }

  function TrimStart(s: string): string {
    if s != [] && IsSpace(s[0]) then TrimStart(s[1..]) else s
  }

  function TrimEnd(s: string): (r: string)
    ensures r <= s && (r == s <==> s == [] || !IsSpace(s[|s| - 1]))
  {
    if s != [] && IsSpace(s[|s| - 1]) then TrimEnd(s[..|s| - 1]) else s
  }

  function Trim(s: string): string {
    TrimEnd(TrimStart(s))
  }

  // ----- extraction -----

  /** The rest of the first field that starts with the prefix. */
  function FirstWithPrefix(fields: seq<string>, prefix: string): Option<string> {
    if fields == [] then None
    else if prefix <= Trim(fields[0]) then Some(Trim(fields[0])[|prefix|..])
    else FirstWithPrefix(fields[1..], prefix)
  }

  function Extract(subject: string, name: string): Option<string> {
    FirstWithPrefix(Fields(subject), name + "=")
  }

  /** `extract_rdn`. */
  method ExtractRdn(subject: string, name: string) returns (value: Option<string>)
    ensures value == Extract(subject, name)
  {
    var fields: seq<string>, current: string, escaped := [], [], false;
    for i := 0 to |subject|
      invariant RunFrom(Scan(fields, current, escaped), subject[i..]) == RunFrom(Scan([], [], false), subject)
    {
      assert subject[i..][1..] == subject[i + 1..];
      var ch := subject[i];
      if escaped {
        current := current + [ch];
        escaped := false;
      } else if ch == '\\' {
        escaped := true;
      } else if ch == ',' {
        fields, current := fields + [current], [];
      } else {
        current := current + [ch];
      }
    }
    fields := fields + [current];
    for i := 0 to |fields|
      invariant FirstWithPrefix(fields[i..], name + "=") == FirstWithPrefix(fields, name + "=")
    {
      assert fields[i..][1..] == fields[i + 1..];
      var field := Trim(fields[i]);
      if name + "=" <= field {
        return Some(field[|name + "="|..]);
      }
    }
    return None;
  }

  // ----- escaping, and what splitting does to it -----

  /**
   The text stands for `s`: each character as it is or behind a backslash, commas and backslashes always behind one (the
   single-character form in section 2.4 of RFC 4514).
   */
  predicate Escapes(text: string, s: string)
    decreases |s|
  {
    if s == [] then text == []
    else
      || (text != [] && text[0] == s[0] && s[0] != ',' && s[0] != '\\' && Escapes(text[1..], s[1..]))
      || (|text| >= 2 && text[0] == '\\' && text[1] == s[0] && Escapes(text[2..], s[1..]))
  }

  predicate EscapesAll(texts: seq<string>, fields: seq<string>) {
    |texts| == |fields| && forall i :: 0 <= i < |fields| ==> Escapes(texts[i], fields[i])
  }

  /** Reading an escaped text appends the original to the current field. */
  lemma {:induction false} ReadEscaped(fields: seq<string>, current: string, text: string, s: string, rest: string)
    requires Escapes(text, s)
    ensures RunFrom(Scan(fields, current, false), text + rest) == RunFrom(Scan(fields, current + s, false), rest)
    decreases |s|
  {
    var all := text + rest;
    if s == [] {
      assert all == rest && current + s == current;
    } else {
      var plain := text != [] && text[0] == s[0] && s[0] != ',' && s[0] != '\\' && Escapes(text[1..], s[1..]);
      var tail := if plain then text[1..] else text[2..];
      if plain {
        assert all[1..] == tail + rest;
      } else {
        assert all[0] == '\\' && all[1..][0] == s[0] && all[1..][1..] == tail + rest;
      }
      ReadEscaped(fields, current + [s[0]], tail, s[1..], rest);
      assert current + [s[0]] + s[1..] == current + s;
    }
  }

  lemma {:induction false} ReadJoined(done: seq<string>, texts: seq<string>, fields: seq<string>)
    requires fields != [] && EscapesAll(texts, fields)
    ensures RunFrom(Scan(done, [], false), Join(texts, ','))
         == Scan(done + fields[..|fields| - 1], fields[|fields| - 1], false)
    decreases |fields|
  {
    if |fields| == 1 {
      ReadEscaped(done, [], texts[0], fields[0], []);
      assert texts[0] + [] == texts[0];
      assert [] + fields[0] == fields[0];
      assert done + fields[..0] == done;
    } else {
      var rest := Join(texts[1..], ',');
      assert Join(texts, ',') == texts[0] + ([','] + rest);
      ReadEscaped(done, [], texts[0], fields[0], [','] + rest);
      assert [] + fields[0] == fields[0];
      assert ([','] + rest)[1..] == rest;
      assert RunFrom(Scan(done, fields[0], false), [','] + rest) == RunFrom(Scan(done + [fields[0]], [], false), rest);
      ReadJoined(done + [fields[0]], texts[1..], fields[1..]);
      assert done + [fields[0]] + fields[1..][..|fields| - 2] == done + fields[..|fields| - 1];
    }
  }

  /** Splitting inverts escaping, for any non-empty list of fields whatever they contain and however it is escaped. */
  lemma FieldsInvertEscape(texts: seq<string>, fields: seq<string>)
    requires fields != [] && EscapesAll(texts, fields)
    ensures Fields(Join(texts, ',')) == fields
  {
    ReadJoined([], texts, fields);
    assert [] + fields[..|fields| - 1] == fields[..|fields| - 1];
  }

  // ----- named fields -----

  /** A named value with whatever whitespace stands before it. */
  datatype Attribute = Attribute(lead: string, name: string, value: string)

  function AttributeText(a: Attribute): string {
    a.lead + (a.name + "=" + a.value)
  }

  function AttributeTexts(attributes: seq<Attribute>): (r: seq<string>)
    ensures |r| == |attributes|
  {
    seq(|attributes|, i requires 0 <= i < |attributes| => AttributeText(attributes[i]))
  }

  predicate Proper(a: Attribute) {
    && '=' !in a.name && (a.name == "" || !IsSpace(a.name[0]))
    && forall i :: 0 <= i < |a.lead| ==> IsSpace(a.lead[i])
  }

  function FirstNamed(attributes: seq<Attribute>, name: string): Option<string> {
    if attributes == [] then None
    else if attributes[0].name == name then Some(attributes[0].value)
    else FirstNamed(attributes[1..], name)
  }

  lemma {:induction false} TrimEndAfter(a: string, b: string)
    requires a != [] && !IsSpace(a[|a| - 1])
    ensures TrimEnd(a + b) == a + TrimEnd(b)
    decreases |b|
  {
    if b == [] {
      assert a + b == a;
    } else if IsSpace(b[|b| - 1]) {
      TrimEndAfter(a, b[..|b| - 1]);
      assert (a + b)[..|a + b| - 1] == a + b[..|b| - 1];
    }
  }

  lemma {:induction false} TrimStartAfter(lead: string, s: string)
    requires s != [] && !IsSpace(s[0]) && forall i :: 0 <= i < |lead| ==> IsSpace(lead[i])
    ensures TrimStart(lead + s) == s
  {
    if lead == [] {
      assert lead + s == s;
    } else {
      TrimStartAfter(lead[1..], s);
      assert (lead + s)[1..] == lead[1..] + s;
    }
  }

  /** Trimming a named field removes what stands before it and touches the end of its value. */
  lemma TrimNamed(a: Attribute)
    requires Proper(a)
    ensures Trim(AttributeText(a)) == a.name + "=" + TrimEnd(a.value)
  {
    TrimStartAfter(a.lead, a.name + "=" + a.value);
    TrimEndAfter(a.name + "=", a.value);
  }

  /** Two separator-free names that prefix the same text up to its first equals sign are the same. */
  lemma PrefixNames(name: string, other: string, value: string)
    requires '=' !in name && '=' !in other
    ensures name + "=" <= other + "=" + value <==> name == other
  {
    var text := other + "=" + value;
    if name + "=" <= text {
      assert (name + "=")[|name|] == text[|name|] && text[|other|] == '=';
      assert |name| == |other|;
      assert name == text[..|name|] && other == text[..|other|];
    }
  }

  lemma {:induction false} FirstNamedField(attributes: seq<Attribute>, name: string)
    requires '=' !in name && forall i :: 0 <= i < |attributes| ==> Proper(attributes[i])
    ensures FirstWithPrefix(AttributeTexts(attributes), name + "=") ==
      match FirstNamed(attributes, name) {
        case Some(value) => Some(TrimEnd(value))
        case None => None
      }
  {
    if attributes != [] {
      var a := attributes[0];
      FirstNamedField(attributes[1..], name);
      assert AttributeTexts(attributes)[1..] == AttributeTexts(attributes[1..]);
      TrimNamed(a);
      PrefixNames(name, a.name, TrimEnd(a.value));
      if a.name == name {
        assert (name + "=" + TrimEnd(a.value))[|name + "="|..] == TrimEnd(a.value);
      }
    }
  }

  /**
   For every list of named fields, however escaped and spaced, joined by commas, extraction finds the value of the first
   field of that name, losing only whitespace at its end.
   */
  lemma {:induction false} ExtractFindsFirst(texts: seq<string>, attributes: seq<Attribute>, name: string)
    requires attributes != [] && EscapesAll(texts, AttributeTexts(attributes))
    requires '=' !in name && forall i :: 0 <= i < |attributes| ==> Proper(attributes[i])
    ensures Extract(Join(texts, ','), name) ==
      match FirstNamed(attributes, name) {
        case Some(value) => Some(TrimEnd(value))
        case None => None
      }
  {
    FieldsInvertEscape(texts, AttributeTexts(attributes));
    FirstNamedField(attributes, name);
  }

  /** Trimming removes the whitespace at both ends and nothing else. */
  lemma TrimMeans(lead: string, core: string, trail: string)
    requires core != [] && !IsSpace(core[0]) && !IsSpace(core[|core| - 1])
    requires forall i :: 0 <= i < |lead| ==> IsSpace(lead[i])
    requires forall i :: 0 <= i < |trail| ==> IsSpace(trail[i])
    ensures Trim(lead + (core + trail)) == core
  {
    TrimStartAfter(lead, core + trail);
    TrimEndAfter(core, trail);
    TrimEndOfSpace(trail);
  }

  lemma {:induction false} TrimEndOfSpace(s: string)
    requires forall i :: 0 <= i < |s| ==> IsSpace(s[i])
    ensures TrimEnd(s) == []
  {
    if s != [] {
      TrimEndOfSpace(s[..|s| - 1]);
    }
  }

  lemma {:induction false} FirstWithPrefixIs(fields: seq<string>, prefix: string, i: nat)
    requires i < |fields| && prefix <= Trim(fields[i]) && forall k :: 0 <= k < i ==> !(prefix <= Trim(fields[k]))
    ensures FirstWithPrefix(fields, prefix) == Some(Trim(fields[i])[|prefix|..])
  {
    if i > 0 {
      FirstWithPrefixIs(fields[1..], prefix, i - 1);
    }
  }

  /** For any subject at all: the first field that is, trimmed, `name=` and a value gives the value. */
  lemma ExtractMeans(subject: string, name: string)
    ensures forall i: nat, value :: FirstToName(Fields(subject), name, i, value) ==>
      Extract(subject, name) == Some(value)
    ensures Extract(subject, name).Some? ==>
      exists i: nat :: FirstToName(Fields(subject), name, i, Extract(subject, name).value)
  {
    var fields, prefix := Fields(subject), name + "=";
    forall i: nat, value | FirstToName(fields, name, i, value) ensures Extract(subject, name) == Some(value) {
      FirstWithPrefixIs(fields, prefix, i);
      assert (prefix + value)[|prefix|..] == value;
    }
    if Extract(subject, name).Some? {
      var i := FindNamed(fields, name);
      var value := Trim(fields[i])[|prefix|..];
      assert Trim(fields[i]) == prefix + value;
      FirstWithPrefixIs(fields, prefix, i);
      assert FirstToName(fields, name, i, value);
    }
  }

  predicate FirstToName(fields: seq<string>, name: string, i: nat, value: string) {
    && i < |fields| && Trim(fields[i]) == name + "=" + value
    && forall k :: 0 <= k < i ==> !(name + "=" <= Trim(fields[k]))
  }

  lemma {:induction false} FindNamed(fields: seq<string>, name: string) returns (i: nat)
    requires FirstWithPrefix(fields, name + "=").Some?
    ensures i < |fields| && name + "=" <= Trim(fields[i]) && forall k :: 0 <= k < i ==> !(name + "=" <= Trim(fields[k]))
  {
    if name + "=" <= Trim(fields[0]) {
      i := 0;
    } else {
      var j := FindNamed(fields[1..], name);
      i := j + 1;
      assert forall k :: 1 <= k <= i ==> fields[k] == fields[1..][k - 1];
    }
  }
}
