/** UTF-8 well-formedness and the lossy decoding of `String::from_utf8_lossy`, as bytes to bytes. */
module Utf8 {
  import opened Basics

  predicate Continuation(b: byte) {
    0x80 <= b <= 0xBF
  }

  /** Bytes in the sequence a lead byte starts; zero if it starts none. */
  function Width(lead: byte): nat {
    if lead < 0x80 then 1
    else if 0xC2 <= lead <= 0xDF then 2
    else if 0xE0 <= lead <= 0xEF then 3
    else if 0xF0 <= lead <= 0xF4 then 4
    else 0
  }

  /** Second bytes a lead byte admits: no overlong forms, no surrogates, nothing above U+10FFFF. */
  predicate SecondByte(lead: byte, b: byte) {
    && Continuation(b)
    && (lead == 0xE0 ==> b >= 0xA0)
    && (lead == 0xED ==> b <= 0x9F)
    && (lead == 0xF0 ==> b >= 0x90)
    && (lead == 0xF4 ==> b <= 0x8F)
  }

  /** How many leading bytes of a non-empty text belong to one sequence, complete or cut short. */
  function SequencePrefix(s: Bytes): (n: nat)
    requires s != []
    ensures 1 <= n <= |s|
    ensures n <= Max(1, Width(s[0]))
  {
    var w := Width(s[0]);
    if w <= 1 || |s| < 2 || !SecondByte(s[0], s[1]) then 1
    else if w == 2 || |s| < 3 || !Continuation(s[2]) then 2
    else if w == 3 || |s| < 4 || !Continuation(s[3]) then 3
    else 4
  }

  const REPLACEMENT: Bytes := [0xEF, 0xBF, 0xBD]

  predicate Valid(s: Bytes) {
    s == [] || (SequencePrefix(s) == Width(s[0]) && Valid(s[SequencePrefix(s)..]))
  }

  /** Each maximal ill-formed piece becomes one replacement character. */
  function Lossy(s: Bytes): Bytes {
    if s == [] then []
    else
      var n := SequencePrefix(s);
      (if n == Width(s[0]) then s[..n] else REPLACEMENT) + Lossy(s[n..])
  }

  lemma {:induction false} LossyKeepsValid(s: Bytes)
    requires Valid(s)
    ensures Lossy(s) == s
  {
    if s != [] {
      var n := SequencePrefix(s);
      LossyKeepsValid(s[n..]);
      assert s == s[..n] + s[n..];
    }
  }

  // ----- against the code points of section 3 of RFC 3629 -----

  predicate Scalar(cp: nat) {
    cp < 0x11_0000 && !(0xD800 <= cp < 0xE000)
  }

  /** The encoding of one code point. */
  function EncodeScalar(cp: nat): (b: Bytes)
    requires Scalar(cp)
    ensures b != []
  {
    if cp < 0x80 then [cp]
    else if cp < 0x800 then [0xC0 + cp / 0x40, 0x80 + cp % 0x40]
    else if cp < 0x1_0000 then [0xE0 + cp / 0x1000, 0x80 + cp / 0x40 % 0x40, 0x80 + cp % 0x40]
    else [0xF0 + cp / 0x4_0000, 0x80 + cp / 0x1000 % 0x40, 0x80 + cp / 0x40 % 0x40, 0x80 + cp % 0x40]
  }

  predicate AllScalar(cps: seq<nat>) {
    forall i :: 0 <= i < |cps| ==> Scalar(cps[i])
  }

  function EncodeText(cps: seq<nat>): Bytes
    requires AllScalar(cps)
  {
    if cps == [] then [] else EncodeScalar(cps[0]) + EncodeText(cps[1..])
  }

  lemma ThreeByteShape(cp: nat)
    requires Scalar(cp) && 0x800 <= cp < 0x1_0000
    ensures
      var lead, second := cp / 0x1000, cp / 0x40 % 0x40;
      lead < 0x10 && (lead == 0 ==> second >= 0x20) && (lead == 0xD ==> second < 0x20)
  {
    var q := cp / 0x40;
    assert cp / 0x1000 == q / 0x40 && q == 0x40 * (q / 0x40) + q % 0x40;
    assert 0x20 <= q < 0x400 && !(0x360 <= q < 0x380);
  }

  lemma FourByteShape(cp: nat)
    requires Scalar(cp) && 0x1_0000 <= cp
    ensures
      var lead, second := cp / 0x4_0000, cp / 0x1000 % 0x40;
      lead < 5 && (lead == 0 ==> second >= 0x10) && (lead == 4 ==> second < 0x10)
  {
    var q := cp / 0x1000;
    assert cp / 0x4_0000 == q / 0x40 && q == 0x40 * (q / 0x40) + q % 0x40;
    assert 0x10 <= q < 0x110;
  }

  /** An encoding is one complete sequence. */
  lemma ScalarShape(cp: nat)
    requires Scalar(cp)
    ensures
      var e := EncodeScalar(cp);
      && Width(e[0]) == |e| <= 4 && (|e| > 1 ==> SecondByte(e[0], e[1]))
      && forall i :: 2 <= i < |e| ==> Continuation(e[i])
  {
    if 0x80 <= cp < 0x800 {
      assert 2 <= cp / 0x40 < 0x20;
    } else if 0x800 <= cp < 0x1_0000 {
      ThreeByteShape(cp);
    } else if 0x1_0000 <= cp {
      FourByteShape(cp);
    }
  }

  /** As much of a text as agrees with an encoding belongs to one sequence. */
  lemma AgreeingPrefix(cp: nat, s: Bytes, m: nat)
    requires Scalar(cp) && 0 < m <= |s| && m <= |EncodeScalar(cp)| && s[..m] == EncodeScalar(cp)[..m]
    ensures SequencePrefix(s) >= m && Width(s[0]) == |EncodeScalar(cp)|
  {
    hide EncodeScalar, Width, SecondByte, Continuation;
    var e := EncodeScalar(cp);
    ScalarShape(cp);
    assert forall i :: 0 <= i < m ==> s[i] == s[..m][i] == e[..m][i] == e[i];
  }

  lemma LastDigit(q: nat, d: nat)
    requires d < 0x40
    ensures (q * 0x40 + d) / 0x40 == q && (q * 0x40 + d) % 0x40 == d
  {
  }

  lemma TwoDigits(q: nat, r: nat)
    requires r < 0x1000
    ensures (q * 0x1000 + r) / 0x1000 == q
  {
  }

  lemma ThreeDigits(q: nat, r: nat)
    requires r < 0x4_0000
    ensures (q * 0x4_0000 + r) / 0x4_0000 == q
  {
  }

  /** Six-bit digits are recovered by division. */
  lemma Digits(a: nat, b: nat, c: nat, d: nat)
    requires b < 0x40 && c < 0x40 && d < 0x40
    ensures
      var n := a * 0x4_0000 + b * 0x1000 + c * 0x40 + d;
      && n % 0x40 == d && n / 0x40 % 0x40 == c && n / 0x1000 % 0x40 == b && n / 0x4_0000 == a
      && n / 0x40 == a * 0x1000 + b * 0x40 + c && n / 0x1000 == a * 0x40 + b
  {
    LastDigit(a * 0x1000 + b * 0x40 + c, d);
    LastDigit(a * 0x40 + b, c);
    LastDigit(a, b);
    TwoDigits(a * 0x40 + b, c * 0x40 + d);
    ThreeDigits(a, b * 0x1000 + c * 0x40 + d);
  }

  /** A complete sequence encodes a code point. */
  lemma CompleteIsScalar(s: Bytes) returns (cp: nat)
    requires s != [] && SequencePrefix(s) == Width(s[0])
    ensures Scalar(cp) && s[..SequencePrefix(s)] == EncodeScalar(cp)
  {
    var n, a := SequencePrefix(s), s[0] as int;
    if n == 1 {
      cp := a;
    } else if n == 2 {
      Digits(0, 0, a - 0xC0, s[1] - 0x80);
      cp := (a - 0xC0) * 0x40 + (s[1] - 0x80);
    } else if n == 3 {
      Digits(0, a - 0xE0, s[1] - 0x80, s[2] - 0x80);
      cp := (a - 0xE0) * 0x1000 + (s[1] as int - 0x80) * 0x40 + (s[2] - 0x80);
      assert cp < 0x1_0000;
    } else {
      Digits(a - 0xF0, s[1] - 0x80, s[2] - 0x80, s[3] - 0x80);
      cp := (a - 0xF0) * 0x4_0000 + (s[1] as int - 0x80) * 0x1000 + (s[2] as int - 0x80) * 0x40 + (s[3] - 0x80);
      assert cp >= 0x1_0000;
    }
  }

  lemma {:induction false} ValidDecodes(s: Bytes) returns (cps: seq<nat>)
    requires Valid(s)
    ensures AllScalar(cps) && EncodeText(cps) == s
  {
    if s == [] {
      cps := [];
    } else {
      var n := SequencePrefix(s);
      var first := CompleteIsScalar(s);
      var rest := ValidDecodes(s[n..]);
      cps := [first] + rest;
      assert cps[1..] == rest && s == s[..n] + s[n..];
    }
  }

  lemma {:induction false} EncodedIsValid(cps: seq<nat>)
    requires AllScalar(cps)
    ensures Valid(EncodeText(cps))
  {
    if cps != [] {
      EncodedIsValid(cps[1..]);
      var e, s := EncodeScalar(cps[0]), EncodeText(cps);
      assert s[..|e|] == e[..|e|] && s[|e|..] == EncodeText(cps[1..]);
      AgreeingPrefix(cps[0], s, |e|);
    }
  }

  /** Well-formed means: the encoding of some code points, no surrogate among them. */
  lemma ValidIff(s: Bytes)
    ensures Valid(s) <==> exists cps :: AllScalar(cps) && EncodeText(cps) == s
  {
    if Valid(s) {
      var cps := ValidDecodes(s);
    }
    if cps :| AllScalar(cps) && EncodeText(cps) == s {
      EncodedIsValid(cps);
    }
  }

  /** Lossy decoding always yields well-formed text. */
  lemma {:induction false} LossyIsValid(s: Bytes)
    ensures Valid(Lossy(s))
  {
    if s != [] {
      var n := SequencePrefix(s);
      LossyIsValid(s[n..]);
      var front := if n == Width(s[0]) then s[..n] else REPLACEMENT;
      assert SequencePrefix(front + Lossy(s[n..])) == |front| == Width(front[0]);
      assert (front + Lossy(s[n..]))[|front|..] == Lossy(s[n..]);
    }
  }

  /** What is well-formed at the front is kept, whatever follows. */
  lemma {:induction false} LossyKeepsFront(cp: nat, rest: Bytes)
    requires Scalar(cp)
    ensures Lossy(EncodeScalar(cp) + rest) == EncodeScalar(cp) + Lossy(rest)
  {
    var e := EncodeScalar(cp);
    var s := e + rest;
    assert s[..|e|] == e[..|e|] && s[|e|..] == rest && e[..|e|] == e;
    AgreeingPrefix(cp, s, |e|);
  }

  /** The longest front of the text that some encoding starts with, or its first byte if there is none. */
  ghost predicate MaximalPiece(s: Bytes, n: nat) {
    && 1 <= n <= |s|
    && (n > 1 ==> exists cp :: Scalar(cp) && s[..n] <= EncodeScalar(cp))
    && forall m, cp :: n < m <= |s| && Scalar(cp) ==> !(s[..m] <= EncodeScalar(cp))
  }

  lemma SequencePrefixIsMaximal(s: Bytes)
    requires s != []
    ensures MaximalPiece(s, SequencePrefix(s))
  {
    var n := SequencePrefix(s);
    forall m, cp | n < m <= |s| && Scalar(cp) ensures !(s[..m] <= EncodeScalar(cp)) {
      if s[..m] <= EncodeScalar(cp) {
        AgreeingPrefix(cp, s, m);
      }
    }
    if n > 1 {
      var w := Width(s[0]);
      var t := s[..n] + seq(w - n, _ => 0x80);
      assert SequencePrefix(t) == w;
      var cp := CompleteIsScalar(t);
      assert t[..w] == t && s[..n] <= EncodeScalar(cp);
    }
  }

  lemma IllFormedFront(s: Bytes)
    requires s != [] && forall cp :: Scalar(cp) ==> !(EncodeScalar(cp) <= s)
    ensures SequencePrefix(s) != Width(s[0])
  {
    if SequencePrefix(s) == Width(s[0]) {
      var cp := CompleteIsScalar(s);
    }
  }

  /** Ill-formed text loses its maximal piece to one replacement character at a time. */
  lemma LossyReplaces(s: Bytes, n: nat)
    requires s != [] && MaximalPiece(s, n) && forall cp :: Scalar(cp) ==> !(EncodeScalar(cp) <= s)
    ensures Lossy(s) == [0xEF, 0xBF, 0xBD] + Lossy(s[n..])
  {
    SequencePrefixIsMaximal(s);
    IllFormedFront(s);
    assert SequencePrefix(s) == n;
  }
}
