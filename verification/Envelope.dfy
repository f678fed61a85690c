/** Container framing (crates/umbrik-core/src/header.rs): prelude, version, length, header, HMAC, payload. */
module EnvelopeModel {
  import opened Basics

  const PRELUDE: Bytes := [0x43, 0x44, 0x4F, 0x43] // "CDOC"
  const VERSION: byte := 0x02
  const ENVELOPE_PREFIX_LEN: nat := 9
  const HMAC_LEN: nat := 32
  const MIN_HEADER_LEN: nat := 67
  const MAX_HEADER_LEN: nat := 1024 * 1024
  const MIN_PAYLOAD_LEN: nat := 45

  datatype Envelope = Envelope(headerBytes: Bytes, headerHmac: Bytes, payload: Bytes)

  // ----- big-endian 32-bit length -----

  const U32_LIMIT: nat := 0x1_0000_0000

  function ToBigEndian(n: nat): (b: Bytes)
    requires n < U32_LIMIT
    ensures |b| == 4
  {
    var q1 := n / 256;
    var q2 := q1 / 256;
    [q2 / 256, q2 % 256, q1 % 256, n % 256]
  }

  function FromBigEndian(b: Bytes): (n: nat)
    requires |b| == 4
    ensures n < U32_LIMIT
  {
    ((b[0] as int * 256 + b[1]) * 256 + b[2]) * 256 + b[3]
  }

  lemma BigEndianRoundTrip(n: nat)
    requires n < U32_LIMIT
    ensures FromBigEndian(ToBigEndian(n)) == n
  {
  }

  /** Four bytes are determined by the number they spell. */
  lemma BigEndianInjective(b: Bytes)
    requires |b| == 4
    ensures ToBigEndian(FromBigEndian(b)) == b
  {
    var n := FromBigEndian(b);
    assert n / 256 == (b[0] as int * 256 + b[1]) * 256 + b[2];
    assert n / 256 / 256 == b[0] as int * 256 + b[1];
  }

  // ----- writer and parser -----

  /** The bytes `encrypt` writes around a header, its HMAC and an encrypted payload. */
  function Frame(env: Envelope): (b: Bytes)
    requires |env.headerBytes| < U32_LIMIT
  {
    PRELUDE + [VERSION] + ToBigEndian(|env.headerBytes|) + env.headerBytes + env.headerHmac + env.payload
  }

  /** The bounds the parser demands of the three variable parts. */
  predicate InBounds(env: Envelope) {
    && MIN_HEADER_LEN <= |env.headerBytes| <= MAX_HEADER_LEN
    && |env.headerHmac| == HMAC_LEN
    && MIN_PAYLOAD_LEN <= |env.payload|
  }

  /** `Envelope::parse`. */
  function Parse(buf: Bytes): (r: Result<Envelope>)
    ensures r.Ok? ==> InBounds(r.value)
  {
    if |buf| < ENVELOPE_PREFIX_LEN then
      Err(Truncated(ENVELOPE_PREFIX_LEN, |buf|))
    else if buf[..4] != PRELUDE then
      Err(BadPrelude)
    else if buf[4] != VERSION then
      Err(UnsupportedVersion(buf[4]))
    else
      var headerLen := FromBigEndian(buf[5..9]);
      if headerLen < MIN_HEADER_LEN || headerLen > MAX_HEADER_LEN then
        Err(HeaderLengthOutOfRange(headerLen))
      else
        var rest := buf[ENVELOPE_PREFIX_LEN..];
        if |rest| < headerLen then
          Err(Truncated(ENVELOPE_PREFIX_LEN + headerLen, |buf|))
        else
          var afterHeader := rest[headerLen..];
          if |afterHeader| < HMAC_LEN then
            Err(Truncated(ENVELOPE_PREFIX_LEN + headerLen + HMAC_LEN, |buf|))
          else if |afterHeader| - HMAC_LEN < MIN_PAYLOAD_LEN then
            Err(Truncated(ENVELOPE_PREFIX_LEN + headerLen + HMAC_LEN + MIN_PAYLOAD_LEN, |buf|))
          else
            Ok(Envelope(rest[..headerLen], afterHeader[..HMAC_LEN], afterHeader[HMAC_LEN..]))
  }

  /** Where the parts of a frame lie. */
  lemma FrameSlices(env: Envelope)
    requires |env.headerBytes| < U32_LIMIT && |env.headerHmac| == HMAC_LEN
    ensures
      var b, n := Frame(env), |env.headerBytes|;
      && |b| == ENVELOPE_PREFIX_LEN + n + HMAC_LEN + |env.payload|
      && b[..4] == PRELUDE && b[4] == VERSION && b[5..9] == ToBigEndian(n)
      && b[9..][..n] == env.headerBytes
      && b[9..][n..][..HMAC_LEN] == env.headerHmac
      && b[9..][n..][HMAC_LEN..] == env.payload
  {
  }

  lemma ParseInvertsFrame(env: Envelope)
    requires InBounds(env)
    ensures Parse(Frame(env)) == Ok(env)
  {
    FrameSlices(env);
    BigEndianRoundTrip(|env.headerBytes|);
  }

  lemma FrameInvertsParse(buf: Bytes)
    requires Parse(buf).Ok?
    ensures Frame(Parse(buf).value) == buf
  {
    hide ToBigEndian, FromBigEndian;
    var env := Parse(buf).value;
    var n := FromBigEndian(buf[5..9]);
    BigEndianInjective(buf[5..9]);
    var rest := buf[9..];
    assert env == Envelope(rest[..n], rest[n..][..HMAC_LEN], rest[n..][HMAC_LEN..]);
    assert buf[..9] == buf[..4] + [buf[4]] + buf[5..9];
    assert buf == buf[..9] + (rest[..n] + (rest[n..][..HMAC_LEN] + rest[n..][HMAC_LEN..]));
  }

  /** The parser accepts exactly what the writer produces from in-bounds parts, and recovers them. */
  lemma ParseIffFramed(buf: Bytes, env: Envelope)
    ensures Parse(buf) == Ok(env) <==> InBounds(env) && buf == Frame(env)
  {
    if Parse(buf) == Ok(env) {
      FrameInvertsParse(buf);
    }
    if InBounds(env) && buf == Frame(env) {
      ParseInvertsFrame(env);
    }
  }

  /**
   Cutting an accepted container anywhere short of its end is reported as a truncation that
   asks for more bytes than there are, or leaves header and HMAC intact with less payload.
   */
  lemma ProperPrefixIsTruncated(buf: Bytes, cut: nat)
    requires Parse(buf).Ok? && cut < |buf|
    ensures
      var env, r := Parse(buf).value, Parse(buf[..cut]);
      || (r.Err? && r.error.Truncated? && r.error.expected > r.error.available == cut)
      || (r.Ok? && r.value.headerBytes == env.headerBytes && r.value.headerHmac == env.headerHmac
          && r.value.payload < env.payload)
  {
    var short := buf[..cut];
    if cut >= ENVELOPE_PREFIX_LEN {
      assert short[..4] == buf[..4] && short[5..9] == buf[5..9];
      var n := FromBigEndian(buf[5..9]);
      var rest, rest' := buf[9..], short[9..];
      assert rest' == rest[..cut - 9];
      if |rest'| >= n + HMAC_LEN {
        assert rest'[..n] == rest[..n];
        assert rest'[n..][..HMAC_LEN] == rest[n..][..HMAC_LEN];
        assert rest'[n..][HMAC_LEN..] == rest[n..][HMAC_LEN..][..|rest'| - n - HMAC_LEN];
      }
    }
  }

  /** Which refusal an input gets, from its length and its first nine bytes; everything else parses. */
  lemma ParseRefusals(buf: Bytes)
    ensures
      var size := |buf|;
      if size < 9 then Parse(buf) == Err(Truncated(9, size))
      else
        var n: int := buf[5] as int * 0x100_0000 + buf[6] as int * 0x1_0000 + buf[7] as int * 0x100 + buf[8];
        if !(Ascii("CDOC") <= buf) then Parse(buf) == Err(BadPrelude)
        else if buf[4] != 2 then Parse(buf) == Err(UnsupportedVersion(buf[4]))
        else if !(67 <= n <= 1_048_576) then Parse(buf) == Err(HeaderLengthOutOfRange(n))
        else if size < 9 + n then Parse(buf) == Err(Truncated(9 + n, size))
        else if size < 41 + n then Parse(buf) == Err(Truncated(41 + n, size))
        else if size < 86 + n then Parse(buf) == Err(Truncated(86 + n, size))
        else Parse(buf) == Ok(Envelope(buf[9..9 + n], buf[9 + n..41 + n], buf[41 + n..]))
  {
    if |buf| >= 9 {
      var n := FromBigEndian(buf[5..9]);
      assert Ascii("CDOC") == PRELUDE;
      assert Ascii("CDOC") <= buf <==> buf[..4] == PRELUDE;
      if |buf| >= 86 + n {
        assert buf[9..][..n] == buf[9..9 + n] && buf[9..][n..] == buf[9 + n..];
        assert buf[9 + n..][..HMAC_LEN] == buf[9 + n..41 + n] && buf[9 + n..][HMAC_LEN..] == buf[41 + n..];
      }
    }
  }
}
