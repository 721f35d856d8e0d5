/** The dependency-free token check of `lib/edge-jwt.ts`: JWS compact
    serialization (section 7.1 of RFC 7515) with HMAC SHA-256 (section 3.2 of
    RFC 7518) and the `exp` claim (section 4.1.4 of RFC 7519). The platform's
    base64 decoder, UTF-8 codec, JSON parser and HMAC primitive are parameters
    of the model. */
module EdgeJwt {
  import opened Wrappers
  import opened JsString
  import opened Auth

  newtype byte = b: int | 0 <= b < 256

  /** A decoded JWS header: the value of its `alg` member, if any. */
  datatype JoseHeader = JoseHeader(alg: Option<string>)

  /** The platform calls the verifier makes. `None` stands for a thrown
      exception (invalid base64 for `atob`, invalid JSON or a non-object for
      the parsers); `TextDecoder.decode` and `TextEncoder.encode` never throw. */
  datatype Platform = Platform(
    atob: string -> Option<string>,
    decodeUtf8: seq<byte> -> string,
    utf8Encode: string -> seq<byte>,
    parseHeader: string -> Option<JoseHeader>,
    parsePayload: string -> Option<JwtPayload>,
    hmacSha256Verify: (seq<byte>, seq<byte>, seq<byte>) -> bool)

  // ---------------------------------------------------------------------
  // base64url to base64 (section 5 of RFC 4648)

  const TwoTo32: int := 0x1_0000_0000
  const TwoTo31: int := 0x8000_0000

  /** ECMAScript ToInt32: the operand of a shift, wrapped to a signed 32-bit value. */
  function ToInt32(x: int): (r: int)
    ensures -TwoTo31 <= r < TwoTo31
    ensures -TwoTo31 <= x < TwoTo31 ==> r == x
  {
    var m := x % TwoTo32;
    if m >= TwoTo31 then m - TwoTo32 else m
  }

  /** `((n + 3) >> 2) << 2`: `>>` is an arithmetic shift of a 32-bit value
      (division by 4 rounding down), `<<` multiplies by 4 and wraps again. */
  function PadTarget(n: int): int {
    ToInt32((ToInt32(n + 3) / 4) * 4)
  }

  /** For every length a JavaScript string can have, the pad target is the
      least multiple of 4 not below the length. */
  lemma PadTargetIsRoundUp(n: int)
    requires 0 <= n <= TwoTo31 - 4
    ensures PadTarget(n) % 4 == 0
    ensures n <= PadTarget(n) < n + 4
  {
    assert ToInt32(n + 3) == n + 3;
    var q := (n + 3) / 4;
    assert 0 <= q * 4 <= n + 3 < TwoTo31;
    assert PadTarget(n) == q * 4;
  }

  /** `replace(/-/g, "+").replace(/_/g, "/")` on one character. */
  function UrlToStdChar(c: char): char {
    if c == '-' then '+' else if c == '_' then '/' else c
  }

  /** The base64 text handed to `atob`: characters mapped from the URL-safe
      alphabet to the standard one, then `padEnd` with '=' to the pad target. */
  function ToPaddedBase64(s: string): (r: string)
    ensures |s| <= |r|
    ensures forall i :: 0 <= i < |s| ==> r[i] == UrlToStdChar(s[i])
    ensures forall i :: |s| <= i < |r| ==> r[i] == '='
  {
    var mapped := seq(|s|, i requires 0 <= i < |s| => UrlToStdChar(s[i]));
    PadEnd(mapped, PadTarget(|s|), '=')
  }

  /** The padded text of a segment of JavaScript-string length is a whole
      number of 4-character base64 quanta, with fewer than four '=' added. */
  lemma PaddedLength(s: string)
    requires |s| <= TwoTo31 - 4
    ensures |ToPaddedBase64(s)| % 4 == 0
    ensures |s| <= |ToPaddedBase64(s)| < |s| + 4
  {
    PadTargetIsRoundUp(|s|);
  }

  /** `bytes[i] = binary.charCodeAt(i)`: a `Uint8Array` keeps the code modulo 256. */
  function CharByte(c: char): byte {
    ((c as int) % 256) as byte
  }

  function CharCodes(binary: string): (bytes: seq<byte>)
    ensures |bytes| == |binary|
    ensures forall i :: 0 <= i < |binary| ==> bytes[i] == CharByte(binary[i])
  {
    seq(|binary|, i requires 0 <= i < |binary| => CharByte(binary[i]))
  }

  /** The byte loop of `base64UrlToUint8Array`: a new array as long as the
      decoded text, each byte the code of the character at its index. */
  method BinaryToBytes(binary: string) returns (bytes: array<byte>)
    ensures bytes.Length == |binary|
    ensures bytes[..] == CharCodes(binary)
  {
    bytes := new byte[|binary|];
    for i := 0 to |binary|
      invariant forall j :: 0 <= j < i ==> bytes[j] == CharByte(binary[j])
    {
      bytes[i] := CharByte(binary[i]);
    }
  }

  /** `base64UrlToUint8Array` as a value: `None` when `atob` throws. */
  function Base64UrlDecode(P: Platform, s: string): Option<seq<byte>> {
    match P.atob(ToPaddedBase64(s))
    case None => None
    case Some(binary) => Some(CharCodes(binary))
  }

  /** `base64UrlToUint8Array`: pad and map, decode with `atob`, copy the
      character codes into a fresh byte array. */
  method Base64UrlToUint8Array(P: Platform, s: string) returns (r: Option<array<byte>>)
    ensures r.None? <==> Base64UrlDecode(P, s).None?
    ensures r.Some? ==> r.value[..] == Base64UrlDecode(P, s).value
  {
    var binary := P.atob(ToPaddedBase64(s));
    if binary.None? {
      return None;
    }
    var bytes := BinaryToBytes(binary.value);
    r := Some(bytes);
  }

  // ---------------------------------------------------------------------
  // verifyJwtHS256

  function DecodeHeader(P: Platform, segment: string): Option<JoseHeader> {
    match Base64UrlDecode(P, segment)
    case None => None
    case Some(b) => P.parseHeader(P.decodeUtf8(b))
  }

  function DecodePayload(P: Platform, segment: string): Option<JwtPayload> {
    match Base64UrlDecode(P, segment)
    case None => None
    case Some(b) => P.parsePayload(P.decodeUtf8(b))
  }

  /** The signature segment decodes and the HMAC over `"<header>.<payload>"`
      under the secret verifies. */
  predicate SignatureValid(P: Platform, secret: string, header: string, payload: string, signature: string) {
    match Base64UrlDecode(P, signature)
    case None => false
    case Some(sig) => P.hmacSha256Verify(P.utf8Encode(secret), sig, P.utf8Encode(header + "." + payload))
  }

  /** `Math.floor(Date.now() / 1000)`: whole seconds since the epoch. */
  function NowSeconds(nowMs: int): int {
    nowMs / 4 / 250
  }

  /** `payload.exp && nowSeconds >= payload.exp`: an `exp` of 0 is falsy and
      imposes no time check. */
  predicate Expired(p: JwtPayload, nowMs: int) {
    p.exp.Some? && p.exp.value != 0 && NowSeconds(nowMs) >= p.exp.value
  }

  /** `verifyJwtHS256`: split into three segments, check the header's `alg`,
      decode the payload, check the signature, check `exp`; every failure and
      every exception yields `None`. */
  function VerifyJwtHS256(P: Platform, token: string, secret: string, nowMs: int): Option<JwtPayload> {
    var parts := Split(token, '.');
    if |parts| != 3 then None
    else
      match DecodeHeader(P, parts[0])
      case None => None
      case Some(header) =>
        if header.alg != Some("HS256") then None
        else
          match DecodePayload(P, parts[1])
          case None => None
          case Some(payload) =>
            if !SignatureValid(P, secret, parts[0], parts[1], parts[2]) then None
            else if Expired(payload, nowMs) then None
            else Some(payload)
  }

  /** Acceptance is exactly the conjunction of the four checks, and what is
      accepted is the payload as decoded. */
  lemma VerifyAcceptsIff(P: Platform, token: string, secret: string, nowMs: int)
    ensures VerifyJwtHS256(P, token, secret, nowMs).Some? <==>
      var parts := Split(token, '.');
      && |parts| == 3
      && DecodeHeader(P, parts[0]).Some? && DecodeHeader(P, parts[0]).value.alg == Some("HS256")
      && DecodePayload(P, parts[1]).Some?
      && SignatureValid(P, secret, parts[0], parts[1], parts[2])
      && !Expired(DecodePayload(P, parts[1]).value, nowMs)
    ensures VerifyJwtHS256(P, token, secret, nowMs).Some? ==>
      VerifyJwtHS256(P, token, secret, nowMs).value == DecodePayload(P, Split(token, '.')[1]).value
  {
  }

  /** A token that does not hold exactly two '.' separators is rejected. */
  lemma VerifyNeedsTwoDots(P: Platform, token: string, secret: string, nowMs: int)
    ensures Count(token, '.') != 2 ==> VerifyJwtHS256(P, token, secret, nowMs) == None
  {
    SplitCount(token, '.');
  }

  /** An accepted token is its header, payload and signature segments joined
      by '.', so the signed data is the token up to its last '.'. */
  lemma VerifyAcceptsThreeSegments(P: Platform, token: string, secret: string, nowMs: int)
    ensures VerifyJwtHS256(P, token, secret, nowMs).Some? ==>
      var parts := Split(token, '.');
      |parts| == 3 && token == parts[0] + "." + parts[1] + "." + parts[2]
  {
    SplitJoin(token, '.');
    var parts := Split(token, '.');
    if |parts| == 3 {
      assert Join(parts, '.') == parts[0] + "." + Join(parts[1..], '.');
      assert Join(parts[1..], '.') == parts[1] + "." + Join(parts[2..], '.');
    }
  }

  /** Expiry is a deadline: a token accepted at some time is accepted at every
      earlier time, and one without a truthy `exp` is judged the same at all times. */
  lemma VerifyEarlierStillAccepts(P: Platform, token: string, secret: string, t1: int, t2: int)
    requires t1 <= t2
    ensures VerifyJwtHS256(P, token, secret, t2).Some? ==> VerifyJwtHS256(P, token, secret, t1) == VerifyJwtHS256(P, token, secret, t2)
    ensures VerifyJwtHS256(P, token, secret, t1) != VerifyJwtHS256(P, token, secret, t2) ==>
      var r := VerifyJwtHS256(P, token, secret, t1);
      && r.Some? && VerifyJwtHS256(P, token, secret, t2).None?
      && r.value.exp.Some? && r.value.exp.value != 0
      && NowSeconds(t1) < r.value.exp.value <= NowSeconds(t2)
  {
    assert NowSeconds(t1) <= NowSeconds(t2) by {
      assert t1 / 4 <= t2 / 4;
    }
  }

  /** With a truthy `exp`, expiry is reached at millisecond `exp * 1000`
      exactly: the comparison is `>=` on whole seconds. */
  lemma ExpiredIff(p: JwtPayload, nowMs: int)
    ensures Expired(p, nowMs) <==> p.exp.Some? && p.exp.value != 0 && nowMs >= p.exp.value * 1000
  {
    if p.exp.Some? {
      var e := p.exp.value;
      assert nowMs / 4 / 250 >= e <==> nowMs / 4 >= e * 250;
      assert nowMs / 4 >= e * 250 <==> nowMs >= e * 1000;
    }
  }
}
