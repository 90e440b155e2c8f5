/** The stateless login cookie: `createAuthToken` signs `userId.expiresAt`
    and wraps `userId.expiresAt.signature` in base64url; `verifyAuthToken`
    unwraps, checks the signature and the expiry.

    The clock, the base64url codec and the HMAC-SHA256 keyed with the
    session secret are parameters. */
module AuthToken {
  import opened Wrappers
  import opened Text
  import opened Decimal

  /** `AUTH_TOKEN_TTL_SECONDS * 1000`: one day in milliseconds. */
  const AuthTokenTtlMs: int := 24 * 60 * 60 * 1000

  /** The base64url alphabet `[A-Za-z0-9_-]`. */
  predicate IsBase64UrlChar(c: char) {
    ('A' <= c <= 'Z') || ('a' <= c <= 'z') || ('0' <= c <= '9') || c == '-' || c == '_'
  }

  predicate AllBase64Url(s: string) {
    forall i :: 0 <= i < |s| ==> IsBase64UrlChar(s[i])
  }

  /** A `digest('base64url')`: non-empty text over the base64url alphabet. */
  type Digest = s: string | s != [] && AllBase64Url(s) witness "A"

  /** `Buffer.from(text).toString('base64url')` and its reverse. */
  datatype Codec = Codec(encode: string -> string, decode: string -> string)

  /** What the codec guarantees: decoding undoes encoding, and encodings of
      non-empty text are non-empty and use only the base64url alphabet. */
  ghost predicate ValidCodec(codec: Codec) {
    && (forall s :: codec.decode(codec.encode(s)) == s)
    && (forall s :: AllBase64Url(codec.encode(s)))
    && (forall s :: s != [] ==> codec.encode(s) != [])
  }

  type Signer = string -> Digest

  /** The text `${userId}.${expiresAt}` the signature covers. */
  function Payload(userId: int, expiresAt: int): string {
    IntToString(userId) + "." + IntToString(expiresAt)
  }

  /** `createAuthToken(userId)` at clock reading `now`. */
  function CreateAuthToken(userId: int, now: int, codec: Codec, sign: Signer): string {
    var payload := Payload(userId, now + AuthTokenTtlMs);
    codec.encode(payload + "." + sign(payload))
  }

  /** `verifyAuthToken` after the base64url decoding: the first three
      `.`-separated fields (any further ones are ignored) must all be
      non-empty, the third must be the signature of the first two, and both
      must read as integers with the expiry not yet passed. */
  function VerifyDecoded(decoded: string, now: int, sign: Signer): (r: Option<int>)
  {
    var parts := Split(decoded, '.');
    var userIdRaw := parts[0];
    var expiresAtRaw := if |parts| > 1 then parts[1] else "";
    var signature := if |parts| > 2 then parts[2] else "";
    if userIdRaw == [] || expiresAtRaw == [] || signature == [] then None
    else if signature != sign(userIdRaw + "." + expiresAtRaw) then None
    else
      var userId := ParseInt(userIdRaw);
      var expiresAt := ParseInt(expiresAtRaw);
      if userId.None? || expiresAt.None? then None
      else if now > expiresAt.value then None
      else Some(userId.value)
  }

  /** `verifyAuthToken(token)` at clock reading `now`. */
  function VerifyAuthToken(token: string, now: int, codec: Codec, sign: Signer): Option<int> {
    VerifyDecoded(codec.decode(token), now, sign)
  }

  /** The fields of a decoded token that verification looks at. */
  lemma SplitOfSignedText(userIdRaw: string, expiresAtRaw: string, signature: string, rest: seq<string>)
    requires '.' !in userIdRaw && '.' !in expiresAtRaw && '.' !in signature
    requires forall k :: 0 <= k < |rest| ==> '.' !in rest[k]
    ensures var parts := Split(Join([userIdRaw, expiresAtRaw, signature] + rest, '.'), '.');
      |parts| >= 3 && parts[0] == userIdRaw && parts[1] == expiresAtRaw && parts[2] == signature
  {
    var parts := [userIdRaw, expiresAtRaw, signature] + rest;
    SplitJoin(parts, '.');
  }

  lemma JoinOfThree(a: string, b: string, c: string)
    ensures Join([a, b, c], '.') == a + "." + b + "." + c
  {
    var parts := [a, b, c];
    assert parts[1..] == [b, c];
    assert parts[1..][1..] == [c];
    assert Join([b, c], '.') == b + "." + c;
    assert Join(parts, '.') == a + "." + (b + "." + c);
  }

  lemma NoDotInDigest(d: Digest)
    ensures '.' !in d
  {
  }

  /** A token minted for `userId` at `issuedAt` verifies to that user up to
      and including the expiry instant one day later, and to nothing after. */
  lemma TokenRoundTrip(userId: int, issuedAt: int, now: int, codec: Codec, sign: Signer)
    requires ValidCodec(codec)
    ensures VerifyAuthToken(CreateAuthToken(userId, issuedAt, codec, sign), now, codec, sign)
      == if now <= issuedAt + AuthTokenTtlMs then Some(userId) else None
  {
    var expiresAt := issuedAt + AuthTokenTtlMs;
    var payload := Payload(userId, expiresAt);
    var decoded := payload + "." + sign(payload);
    var token := CreateAuthToken(userId, issuedAt, codec, sign);
    assert token == codec.encode(decoded);
    assert codec.decode(token) == decoded;
    VerifySignedPayload(userId, expiresAt, now, sign);
    assert VerifyAuthToken(token, now, codec, sign) == VerifyDecoded(decoded, now, sign);
  }

  /** The decoded text of a minted token verifies to its user until it
      expires. */
  lemma VerifySignedPayload(userId: int, expiresAt: int, now: int, sign: Signer)
    ensures var payload := Payload(userId, expiresAt);
      VerifyDecoded(payload + "." + sign(payload), now, sign)
        == if now <= expiresAt then Some(userId) else None
  {
    var u, e := IntToString(userId), IntToString(expiresAt);
    var sig := sign(u + "." + e);
    NoDotInDigest(sig);
    JoinOfThree(u, e, sig);
    assert [u, e, sig] + [] == [u, e, sig];
    SplitOfSignedText(u, e, sig, []);
    ParseIntToString(userId);
    ParseIntToString(expiresAt);
  }

  /** Minted tokens are non-empty base64url text, fit for a cookie. */
  lemma TokenNonEmpty(userId: int, now: int, codec: Codec, sign: Signer)
    requires ValidCodec(codec)
    ensures var token := CreateAuthToken(userId, now, codec, sign);
      token != [] && AllBase64Url(token)
  {
    var payload := Payload(userId, now + AuthTokenTtlMs);
    assert payload + "." + sign(payload) != [];
  }

  /** Fields after the third are ignored: appending them to a decoded token
      changes nothing. */
  lemma ExtraFieldsIgnored(
    userIdRaw: string, expiresAtRaw: string, signature: string, rest: seq<string>,
    now: int, sign: Signer)
    requires '.' !in userIdRaw && '.' !in expiresAtRaw && '.' !in signature
    requires forall k :: 0 <= k < |rest| ==> '.' !in rest[k]
    ensures VerifyDecoded(Join([userIdRaw, expiresAtRaw, signature] + rest, '.'), now, sign)
      == VerifyDecoded(Join([userIdRaw, expiresAtRaw, signature], '.'), now, sign)
  {
    SplitOfSignedText(userIdRaw, expiresAtRaw, signature, rest);
    SplitOfSignedText(userIdRaw, expiresAtRaw, signature, []);
    assert [userIdRaw, expiresAtRaw, signature] + [] == [userIdRaw, expiresAtRaw, signature];
  }

  /** Only signed payloads pass: an accepted token decodes to at least three
      fields, the third being the signature over the first two, the second
      an expiry not yet passed and the first the user id returned. */
  lemma AcceptedTokenIsSigned(token: string, now: int, codec: Codec, sign: Signer)
    requires VerifyAuthToken(token, now, codec, sign).Some?
    ensures var parts := Split(codec.decode(token), '.');
      && |parts| >= 3
      && parts[2] == sign(parts[0] + "." + parts[1])
      && ParseInt(parts[0]) == VerifyAuthToken(token, now, codec, sign)
      && ParseInt(parts[1]).Some? && now <= ParseInt(parts[1]).value
  {
  }

  /** A decoded token whose signature field is not the signature of its
      first two fields is refused, whatever the clock says. */
  lemma ForgedSignatureRejected(
    userIdRaw: string, expiresAtRaw: string, signature: string, now: int, sign: Signer)
    requires '.' !in userIdRaw && '.' !in expiresAtRaw && '.' !in signature
    requires signature != sign(userIdRaw + "." + expiresAtRaw)
    ensures VerifyDecoded(userIdRaw + "." + expiresAtRaw + "." + signature, now, sign) == None
  {
    JoinOfThree(userIdRaw, expiresAtRaw, signature);
    assert [userIdRaw, expiresAtRaw, signature] + [] == [userIdRaw, expiresAtRaw, signature];
    SplitOfSignedText(userIdRaw, expiresAtRaw, signature, []);
  }

  /** Text with fewer than three fields is refused. */
  lemma ShortTokenRejected(decoded: string, now: int, sign: Signer)
    requires |Split(decoded, '.')| < 3
    ensures VerifyDecoded(decoded, now, sign) == None
  {
  }
}
