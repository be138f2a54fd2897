/** The `signer` package: a secret-holding `Signature` that issues signed,
    timestamped tokens for URLs or other strings, checks their signature, and
    checks their age. Signing, unsigning and parsing are delegated to the
    `go-alone` library (module GoAlone); what the package adds is the marker it
    appends before signing and the freshness test.
 */
module Signer {
  import GoTime
  import Strings
  import opened GoAlone

  /** The package's only type: the secret every operation signs with. */
  datatype Signature = Signature(secret: string)

  /** The marker field appended to every payload before signing. */
  const HashMarker: string := "hash="

  /** The string handed to the library for signing: the payload with the
      marker added as one more query parameter, joined by `&` if the payload
      already has a query string (it contains a `?`) and by `?` otherwise. */
  function UrlToSign(data: string): (url: string)
    ensures '?' in data ==> url == data + "&" + HashMarker
    ensures '?' !in data ==> url == data + "?" + HashMarker
    ensures |url| == |data| + 1 + |HashMarker|
    ensures url[..|data|] == data
    ensures url[|data| + 1..] == HashMarker
    ensures '?' in url
  {
    Strings.ContainsChar(data, '?');
    if Strings.Contains(data, "?") then data + "&" + HashMarker else data + "?" + HashMarker
  }

  /** A canonicalised string always has a query string, so canonicalising it
      again takes the `&` branch. */
  lemma UrlToSignTwice(data: string)
    ensures UrlToSign(UrlToSign(data)) == UrlToSign(data) + "&" + HashMarker
  {
  }

  /** Distinct payloads are never signed as the same string. */
  lemma UrlToSignInjective(data1: string, data2: string)
    requires UrlToSign(data1) == UrlToSign(data2)
    ensures data1 == data2
  {
  }

  /** `GenerateTokenFromString`: the library's signature of the canonicalised
      payload, issued at `issued`. */
  function GenerateTokenFromString(lib: Library, sig: Signature, data: string, issued: int): (token: string)
    ensures '?' in data ==> token == lib.sign(sig.secret, data + "&" + HashMarker, issued)
    ensures '?' !in data ==> token == lib.sign(sig.secret, data + "?" + HashMarker, issued)
  {
    lib.sign(sig.secret, UrlToSign(data), issued)
  }

  /** `VerifyToken`: valid exactly when the library unsigns the token without
      an error; any error (tampered, forged, or not a token at all) is reported
      as `false`, never raised. */
  function VerifyToken(lib: Library, sig: Signature, token: string): (valid: bool)
    ensures valid <==> lib.unsign(sig.secret, token).Ok?
    ensures !valid <==> exists reason :: lib.unsign(sig.secret, token) == Err(reason)
  {
    match lib.unsign(sig.secret, token)
    case Err(_) => false
    case Ok(_) => true
  }

  /** Assuming the library accepts its own signatures, a token just generated
      verifies. */
  lemma GeneratedTokenVerifies(lib: Library, sig: Signature, data: string, issued: int)
    requires UnsignAcceptsSigned(lib)
    ensures VerifyToken(lib, sig, GenerateTokenFromString(lib, sig, data, issued))
  {
  }

  /** Assuming the library recovers the messages it signed, a token just
      generated unsigns to the payload with its marker. This describes the
      library's behaviour: `VerifyToken` discards the payload `Unsign`
      returns and looks only at the error. */
  lemma GeneratedTokenUnsignsToUrl(lib: Library, sig: Signature, data: string, issued: int)
    requires UnsignRecoversMessage(lib)
    ensures lib.unsign(sig.secret, GenerateTokenFromString(lib, sig, data, issued)) == Ok(UrlToSign(data))
  {
  }

  /** The freshness test on its own: the time elapsed between `issued` and
      `now`, as `time.Since` reports it, exceeds `minutes` minutes. The
      product `minutes * time.Minute` is required to fit in a `time.Duration`.
      Although `time.Since` saturates, the verdict is always the one the exact
      elapsed time gives. */
  function ExpiredAt(issued: int, now: int, minutes: int): (expired: bool)
    requires GoTime.IsDuration(minutes * GoTime.Minute)
    ensures expired <==> now - issued > minutes * GoTime.Minute
  {
    GoTime.Sub(now, issued) > minutes * GoTime.Minute
  }

  /** `Expired`: the freshness test applied to the timestamp the library parses
      out of the token. The signature is not checked. */
  function Expired(lib: Library, sig: Signature, token: string, minutes: int, now: int): (expired: bool)
    requires GoTime.IsDuration(minutes * GoTime.Minute)
    ensures expired <==> now - lib.parse(sig.secret, token).timestamp > minutes * GoTime.Minute
  {
    var ts := lib.parse(sig.secret, token);
    ExpiredAt(ts.timestamp, now, minutes)
  }

  /** `Expired` depends only on the parsed timestamp, the current time and the
      threshold: two libraries that parse the token alike agree on it, however
      they sign and unsign. */
  lemma ExpiredIgnoresSignature(lib1: Library, lib2: Library, sig: Signature, token: string, minutes: int, now: int)
    requires GoTime.IsDuration(minutes * GoTime.Minute)
    requires lib1.parse(sig.secret, token).timestamp == lib2.parse(sig.secret, token).timestamp
    ensures Expired(lib1, sig, token, minutes, now) == Expired(lib2, sig, token, minutes, now)
  {
  }

  /** The test is strict: exactly `minutes` minutes after issue the token is
      still fresh, and one nanosecond later it is expired. */
  lemma ExpiryBoundary(issued: int, minutes: int)
    requires GoTime.IsDuration(minutes * GoTime.Minute)
    ensures !ExpiredAt(issued, issued + minutes * GoTime.Minute, minutes)
    ensures ExpiredAt(issued, issued + minutes * GoTime.Minute + 1, minutes)
  {
  }

  /** Once expired, a token stays expired as time goes on. */
  lemma ExpiredMonotoneInTime(issued: int, now1: int, now2: int, minutes: int)
    requires GoTime.IsDuration(minutes * GoTime.Minute)
    requires now1 <= now2
    requires ExpiredAt(issued, now1, minutes)
    ensures ExpiredAt(issued, now2, minutes)
  {
  }

  /** An older token is expired whenever a newer one is. */
  lemma ExpiredMonotoneInAge(issued1: int, issued2: int, now: int, minutes: int)
    requires GoTime.IsDuration(minutes * GoTime.Minute)
    requires issued2 <= issued1
    requires ExpiredAt(issued1, now, minutes)
    ensures ExpiredAt(issued2, now, minutes)
  {
  }

  /** Raising the threshold never turns a fresh token into an expired one. */
  lemma ExpiredMonotoneInThreshold(issued: int, now: int, minutes1: int, minutes2: int)
    requires GoTime.IsDuration(minutes1 * GoTime.Minute)
    requires GoTime.IsDuration(minutes2 * GoTime.Minute)
    requires minutes1 <= minutes2
    requires !ExpiredAt(issued, now, minutes1)
    ensures !ExpiredAt(issued, now, minutes2)
  {
  }

  /** A token stamped in the future is never expired for a non-negative
      threshold. */
  lemma FutureTokenIsFresh(issued: int, now: int, minutes: int)
    requires GoTime.IsDuration(minutes * GoTime.Minute)
    requires now <= issued
    requires minutes >= 0
    ensures !ExpiredAt(issued, now, minutes)
  {
  }

  /** The reading of `Expired` its doc comment gives: the token was created
      within the last `minutes` minutes, measured on the instants themselves. */
  predicate CreatedWithin(issued: int, now: int, minutes: int) {
    now - issued <= minutes * GoTime.Minute
  }

  /** The code, with its saturating `time.Since`, returns exactly the opposite
      of what its doc comment says. */
  lemma ExpiredNegatesDocComment(issued: int, now: int, minutes: int)
    requires GoTime.IsDuration(minutes * GoTime.Minute)
    ensures ExpiredAt(issued, now, minutes) <==> !CreatedWithin(issued, now, minutes)
  {
  }

  /** Assuming the library parses back the timestamp it embedded, a generated
      token is fresh exactly `minutes` minutes after issue and expired one
      nanosecond later. */
  lemma GeneratedTokenExpiry(lib: Library, sig: Signature, data: string, issued: int, minutes: int)
    requires ParseRecoversTimestamp(lib, issued)
    requires GoTime.IsDuration(minutes * GoTime.Minute)
    ensures !Expired(lib, sig, GenerateTokenFromString(lib, sig, data, issued), minutes, issued + minutes * GoTime.Minute)
    ensures Expired(lib, sig, GenerateTokenFromString(lib, sig, data, issued), minutes, issued + minutes * GoTime.Minute + 1)
  {
  }
}
