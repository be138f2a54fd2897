# signer — a Dafny model

The `signer` package issues tamper-evident, time-limited tokens for URLs or other
strings. A `Signature` holds a secret. `GenerateTokenFromString` appends a
`hash=` marker to the payload and has the `go-alone` library sign the result,
which embeds a creation timestamp. `VerifyToken` asks the library to unsign a
token and reports whether that worked. `Expired` asks the library to parse the
token's timestamp and compares its age with a threshold given in minutes.

The package contributes two pieces of logic of its own, and the model captures
both exactly, for thresholds whose product with `time.Minute` fits in an int64:

- the canonicalisation of the payload before signing (`Signer.UrlToSign`);
- the freshness test, done in Go's integer `time.Duration` arithmetic
  (`Signer.ExpiredAt`, with `GoTime.Sub` for `time.Since`).

Modules:

- `GoTime` (gotime.dfy): `time.Duration` bounds, `time.Minute`, and the
  saturating `Sub` that `time.Since` uses. An instant is an unbounded count of
  nanoseconds since the Unix epoch.
- `Strings` (strings.dfy): `strings.Contains` as a substring search, and the
  fact that for a one-character needle it is plain membership.
- `GoAlone` (goalone.dfy): the signing library as an uninterpreted `Library`
  holding three function values (`sign`, `unsign`, `parse`), each applied to
  the secret. Three facts about the library are stated as named assumptions:
  `UnsignAcceptsSigned`, the stronger `UnsignRecoversMessage`, and
  `ParseRecoversTimestamp`. The last one is stated per instant, so a library
  that rounds the timestamps it embeds still meets it at the instants it
  represents exactly. Lemmas take them as explicit preconditions;
  nothing proves them of the real library.
- `ToyGoAlone` (toygoalone.dfy): a toy library with no security
  (`ToyLibrary`, `AssumptionsSatisfiable`). It shows that all three
  assumptions can hold together, so the lemmas that rely on them are not
  vacuous. It models nothing of the real library's format.
- `Signer` (signer.dfy): the package itself.

The current time is a parameter. `sign` takes the timestamp the library embeds
(`issued`), and `Expired` takes the time of the check (`now`).

The doc comment on `Expired` (signer.go:53-54) says it returns true if the token
was created within `minutesUntilExpire`. The code (signer.go:59) does the
opposite: it returns true when more than that many minutes have passed. The
model follows the code. `Signer.ExpiredNegatesDocComment` proves that the code's
result is exactly the negation of the doc comment's reading (`CreatedWithin`).

Two further facts about the code:

- The code never rejects an empty secret. `Signature` is a plain struct
  (signer.go:12-14).
- `Expired` has no error path for a token that cannot be parsed. It uses
  whatever timestamp `Parse` returns (signer.go:57-59).

## Model

| member | source | states |
|---|---|---|
| `Strings.Contains` | signer.go:22 | `strings.Contains(s, substr)` is true exactly when `substr` occurs in `s` at some index; the empty needle occurs everywhere |
| `Strings.ContainsChar` | signer.go:22 | for a one-character needle such as `"?"`, `Contains` holds exactly when the character is a member of the string |
| `Signer.UrlToSign` | signer.go:22-28 | a payload containing `?` is signed as payload + `&hash=`; any other payload is signed as payload + `?hash=`; either way the result starts with the unchanged payload, ends with `hash=`, is 6 characters longer, and contains `?` |
| `Signer.UrlToSignTwice` | signer.go:22-28 | canonicalising an already canonicalised string takes the `&` branch, because the canonical form always contains a `?`: the payload's own, or the one the `?` branch appends |
| `Signer.UrlToSignInjective` | signer.go:22-28 | two payloads with the same canonical form are equal, so the payload can be recovered from what was signed |
| `Signer.GenerateTokenFromString` | signer.go:17-34 | the token is the library's signature, under the receiver's secret, of exactly payload + `&hash=` (payload has `?`) or payload + `?hash=` (otherwise) |
| `Signer.VerifyToken` | signer.go:38-51 | true exactly when the library's unsign returns no error; every error yields false, and the operation never aborts on any token, given a non-nil receiver and a library that does not panic |
| `Signer.GeneratedTokenVerifies` | signer.go:17-49 | assuming `UnsignAcceptsSigned`, a freshly generated token verifies |
| `Signer.GeneratedTokenUnsignsToUrl` | signer.go:17-40 | assuming `UnsignRecoversMessage`, a freshly generated token unsigns to the canonicalised payload; this is a fact about the library, since the package discards the payload `Unsign` returns (signer.go:40) |
| `GoTime.Sub` | signer.go:59 | `time.Since` yields a valid `time.Duration`: the exact elapsed time when it fits in int64, otherwise the nearest int64 value |
| `Signer.ExpiredAt` | signer.go:59 | the freshness test, computed with the saturating `time.Since`, is true exactly when the exact time elapsed from `issued` to `now` exceeds `minutes` minutes; saturation never changes the verdict |
| `Signer.Expired` | signer.go:55-59 | `Expired` is true exactly when the time of check minus the timestamp the library parses from the token exceeds `minutes` minutes; the signature is not consulted |
| `Signer.ExpiredIgnoresSignature` | signer.go:55-59 | `Expired` depends only on the parsed timestamp, the current time and the threshold; two libraries that parse the token to the same timestamp give the same verdict, whatever their sign and unsign do |
| `Signer.ExpiryBoundary` | signer.go:59 | the comparison is strict: after exactly `minutes` minutes the token is not expired, and one nanosecond later it is |
| `Signer.ExpiredMonotoneInTime` | signer.go:59 | a token expired at some time is expired at every later time |
| `Signer.ExpiredMonotoneInAge` | signer.go:59 | if a token is expired, any token issued earlier is expired at the same time of check |
| `Signer.ExpiredMonotoneInThreshold` | signer.go:59 | raising the threshold never turns "not expired" into "expired" |
| `Signer.FutureTokenIsFresh` | signer.go:59 | a token stamped at or after the time of check is not expired under any non-negative threshold |
| `Signer.ExpiredNegatesDocComment` | signer.go:53-59 | the code's verdict, with its saturating `time.Since`, is exactly the negation of "created within `minutesUntilExpire`" measured on the instants themselves, which is what the doc comment claims it returns |
| `Signer.GeneratedTokenExpiry` | signer.go:17-59 | assuming `ParseRecoversTimestamp` at the instant `issued` only, a token generated at `issued` is not expired at `issued + minutes` minutes and is expired one nanosecond later |

## Left out

- Panics. The model treats `sign`, `unsign` and `parse` as total and the `*Signature` receiver as never nil. In Go, a nil receiver panics at `s.Secret` (signer.go:20, 39, 56), and any panic inside go-alone on a malformed token aborts the method.
- The internals of `go-alone`: HMAC, base64 and base58 encoding, the token layout, `Parse`. Its source is not part of this model. `sign`, `unsign` and `parse` are uninterpreted. Every round-trip fact about them is one of the three named assumptions in `GoAlone`.
- Tamper detection and wrong-secret rejection. These are cryptographic properties of the library and cannot be stated or proved without its source.
- The system clock. The library reads it inside `Sign`, and `time.Since` reads it too. Both readings are parameters (`issued`, `now`). Any rounding the library applies when it embeds the time is part of the value passed as `issued`.
- Signer.ExpiredAt: requires `minutesUntilExpire * time.Minute` to fit in an int64. Go wraps that product silently, and the wrap-around is not modelled. `Signer.Expired` and every lemma about expiry carry the same restriction.
- GoTime.Sub: models only the wall-clock difference. The parsed timestamp carries no monotonic clock reading, so Go's monotonic branch of `Sub` never applies here.
- Byte-level strings. Go strings are bytes; the model uses characters. The only needle the code searches for is the ASCII `?`, and both views agree on it.
- Key material. The secret is an opaque string passed to the library. Go's conversion `[]byte(s.Secret)` does not change it.
- Idempotent verification. `VerifyToken` is a pure function of the library, the secret and the token, so repeated calls agree by construction. There is no separate lemma for it.
