/** The `go-alone` signing library, seen from the outside.

    Its source is not part of this model, so the three operations the signer
    calls are uninterpreted: a `Library` value bundles them as function values,
    each taking the secret it was built with (`goalone.New(secret,
    goalone.Timestamp)`). Facts about how they fit together are stated below as
    named assumptions, which lemmas take as explicit preconditions; nothing
    here proves them of the real library.
 */
module GoAlone {

  /** What `Parse` returns: the signed payload and the creation time embedded in
      the token, in nanoseconds since the Unix epoch. */
  datatype Token = Token(payload: string, timestamp: int)

  /** What `Unsign` returns: the payload, or a non-nil error. */
  datatype Unsigned = Ok(payload: string) | Err(reason: string)

  /** The library's operations, each applied to the secret:
      - `sign(secret, msg, issued)` is `Sign(msg)` when the library's clock
        reads `issued` (at the resolution the library embeds);
      - `unsign(secret, token)` is `Unsign(token)`;
      - `parse(secret, token)` is `Parse(token)`, which never reports an error. */
  datatype Library = Library(
    sign: (string, string, int) -> string,
    unsign: (string, string) -> Unsigned,
    parse: (string, string) -> Token
  )

  /** ASSUMPTION about the library: a token it signed unsigns, under the same
      secret, without an error. */
  ghost predicate UnsignAcceptsSigned(lib: Library) {
    forall secret, msg, issued :: lib.unsign(secret, lib.sign(secret, msg, issued)).Ok?
  }

  /** ASSUMPTION about the library, stronger than `UnsignAcceptsSigned`: a
      token it signed unsigns, under the same secret, to exactly the signed
      message. */
  ghost predicate UnsignRecoversMessage(lib: Library) {
    forall secret, msg, issued :: lib.unsign(secret, lib.sign(secret, msg, issued)) == Ok(msg)
  }

  /** ASSUMPTION about the library, at one instant: parsing a token it signed
      when its clock read `issued` recovers `issued`. A library that embeds
      rounded timestamps meets it at the instants it can represent exactly. */
  ghost predicate ParseRecoversTimestamp(lib: Library, issued: int) {
    forall secret, msg :: lib.parse(secret, lib.sign(secret, msg, issued)).timestamp == issued
  }
}
