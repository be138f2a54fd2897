/** A toy stand-in for the signing library that meets every assumption
    module GoAlone states about it, so that lemmas taking those assumptions as
    preconditions are not vacuous. Its "token" is a sign character, the
    timestamp's magnitude in unary, a '.', and the message; it has no security
    whatsoever and models nothing of the real library's format.
 */
module ToyGoAlone {
  import opened GoAlone

  /** `n` copies of the character '1'. */
  function Ones(n: nat): (s: string)
    ensures |s| == n
    ensures forall i :: 0 <= i < n ==> s[i] == '1'
  {
    if n == 0 then [] else ['1'] + Ones(n - 1)
  }

  /** Length of the run of '1's that starts `s`. */
  function CountOnes(s: string): (n: nat)
    ensures n <= |s|
  {
    if |s| > 0 && s[0] == '1' then 1 + CountOnes(s[1..]) else 0
  }

  /** A run of `n` ones followed by anything but a '1' counts as `n`. */
  lemma {:induction false} CountOnesOfRun(n: nat, rest: string)
    requires |rest| == 0 || rest[0] != '1'
    ensures CountOnes(Ones(n) + rest) == n
  {
    if n > 0 {
      assert (Ones(n) + rest)[1..] == Ones(n - 1) + rest;
      CountOnesOfRun(n - 1, rest);
    }
  }

  /** The toy token for `msg` signed at `issued`. */
  function ToyEncode(msg: string, issued: int): string {
    (if issued < 0 then "-" else "+") + Ones(if issued < 0 then -issued else issued) + "." + msg
  }

  /** The message a toy token carries, or an error if it is malformed. */
  function ToyDecode(token: string): (r: Unsigned)
  {
    if |token| == 0 then Err("empty token")
    else
      var n := CountOnes(token[1..]);
      if n + 1 < |token| && token[n + 1] == '.' then Ok(token[n + 2..])
      else Err("malformed token")
  }

  /** The timestamp a toy token carries; 0 for the empty string. */
  function ToyTimestamp(token: string): int {
    if |token| == 0 then 0
    else
      var n: int := CountOnes(token[1..]);
      if token[0] == '-' then -n else n
  }

  /** The toy library; it ignores the secret. */
  function ToyLibrary(): Library {
    Library(
      (secret: string, msg: string, issued: int) => ToyEncode(msg, issued),
      (secret: string, token: string) => ToyDecode(token),
      (secret: string, token: string) =>
        match ToyDecode(token)
        case Ok(msg) => Token(msg, ToyTimestamp(token))
        case Err(_) => Token([], 0)
    )
  }

  /** Decoding a toy token recovers its message and timestamp. */
  lemma ToyRoundTrip(msg: string, issued: int)
    ensures ToyDecode(ToyEncode(msg, issued)) == Ok(msg)
    ensures ToyTimestamp(ToyEncode(msg, issued)) == issued
  {
    var n := if issued < 0 then -issued else issued;
    var token := ToyEncode(msg, issued);
    assert token[1..] == Ones(n) + ("." + msg);
    CountOnesOfRun(n, "." + msg);
    assert token[n + 2..] == msg;
  }

  /** The library assumptions are jointly satisfiable. */
  lemma AssumptionsSatisfiable()
    ensures UnsignAcceptsSigned(ToyLibrary())
    ensures UnsignRecoversMessage(ToyLibrary())
    ensures forall issued :: ParseRecoversTimestamp(ToyLibrary(), issued)
  {
    var lib := ToyLibrary();
    forall secret, msg, issued
      ensures lib.unsign(secret, lib.sign(secret, msg, issued)) == Ok(msg)
      ensures lib.parse(secret, lib.sign(secret, msg, issued)).timestamp == issued
    {
      ToyRoundTrip(msg, issued);
    }
  }
}
