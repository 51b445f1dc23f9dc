/**
 * src/services/AuthService.ts: issuing and checking identity tokens, and taking the
 * token out of an `Authorization` header. Signing and verification belong to the
 * jsonwebtoken library; the model receives them as the two functions of a `Jwt` value.
 */
module Auth {
  import opened Wrappers

  /** The payload signed into every token. */
  datatype Claims = Claims(userId: string, email: string)

  /**
   * The jsonwebtoken library: `sign(payload, secret, expiresIn, now)` and
   * `verify(token, secret)`, where `Err` stands for the exception `verify` throws.
   * `now` is the clock in whole seconds that `sign` reads to set the token's `iat` claim
   * (and `exp` from it), so tokens for the same payload issued in different seconds differ.
   */
  datatype Jwt = Jwt(
    sign: (Claims, string, string, int) -> string,
    verify: (string, string) -> Result<Claims>)
  {
    /**
     * What the library guarantees and the model relies on: a token verifies, under the
     * secret it was signed with, to the payload it was signed with, and (being three
     * base64url segments joined by dots) it contains no space. This holds only before the
     * token expires: for every `expiresIn` here stands for "not yet expired". The library's
     * decoded payload also carries `iat` and `exp`, which `Claims` drops. `sign` refuses an
     * empty secret, so nothing is assumed about one.
     */
    ghost predicate Sound() {
      forall c: Claims, key: string, expiresIn: string, now: int | key != "" ::
        verify(sign(c, key, expiresIn, now), key) == Ok(c) && ' ' !in sign(c, key, expiresIn, now)
    }
  }

  /** The secret used when the environment does not set `JWT_SECRET`. */
  const DefaultSecret := "your-secret-key-change-in-production"

  /** Every token is issued to expire after seven days. */
  const ExpiresIn := "7d"

  /** An `AuthService` instance: its secret is fixed at construction and only read afterwards. */
  datatype AuthService = AuthService(secretKey: string, jwt: Jwt) {

    /** `generateToken`: a token carrying the user's id and email, issued at second `now`. */
    function GenerateToken(userId: string, email: string, now: int): (token: string)
      ensures jwt.Sound() && secretKey != "" ==> VerifyToken(token) == Some(Claims(userId, email))
      ensures jwt.Sound() && secretKey != "" ==> ' ' !in token
    {
      jwt.sign(Claims(userId, email), secretKey, ExpiresIn, now)
    }

    /** `verifyToken`: the payload of a valid token; every failure of the verifier becomes None. */
    function VerifyToken(token: string): (r: Option<Claims>)
      ensures r.None? <==> jwt.verify(token, secretKey).Err?
      ensures r.Some? ==> jwt.verify(token, secretKey) == Ok(r.value)
    {
      match jwt.verify(token, secretKey)
      case Ok(decoded) => Some(decoded)
      case Err(_) => None
    }
  }

  /** `new AuthService()`: `JWT_SECRET` when it is set and non-empty, the default secret otherwise. */
  function NewAuthService(jwtSecret: Option<string>, jwt: Jwt): (a: AuthService)
    ensures a.jwt == jwt && a.secretKey != ""
    ensures jwtSecret.Some? && jwtSecret.value != "" ==> a.secretKey == jwtSecret.value
    ensures jwtSecret.None? || jwtSecret.value == "" ==> a.secretKey == DefaultSecret
  {
    var secretKey := if jwtSecret.Some? && jwtSecret.value != "" then jwtSecret.value else DefaultSecret;
    AuthService(secretKey, jwt)
  }

  /** `parts.join(sep)`. */
  function Join(parts: seq<string>, sep: char): string {
    if |parts| == 0 then ""
    else if |parts| == 1 then parts[0]
    else parts[0] + [sep] + Join(parts[1..], sep)
  }

  /**
   * `s.split(sep)` for a one-character separator: the pieces between consecutive
   * separators, always at least one, empty pieces included.
   */
  function Split(s: string, sep: char): (parts: seq<string>)
    ensures |parts| >= 1
    ensures Join(parts, sep) == s
    ensures forall i :: 0 <= i < |parts| ==> sep !in parts[i]
    decreases |s|
  {
    if |s| == 0 then [""]
    else
      var rest := Split(s[1..], sep);
      if s[0] == sep then
        assert ([""] + rest)[1..] == rest;
        [""] + rest
      else
        var parts := [[s[0]] + rest[0]] + rest[1..];
        assert parts[1..] == rest[1..];
        assert s == [s[0]] + s[1..];
        parts
  }

  /** Split undoes Join: the pieces of a string are determined by it. */
  lemma {:induction false} SplitUnique(s: string, sep: char, parts: seq<string>)
    requires |parts| >= 1 && Join(parts, sep) == s
    requires forall i :: 0 <= i < |parts| ==> sep !in parts[i]
    ensures Split(s, sep) == parts
    decreases |s|
  {
    if |s| == 0 {
    } else if s[0] == sep {
      assert s[1..] == Join(parts[1..], sep);
      SplitUnique(s[1..], sep, parts[1..]);
      assert parts == [""] + parts[1..];
    } else {
      var tail := [parts[0][1..]] + parts[1..];
      assert tail[1..] == parts[1..];
      assert parts[0] == [s[0]] + parts[0][1..];
      assert Join(tail, sep) == s[1..];
      forall i | 0 <= i < |tail| ensures sep !in tail[i] {
        if i == 0 {
          assert forall c :: c in parts[0][1..] ==> c in parts[0];
        } else {
          assert tail[i] == parts[i];
        }
      }
      SplitUnique(s[1..], sep, tail);
    }
  }

  /**
   * `getTokenFromHeader`: the token of a header of the form "Bearer <token>". An absent
   * or empty header, or one that does not split on single spaces into exactly two
   * pieces the first of which is exactly "Bearer", yields None.
   */
  function GetTokenFromHeader(authHeader: Option<string>): (r: Option<string>)
    ensures authHeader.None? || authHeader == Some("") ==> r.None?
    ensures r.Some? ==> authHeader == Some("Bearer " + r.value) && ' ' !in r.value
  {
    if authHeader.None? || authHeader.value == "" then None
    else
      var parts := Split(authHeader.value, ' ');
      if |parts| != 2 || parts[0] != "Bearer" then None
      else
        assert parts[1..] == [parts[1]];
        assert Join(parts[1..], ' ') == parts[1];
        assert Join(parts, ' ') == parts[0] + [' '] + Join(parts[1..], ' ');
        assert authHeader.value == parts[0] + [' '] + parts[1];
        assert "Bearer " == "Bearer" + [' '];
        Some(parts[1])
  }

  /** Every space-free token, the empty one included, survives being put in a header. */
  lemma HeaderRoundTrip(token: string)
    requires ' ' !in token
    ensures GetTokenFromHeader(Some("Bearer " + token)) == Some(token)
  {
    var parts := ["Bearer", token];
    assert parts[1..] == [token];
    assert Join(parts, ' ') == "Bearer " + token;
    SplitUnique("Bearer " + token, ' ', parts);
  }

  /** A header yields a token exactly when it is "Bearer " followed by that space-free token. */
  lemma BearerHeaderExact(header: string, token: string)
    ensures GetTokenFromHeader(Some(header)) == Some(token) <==> header == "Bearer " + token && ' ' !in token
  {
    if header == "Bearer " + token && ' ' !in token {
      HeaderRoundTrip(token);
    }
  }

  /** The scheme is matched case-sensitively: "bearer x" yields None. */
  lemma LowerCaseSchemeRejected()
    ensures GetTokenFromHeader(Some("bearer x")) == None
  {
    var parts := ["bearer", "x"];
    assert Join(parts, ' ') == "bearer x";
    SplitUnique("bearer x", ' ', parts);
  }

  /** Two spaces make three pieces: "Bearer  x" yields None. */
  lemma DoubleSpaceRejected()
    ensures GetTokenFromHeader(Some("Bearer  x")) == None
  {
    var parts := ["Bearer", "", "x"];
    assert Join(parts, ' ') == "Bearer  x";
    SplitUnique("Bearer  x", ' ', parts);
  }

  /** A token may not contain a space: "Bearer x y" yields None. */
  lemma ExtraPieceRejected()
    ensures GetTokenFromHeader(Some("Bearer x y")) == None
  {
    var parts := ["Bearer", "x", "y"];
    assert Join(parts, ' ') == "Bearer x y";
    SplitUnique("Bearer x y", ' ', parts);
  }

  /**
   * A token issued by the service, sent back as "Bearer <token>", is extracted intact
   * and verifies to the identity it was issued for.
   */
  lemma IssuedTokenIdentifiesRequest(auth: AuthService, userId: string, email: string, now: int)
    requires auth.jwt.Sound() && auth.secretKey != ""
    ensures var token := auth.GenerateToken(userId, email, now);
      GetTokenFromHeader(Some("Bearer " + token)) == Some(token) &&
      auth.VerifyToken(token) == Some(Claims(userId, email))
  {
    HeaderRoundTrip(auth.GenerateToken(userId, email, now));
  }
}
