/**
 * What the server's two route files share: document identifiers, the JSON Web Token
 * library seen from outside, and the signing key both routes read from the environment.
 */
module ServerCommon {
  import opened Wrappers
  import opened JsStrings

  /** A MongoDB ObjectId, kept abstract: only equality matters to the routes. */
  type ObjectId = nat

  /**
   * `jwt.sign({ _id }, key)` and `jwt.verify(token, key)`, taken as given functions.
   * `verify` yields the `_id` of the decoded payload, or `None` where the library throws
   * (bad signature, malformed token, expiry). A token that verifies but whose payload has
   * no `_id` is outside this type: the server never signs one.
   */
  datatype Jwt = Jwt(sign: (ObjectId, string) -> string, verify: (string, string) -> Option<ObjectId>)

  /** The one property of the library the model relies on: a token verifies, under the key it
      was signed with, to the identifier it was signed over. */
  ghost predicate VerifiesOwnTokens(jwt: Jwt) {
    forall id: ObjectId, key: string :: jwt.verify(jwt.sign(id, key), key) == Some(id)
  }

  const FallbackSecret: string := "secret_key"

  /** `process.env.JWT_SECRET || 'secret_key'`: an unset or empty variable falls back. */
  function SigningKey(jwtSecret: Option<string>): (key: string)
    ensures key != ""
    ensures Truthy(jwtSecret) ==> key == jwtSecret.value
    ensures !Truthy(jwtSecret) ==> key == FallbackSecret
  {
    OrElseTruthy(jwtSecret, FallbackSecret);
    OrElse(jwtSecret, FallbackSecret)
  }

  /** The token both `/register` and `/login` issue for a user. */
  function IssueToken(id: ObjectId, jwtSecret: Option<string>, jwt: Jwt): string {
    jwt.sign(id, SigningKey(jwtSecret))
  }
}
