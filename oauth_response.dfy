/**
 * Elmas::OauthResponse: the token endpoint's answer, read through the
 * accessors access_token, division and refresh_token. The body is taken as
 * already parsed into a JSON object.
 */
module OauthResponses {
  import opened Bytes

  /** A parsed JSON value; Null is also what Ruby's Hash#[] gives for a missing key. */
  datatype Json =
    | Null
    | Boolean(b: bool)
    | Number(n: int)
    | String(s: Bytes)
    | Array(items: seq<Json>)
    | Object(members: map<Bytes, Json>)

  /** A token response whose body parsed as a JSON object. */
  datatype OauthResponse = OauthResponse(body: map<Bytes, Json>)

  const ACCESS_TOKEN: Bytes := "access_token"
  const DIVISION: Bytes := "division"
  const REFRESH_TOKEN: Bytes := "refresh_token"

  /** `body[key]`: the member's value, or nil when the object has no such member. */
  function Member(body: map<Bytes, Json>, key: Bytes): (v: Json)
    ensures key in body ==> v == body[key]
    ensures key !in body ==> v == Null
  {
    if key in body then body[key] else Null
  }

  /** access_token: the body's "access_token" member, nil when missing. */
  function AccessToken(r: OauthResponse): (v: Json)
    ensures ACCESS_TOKEN in r.body ==> v == r.body[ACCESS_TOKEN]
    ensures ACCESS_TOKEN !in r.body ==> v == Null
  {
    Member(r.body, ACCESS_TOKEN)
  }

  /** division: the body's "division" member, nil when missing. */
  function Division(r: OauthResponse): (v: Json)
    ensures DIVISION in r.body ==> v == r.body[DIVISION]
    ensures DIVISION !in r.body ==> v == Null
  {
    Member(r.body, DIVISION)
  }

  /** refresh_token: the body's "refresh_token" member, nil when missing. */
  function RefreshToken(r: OauthResponse): (v: Json)
    ensures REFRESH_TOKEN in r.body ==> v == r.body[REFRESH_TOKEN]
    ensures REFRESH_TOKEN !in r.body ==> v == Null
  {
    Member(r.body, REFRESH_TOKEN)
  }

  /**
   * A body carrying the three tokens as strings, with any other members,
   * hands each of them back unchanged through its own accessor.
   */
  lemma {:induction false} TokensReadBack(access: Bytes, refresh: Bytes, division: Bytes, others: map<Bytes, Json>)
    ensures var r := OauthResponse(others[ACCESS_TOKEN := String(access)][REFRESH_TOKEN := String(refresh)][DIVISION := String(division)]);
            AccessToken(r) == String(access) && RefreshToken(r) == String(refresh) && Division(r) == String(division)
  {
    assert ACCESS_TOKEN != REFRESH_TOKEN && ACCESS_TOKEN != DIVISION && REFRESH_TOKEN != DIVISION by {
      assert ACCESS_TOKEN[0] == 'a' && REFRESH_TOKEN[0] == 'r' && DIVISION[0] == 'd';
    }
  }

  /** Each accessor reads its own member only: changing any other member leaves it as it was. */
  lemma {:induction false} AccessorsReadOwnMember(r: OauthResponse, key: Bytes, v: Json)
    ensures key != ACCESS_TOKEN ==> AccessToken(OauthResponse(r.body[key := v])) == AccessToken(r)
    ensures key != REFRESH_TOKEN ==> RefreshToken(OauthResponse(r.body[key := v])) == RefreshToken(r)
    ensures key != DIVISION ==> Division(OauthResponse(r.body[key := v])) == Division(r)
  {
  }
}
