/**
 * The pure core of Elmas::OAuth (lib/elmas/oauth.rb): the authorization
 * request URL of section 4.1.1 of RFC 6749, the token-request parameters of
 * sections 4.1.3 and 6, the extraction of the authorization code from the
 * final redirect, the decision to skip or submit the consent form, and the
 * way `authorized?` turns the probe's outcome into an answer.
 */
module OAuth {
  import opened Wrappers
  import opened Bytes
  import opened RubyHash
  import opened FormEncoding

  /** The client settings the OAuth methods read from the Elmas configuration. */
  datatype Config = Config(baseUrl: Bytes, clientId: Value, clientSecret: Value, redirectUri: Value)

  const CLIENT_ID: Key := Sym("client_id")
  const CLIENT_SECRET: Key := Sym("client_secret")
  const GRANT_TYPE: Key := Sym("grant_type")
  const CODE: Key := Sym("code")
  const REDIRECT_URI: Key := Sym("redirect_uri")
  const REFRESH_TOKEN: Key := Sym("refresh_token")
  const RESPONSE_TYPE: Key := Sym("response_type")

  const AUTHORIZE_PATH: Bytes := "/api/oauth2/auth/"

  /** What Ruby raises where the code produces no value. */
  datatype Error =
    | QueryMissing          // the final page's URI has no query: nil.split raises NoMethodError
    | CodeMissing           // splitting the query left no piece: URI.unescape(nil) raises NoMethodError
    | RedirectUriNotAString // String#include? given a configured redirect_uri that is not a string raises TypeError
    | MalformedQuery        // (corrected extraction) the query is not form-encoded
    | CodeParamMissing      // (corrected extraction) the query has no code field with a value

  // ---------------------------------------------------------------------------
  // The authorization request (authorize_url, authorization_params)
  // ---------------------------------------------------------------------------

  /** authorization_params: the client identifier alone. */
  function AuthorizationParams(cfg: Config): Entries {
    [(CLIENT_ID, cfg.clientId)]
  }

  /** The caller's options after `options[:response_type] ||= "code"` and `options[:redirect_uri] ||= redirect_uri`. */
  function WithDefaults(cfg: Config, options: Entries): Entries {
    var withType := OrAssigned(options, RESPONSE_TYPE, Str("code"));
    OrAssigned(withType, REDIRECT_URI, cfg.redirectUri)
  }

  /** The query parameters: authorization_params merged with the defaulted options. */
  function AuthorizeQuery(cfg: Config, options: Entries): Entries
    requires UniqueKeys(options)
  {
    Merge(AuthorizationParams(cfg), WithDefaults(cfg, options))
  }

  /** The URL authorize_url returns for the given options. */
  function AuthorizeUrlFor(cfg: Config, options: Entries): Bytes
    requires UniqueKeys(options)
  {
    cfg.baseUrl + AUTHORIZE_PATH + "?" + EncodeWwwForm(AuthorizeQuery(cfg, options))
  }

  /**
   * authorize_url: writes the two defaults into the caller's options hash,
   * then returns the authorize endpoint with the merged parameters as its
   * form-encoded query.
   */
  method AuthorizeUrl(cfg: Config, options: HashObject) returns (url: Bytes)
    requires options.Valid()
    modifies options
    ensures options.Valid()
    ensures options.entries == WithDefaults(cfg, old(options.entries))
    ensures url == AuthorizeUrlFor(cfg, old(options.entries))
  {
    options.OrAssign(RESPONSE_TYPE, Str("code"));
    options.OrAssign(REDIRECT_URI, cfg.redirectUri);
    var params := Merge(AuthorizationParams(cfg), options.entries);
    url := cfg.baseUrl + AUTHORIZE_PATH + "?" + EncodeWwwForm(params);
  }

  /** response_type becomes "code" only when the caller gave none, nil or false; a value given is kept. */
  lemma {:induction false} ResponseTypeDefault(cfg: Config, options: Entries)
    requires UniqueKeys(options)
    ensures Get(WithDefaults(cfg, options), RESPONSE_TYPE) ==
            if Truthy(Get(options, RESPONSE_TYPE)) then Get(options, RESPONSE_TYPE) else Str("code")
  {
    var withType := OrAssigned(options, RESPONSE_TYPE, Str("code"));
    OrAssignedSpec(options, RESPONSE_TYPE, Str("code"));
    OrAssignedSpec(withType, REDIRECT_URI, cfg.redirectUri);
  }

  /** redirect_uri becomes the configured one only when the caller gave none, nil or false. */
  lemma {:induction false} RedirectUriDefault(cfg: Config, options: Entries)
    requires UniqueKeys(options)
    ensures Get(WithDefaults(cfg, options), REDIRECT_URI) ==
            if Truthy(Get(options, REDIRECT_URI)) then Get(options, REDIRECT_URI) else cfg.redirectUri
  {
    var withType := OrAssigned(options, RESPONSE_TYPE, Str("code"));
    OrAssignedSpec(options, RESPONSE_TYPE, Str("code"));
    OrAssignedSpec(withType, REDIRECT_URI, cfg.redirectUri);
  }

  /**
   * The defaulting touches no other key, keeps the caller's keys in their
   * order, and adds at most response_type and redirect_uri.
   */
  lemma {:induction false} DefaultsKeepOptions(cfg: Config, options: Entries)
    requires UniqueKeys(options)
    ensures UniqueKeys(WithDefaults(cfg, options))
    ensures forall k :: k != RESPONSE_TYPE && k != REDIRECT_URI ==> Get(WithDefaults(cfg, options), k) == Get(options, k)
    ensures KeySeq(options) <= KeySeq(WithDefaults(cfg, options))
    ensures forall k :: k in KeySeq(WithDefaults(cfg, options)) <==> k in KeySeq(options) || k == RESPONSE_TYPE || k == REDIRECT_URI
  {
    var withType := OrAssigned(options, RESPONSE_TYPE, Str("code"));
    OrAssignedSpec(options, RESPONSE_TYPE, Str("code"));
    OrAssignedSpec(withType, REDIRECT_URI, cfg.redirectUri);
  }

  lemma {:induction false} AuthorizationParamsSpec(cfg: Config)
    ensures UniqueKeys(AuthorizationParams(cfg))
    ensures KeySeq(AuthorizationParams(cfg)) == [CLIENT_ID]
    ensures View(AuthorizationParams(cfg)) == map[CLIENT_ID := cfg.clientId]
  {
    var base := AuthorizationParams(cfg);
    assert KeySeq(base) == [CLIENT_ID];
    GetView(base, CLIENT_ID);
  }

  /**
   * The merged parameters: client_id comes first, then the defaulted options'
   * other keys in their order; any key of the options, client_id included,
   * takes the options' value, and nothing else is added.
   */
  lemma {:induction false} AuthorizeQueryMerge(cfg: Config, options: Entries)
    requires UniqueKeys(options)
    ensures UniqueKeys(AuthorizeQuery(cfg, options))
    ensures KeySeq(AuthorizeQuery(cfg, options)) ==
            [CLIENT_ID] + NewKeys(KeySeq(WithDefaults(cfg, options)), [CLIENT_ID])
    ensures View(AuthorizeQuery(cfg, options)) == map[CLIENT_ID := cfg.clientId] + View(WithDefaults(cfg, options))
  {
    var base, defaulted := AuthorizationParams(cfg), WithDefaults(cfg, options);
    DefaultsKeepOptions(cfg, options);
    AuthorizationParamsSpec(cfg);
    MergeKeys(base, defaulted);
    MergeView(base, defaulted);
  }

  /** The same, read key by key: the defaulted options' value, else the configured client_id, else nil. */
  lemma {:induction false} AuthorizeQueryGet(cfg: Config, options: Entries, k: Key)
    requires UniqueKeys(options)
    ensures Get(AuthorizeQuery(cfg, options), k) ==
            (if k in KeySeq(WithDefaults(cfg, options)) then Get(WithDefaults(cfg, options), k)
             else if k == CLIENT_ID then cfg.clientId
             else Nil)
  {
    AuthorizeQueryMerge(cfg, options);
    GetView(AuthorizeQuery(cfg, options), k);
    GetView(WithDefaults(cfg, options), k);
  }

  /**
   * The URL is the authorize endpoint under the base URL, then `?`, then a
   * query that decodes back to exactly the merged parameters, in order.
   */
  lemma {:induction false} AuthorizeUrlShape(cfg: Config, options: Entries)
    requires UniqueKeys(options)
    ensures var prefix := cfg.baseUrl + AUTHORIZE_PATH + "?";
            var url := AuthorizeUrlFor(cfg, options);
            |prefix| <= |url| && url[..|prefix|] == prefix &&
            DecodeForm(url[|prefix|..]) == Some(Fields(AuthorizeQuery(cfg, options)))
  {
    var prefix := cfg.baseUrl + AUTHORIZE_PATH + "?";
    var query := EncodeWwwForm(AuthorizeQuery(cfg, options));
    AuthorizeQueryMerge(cfg, options);
    assert |AuthorizeQuery(cfg, options)| >= 1 by {
      assert |KeySeq(AuthorizeQuery(cfg, options))| >= 1;
    }
    DecodeEncodeWwwForm(AuthorizeQuery(cfg, options));
    assert (prefix + query)[|prefix|..] == query;
  }

  /** Two calls produce the same URL only when their merged parameters agree in names, texts and order. */
  lemma {:induction false} AuthorizeUrlInjective(cfg: Config, options1: Entries, options2: Entries)
    requires UniqueKeys(options1) && UniqueKeys(options2)
    requires AuthorizeUrlFor(cfg, options1) == AuthorizeUrlFor(cfg, options2)
    ensures Fields(AuthorizeQuery(cfg, options1)) == Fields(AuthorizeQuery(cfg, options2))
  {
    AuthorizeUrlShape(cfg, options1);
    AuthorizeUrlShape(cfg, options2);
  }

  // ---------------------------------------------------------------------------
  // Token requests (access_token_params, refresh_access_token_params)
  // ---------------------------------------------------------------------------

  /** access_token_params: the authorization-code grant of section 4.1.3 of RFC 6749. */
  function AccessTokenParams(cfg: Config, code: Value): Entries {
    [(CLIENT_ID, cfg.clientId), (CLIENT_SECRET, cfg.clientSecret), (GRANT_TYPE, Str("authorization_code")),
     (CODE, code), (REDIRECT_URI, cfg.redirectUri)]
  }

  /** refresh_access_token_params: the refresh grant of section 6 of RFC 6749. */
  function RefreshAccessTokenParams(cfg: Config, refreshToken: Value): Entries {
    [(CLIENT_ID, cfg.clientId), (CLIENT_SECRET, cfg.clientSecret), (GRANT_TYPE, Str("refresh_token")),
     (REFRESH_TOKEN, refreshToken)]
  }

  /** The view of a hash whose keys are distinct holds each entry's value under its key, and nothing more. */
  lemma {:induction false} ViewOfEntries(h: Entries, m: map<Key, Value>)
    requires UniqueKeys(h)
    requires forall i :: 0 <= i < |h| ==> h[i].0 in m && m[h[i].0] == h[i].1
    requires forall k :: k in m ==> k in KeySeq(h)
    ensures View(h) == m
  {
    forall k | k in KeySeq(h) ensures Get(h, k) == m[k] {
      var i :| 0 <= i < |h| && KeySeq(h)[i] == k;
      GetEntry(h, k);
    }
  }

  /**
   * The authorization-code request has exactly client_id, client_secret,
   * grant_type, code and redirect_uri, with grant_type "authorization_code"
   * and the code passed through unchanged.
   */
  lemma {:induction false} AccessTokenParamsSpec(cfg: Config, code: Value)
    ensures UniqueKeys(AccessTokenParams(cfg, code))
    ensures KeySeq(AccessTokenParams(cfg, code)) == [CLIENT_ID, CLIENT_SECRET, GRANT_TYPE, CODE, REDIRECT_URI]
    ensures View(AccessTokenParams(cfg, code)) ==
            map[CLIENT_ID := cfg.clientId, CLIENT_SECRET := cfg.clientSecret,
                GRANT_TYPE := Str("authorization_code"), CODE := code, REDIRECT_URI := cfg.redirectUri]
  {
    var h := AccessTokenParams(cfg, code);
    assert KeySeq(h) == [CLIENT_ID, CLIENT_SECRET, GRANT_TYPE, CODE, REDIRECT_URI];
    ViewOfEntries(h, map[CLIENT_ID := cfg.clientId, CLIENT_SECRET := cfg.clientSecret,
                         GRANT_TYPE := Str("authorization_code"), CODE := code, REDIRECT_URI := cfg.redirectUri]);
  }

  /**
   * The refresh request has exactly client_id, client_secret, grant_type and
   * refresh_token, with grant_type "refresh_token" and the token passed
   * through; it never carries a code or a redirect_uri.
   */
  lemma {:induction false} RefreshAccessTokenParamsSpec(cfg: Config, refreshToken: Value)
    ensures UniqueKeys(RefreshAccessTokenParams(cfg, refreshToken))
    ensures KeySeq(RefreshAccessTokenParams(cfg, refreshToken)) == [CLIENT_ID, CLIENT_SECRET, GRANT_TYPE, REFRESH_TOKEN]
    ensures View(RefreshAccessTokenParams(cfg, refreshToken)) ==
            map[CLIENT_ID := cfg.clientId, CLIENT_SECRET := cfg.clientSecret,
                GRANT_TYPE := Str("refresh_token"), REFRESH_TOKEN := refreshToken]
    ensures CODE !in View(RefreshAccessTokenParams(cfg, refreshToken))
    ensures REDIRECT_URI !in View(RefreshAccessTokenParams(cfg, refreshToken))
  {
    var h := RefreshAccessTokenParams(cfg, refreshToken);
    assert KeySeq(h) == [CLIENT_ID, CLIENT_SECRET, GRANT_TYPE, REFRESH_TOKEN];
    ViewOfEntries(h, map[CLIENT_ID := cfg.clientId, CLIENT_SECRET := cfg.clientSecret,
                         GRANT_TYPE := Str("refresh_token"), REFRESH_TOKEN := refreshToken]);
  }

  // ---------------------------------------------------------------------------
  // The authorization code of the final redirect (authorize, line 25)
  // ---------------------------------------------------------------------------

  /**
   * As written: the final page's query split on `=` the Ruby way (trailing
   * empty fields dropped), the last piece kept, then URI.unescape.
   */
  function ExtractCode(query: Option<Bytes>): Result<Bytes, Error> {
    match query
    case None => Err(QueryMissing)
    case Some(q) =>
      var pieces := RubySplit<Octet>(q, '=');
      if pieces == [] then Err(CodeMissing) else Ok(Unescape(pieces[|pieces| - 1]))
  }

  /** Piece i is the last non-empty one. */
  ghost predicate IsLastNonEmpty(parts: seq<Bytes>, i: int) {
    0 <= i < |parts| && parts[i] != [] && forall j :: i < j < |parts| ==> parts[j] == []
  }

  /**
   * The extracted code is the percent-decoding of the last non-empty
   * `=`-separated piece of the query; there is none, and Ruby raises,
   * exactly when the query is made of `=` only (the empty query included).
   */
  lemma {:induction false} ExtractCodeSpec(q: Bytes)
    ensures ExtractCode(Some(q)).Err? <==> forall i :: 0 <= i < |q| ==> q[i] == '='
    ensures ExtractCode(Some(q)).Ok? ==>
            exists i :: IsLastNonEmpty(Split<Octet>(q, '='), i) &&
                        ExtractCode(Some(q)).value == Unescape(Split<Octet>(q, '=')[i])
  {
    var parts := Split<Octet>(q, '=');
    var pieces := RubySplit<Octet>(q, '=');
    SplitAllEmpty<Octet>(q, '=');
    if pieces != [] {
      var i := |pieces| - 1;
      assert pieces[i] == parts[i];
      assert IsLastNonEmpty(parts, i);
    } else {
      assert forall i :: 0 <= i < |parts| ==> parts[i] == [];
    }
  }

  /** The quirk of the Ruby split: for the query `code=` the "code" is the text "code". */
  lemma {:induction false} ExtractCodeOfEmptyValue()
    ensures ExtractCode(Some("code=")) == Ok("code")
  {
    var q: Bytes := "code=";
    SplitJoin<Octet>(["code", []], '=');
    assert Join<Octet>(["code", []], '=') == q;
    assert RubySplit<Octet>(q, '=') == ["code"];
    UnescapePlain("code");
  }

  /** When the query joins `=`-free pieces, the last of them non-empty, the code is that last piece, decoded. */
  lemma {:induction false} ExtractCodeOfPieces(parts: seq<Bytes>)
    requires |parts| >= 1 && parts[|parts| - 1] != []
    requires forall i :: 0 <= i < |parts| ==> '=' !in parts[i]
    ensures ExtractCode(Some(Join<Octet>(parts, '='))) == Ok(Unescape(parts[|parts| - 1]))
  {
    var q := Join<Octet>(parts, '=');
    RubySplitJoin<Octet>(parts, '=');
    ExtractCodeOfSplit(q);
  }

  /** A query with at least one non-empty piece yields its last piece, decoded. */
  lemma {:induction false} ExtractCodeOfSplit(q: Bytes)
    requires RubySplit<Octet>(q, '=') != []
    ensures ExtractCode(Some(q)) ==
            Ok(Unescape(RubySplit<Octet>(q, '=')[|RubySplit<Octet>(q, '=')| - 1]))
  {
  }

  /** The redirect the provider normally sends, `code=` and a value without `=`, yields that value decoded. */
  lemma {:induction false} ExtractCodeOfCodeField(c: Bytes)
    requires c != [] && '=' !in c
    ensures ExtractCode(Some(CODE.name + ['='] + c)) == Ok(Unescape(c))
  {
    assert Join<Octet>([CODE.name, c], '=') == CODE.name + ['='] + c;
    ExtractCodeOfPieces([CODE.name, c]);
  }

  /** The value of the first field with the given name that has one. */
  function FirstValue(fields: seq<Field>, name: Bytes): (r: Result<Bytes, Error>)
    ensures r.Ok? <==> exists i :: 0 <= i < |fields| && fields[i].0 == name && fields[i].1.Some?
    ensures r.Ok? ==> exists i :: 0 <= i < |fields| && fields[i] == (name, Some(r.value)) &&
                                 forall j :: 0 <= j < i ==> !(fields[j].0 == name && fields[j].1.Some?)
  {
    if fields == [] then Err(CodeParamMissing)
    else if fields[0].0 == name && fields[0].1.Some? then Ok(fields[0].1.value)
    else
      var r := FirstValue(fields[1..], name);
      assert forall i :: 1 <= i < |fields| ==> fields[i] == fields[1..][i - 1];
      r
  }

  /**
   * Corrected: the value of the query's `code` field, form-decoded; the
   * other fields of the redirect are ignored.
   */
  function CodeParam(query: Option<Bytes>): Result<Bytes, Error> {
    match query
    case None => Err(QueryMissing)
    case Some(q) =>
      match DecodeForm(q)
      case None => Err(MalformedQuery)
      case Some(fields) => FirstValue(fields, "code")
  }

  /** The corrected extraction returns the code the provider put first in the query, whatever follows it. */
  lemma {:induction false} CodeParamOfEncoded(c: Bytes, rest: Entries)
    ensures CodeParam(Some(EncodeWwwForm([(CODE, Str(c))] + rest))) == Ok(c)
  {
    var h := [(CODE, Str(c))] + rest;
    DecodeEncodeWwwForm(h);
    assert Fields(h)[0] == ("code", Some(c));
  }

  /** The query the provider sends back for a code alone: `code=` and the form-encoded code. */
  lemma {:induction false} CodeQuery(c: Bytes)
    ensures EncodeWwwForm([(CODE, Str(c))]) == CODE.name + ['='] + EncodeComponent(c)
  {
    EncodeWwwFormOne(CODE, Str(c));
    CodeNameEncoded();
  }

  /** On the usual redirect, `code=` and a form-encoded code without spaces, the written and corrected extractions agree. */
  lemma {:induction false} ExtractionsAgreeOnCodeAlone(c: Bytes)
    requires c != [] && ' ' !in c
    ensures ExtractCode(Some(EncodeWwwForm([(CODE, Str(c))]))) == Ok(c)
    ensures CodeParam(Some(EncodeWwwForm([(CODE, Str(c))]))) == Ok(c)
  {
    var e := EncodeComponent(c);
    CodeQuery(c);
    EncodedHasNo(c, '=');
    EncodeComponentNonEmpty(c);
    ExtractCodeOfCodeField(e);
    UnescapeEncoded(c);
    CodeParamOfEncoded(c, []);
  }

  /** The query for a code followed by one more field. */
  lemma {:induction false} TwoFieldQuery(c: Bytes, name: Bytes, v: Bytes)
    ensures EncodeWwwForm([(CODE, Str(c)), (Sym(name), Str(v))]) ==
            CODE.name + ['='] + (EncodeComponent(c) + ['&'] + EncodeComponent(name)) + ['='] + EncodeComponent(v)
  {
    var rest := [(Sym(name), Str(v))];
    assert EncodeWwwForm([(CODE, Str(c)), (Sym(name), Str(v))]) ==
           (CODE.name + ['='] + EncodeComponent(c)) + ['&'] + (EncodeComponent(name) + ['='] + EncodeComponent(v)) by {
      assert [(CODE, Str(c)), (Sym(name), Str(v))] == [(CODE, Str(c))] + rest;
      EncodeWwwFormCons(CODE, Str(c), rest);
      EncodeWwwFormOne(Sym(name), Str(v));
      CodeNameEncoded();
    }
    Reassociate(CODE.name, EncodeComponent(c), EncodeComponent(name), EncodeComponent(v));
  }

  lemma {:induction false} Reassociate(a: Bytes, b: Bytes, c: Bytes, d: Bytes)
    ensures (a + ['='] + b) + ['&'] + (c + ['='] + d) == a + ['='] + (b + ['&'] + c) + ['='] + d
  {
  }

  lemma {:induction false} CodeNameEncoded()
    ensures EncodeComponent(CODE.name) == CODE.name
  {
    EncodeUnreserved(CODE.name);
  }

  /**
   * A field after the code (a `state` the caller passed to authorize_url
   * comes back this way): the last `=`-piece, and so the code taken as
   * written, is the value of that field.
   */
  lemma {:induction false} ExtractCodeTakesLastValue(c: Bytes, name: Bytes, v: Bytes)
    requires ' ' !in v && v != []
    ensures ExtractCode(Some(EncodeWwwForm([(CODE, Str(c)), (Sym(name), Str(v))]))) == Ok(v)
  {
    var parts := TwoFieldPieces(c, name, v);
    ExtractCodeOfPieces(parts);
    UnescapeEncoded(v);
  }

  /** The query for a code and one more field, cut at its `=` signs. */
  lemma {:induction false} TwoFieldPieces(c: Bytes, name: Bytes, v: Bytes) returns (parts: seq<Bytes>)
    requires v != []
    ensures |parts| == 3 && parts[2] == EncodeComponent(v) && parts[2] != []
    ensures forall i :: 0 <= i < |parts| ==> '=' !in parts[i]
    ensures EncodeWwwForm([(CODE, Str(c)), (Sym(name), Str(v))]) == Join<Octet>(parts, '=')
  {
    var ec, en, ev := EncodeComponent(c), EncodeComponent(name), EncodeComponent(v);
    var middle := ec + ['&'] + en;
    parts := [CODE.name, middle, ev];
    JoinThree(CODE.name, middle, ev);
    TwoFieldQuery(c, name, v);
    assert '=' !in middle by {
      EncodedHasNo(c, '=');
      EncodedHasNo(name, '=');
    }
    EncodedHasNo(v, '=');
    EncodeComponentNonEmpty(v);
  }

  lemma {:induction false} JoinThree(a: Bytes, b: Bytes, c: Bytes)
    ensures Join<Octet>([a, b, c], '=') == a + ['='] + b + ['='] + c
  {
    assert [a, b, c][1..] == [b, c];
    assert Join<Octet>([b, c], '=') == b + ['='] + c;
  }

  /** On a query with a field after the code, the `code` field's value is still what the corrected extraction returns. */
  lemma {:induction false} CodeParamIgnoresLaterFields(c: Bytes, name: Bytes, v: Bytes)
    ensures CodeParam(Some(EncodeWwwForm([(CODE, Str(c)), (Sym(name), Str(v))]))) == Ok(c)
  {
    CodeParamOfEncoded(c, [(Sym(name), Str(v))]);
    assert [(CODE, Str(c))] + [(Sym(name), Str(v))] == [(CODE, Str(c)), (Sym(name), Str(v))];
  }

  /**
   * The authorization-code request that follows the final redirect
   * (authorize, lines 25-26), with the code taken as line 25 is written.
   */
  function TokenRequest(cfg: Config, finalQuery: Option<Bytes>): Result<Entries, Error> {
    match ExtractCode(finalQuery)
    case Ok(code) => Ok(AccessTokenParams(cfg, Str(code)))
    case Err(e) => Err(e)
  }

  /**
   * The request fails exactly when the redirect has no query or a query of
   * `=` signs only; otherwise it sends the last non-empty `=`-piece of the
   * query, unescaped, as the code.
   */
  lemma {:induction false} TokenRequestSpec(cfg: Config, finalQuery: Option<Bytes>)
    ensures TokenRequest(cfg, finalQuery).Err? <==>
            finalQuery.None? || forall i :: 0 <= i < |finalQuery.value| ==> finalQuery.value[i] == '='
    ensures TokenRequest(cfg, finalQuery).Ok? ==>
            exists i :: IsLastNonEmpty(Split<Octet>(finalQuery.value, '='), i) &&
                        TokenRequest(cfg, finalQuery).value ==
                        AccessTokenParams(cfg, Str(Unescape(Split<Octet>(finalQuery.value, '=')[i])))
  {
    if finalQuery.Some? {
      ExtractCodeSpec(finalQuery.value);
    }
  }

  /**
   * With a field after the code, the request as written sends that field's
   * value as the code, where the corrected request sends the code.
   */
  lemma {:induction false} TokenRequestSendsLastValue(cfg: Config, c: Bytes, name: Bytes, v: Bytes)
    requires ' ' !in v && v != []
    ensures TokenRequest(cfg, Some(EncodeWwwForm([(CODE, Str(c)), (Sym(name), Str(v))]))) ==
            Ok(AccessTokenParams(cfg, Str(v)))
    ensures CorrectedTokenRequest(cfg, Some(EncodeWwwForm([(CODE, Str(c)), (Sym(name), Str(v))]))) ==
            Ok(AccessTokenParams(cfg, Str(c)))
  {
    ExtractCodeTakesLastValue(c, name, v);
    CodeParamIgnoresLaterFields(c, name, v);
  }

  /** The same request with the corrected extraction: the `code` field's value is sent. */
  function CorrectedTokenRequest(cfg: Config, finalQuery: Option<Bytes>): (r: Result<Entries, Error>)
    ensures r.Ok? <==> CodeParam(finalQuery).Ok?
    ensures r.Ok? ==> r.value == AccessTokenParams(cfg, Str(CodeParam(finalQuery).value))
  {
    match CodeParam(finalQuery)
    case Ok(code) => Ok(AccessTokenParams(cfg, Str(code)))
    case Err(e) => Err(e)
  }

  /**
   * A redirect such as `https://app/cb?code=XYZ789`, whose query is `code=`
   * and a code of unreserved bytes, leads to one token request, for that
   * code, whichever extraction is used.
   */
  lemma {:induction false} TokenRequestForRedirect(cfg: Config, c: Bytes)
    requires c != [] && forall i :: 0 <= i < |c| ==> Unreserved(c[i])
    ensures TokenRequest(cfg, Some(CODE.name + ['='] + c)) == Ok(AccessTokenParams(cfg, Str(c)))
    ensures CorrectedTokenRequest(cfg, Some(CODE.name + ['='] + c)) == Ok(AccessTokenParams(cfg, Str(c)))
  {
    EncodeUnreserved(c);
    CodeQuery(c);
    ExtractionsAgreeOnCodeAlone(c);
  }

  // ---------------------------------------------------------------------------
  // The consent step (allow_access)
  // ---------------------------------------------------------------------------

  const POSTMAN_MARKER: Bytes := "getpostman"
  const CONSENT_FORM: Bytes := "PublicOAuth2Form"
  const ALLOW_BUTTON: Bytes := "AllowButton"

  /** What allow_access does on the page reached after login. */
  datatype Consent =
    | AlreadyGranted                                // return without touching the page
    | SubmitConsent(formId: Bytes, buttonId: Bytes) // submit the form with this id through the button with this id

  /**
   * allow_access: skip when the current URL contains "getpostman" or the
   * configured redirect_uri; otherwise submit the consent form.
   */
  function AllowAccess(currentUrl: Bytes, redirectUri: Value): (r: Result<Consent, Error>)
    ensures r == Ok(AlreadyGranted) <==>
            Contains(currentUrl, POSTMAN_MARKER) || (redirectUri.Str? && Contains(currentUrl, redirectUri.s))
    ensures r == Ok(SubmitConsent(CONSENT_FORM, ALLOW_BUTTON)) <==>
            !Contains(currentUrl, POSTMAN_MARKER) && redirectUri.Str? && !Contains(currentUrl, redirectUri.s)
    ensures r.Err? <==> !Contains(currentUrl, POSTMAN_MARKER) && !redirectUri.Str?
  {
    if Includes(currentUrl, POSTMAN_MARKER) then Ok(AlreadyGranted)
    else match redirectUri
      case Str(uri) => if Includes(currentUrl, uri) then Ok(AlreadyGranted) else Ok(SubmitConsent(CONSENT_FORM, ALLOW_BUTTON))
      case _ => Err(RedirectUriNotAString)
  }

  /** Once the browser sits on the redirect URI (whatever surrounds it), the consent form is never submitted. */
  lemma {:induction false} RedirectSkipsConsent(before: Bytes, uri: Bytes, after: Bytes)
    ensures AllowAccess(before + uri + after, Str(uri)) == Ok(AlreadyGranted)
  {
    var url := before + uri + after;
    assert url[|before|..|before| + |uri|] == uri;
    assert OccursAt(url, uri, |before|);
  }

  // ---------------------------------------------------------------------------
  // authorized?
  // ---------------------------------------------------------------------------

  /** The exceptions the probe can raise: BadRequestException, or any other. */
  datatype Exception = BadRequestException | OtherException(name: Bytes)

  /** The outcome of `get("/Current/Me", no_division: true)`. */
  datatype Probe<R> = Responded(response: R) | Raised(exception: Exception)

  /** What `authorized?` does: return a value, return false, or let an exception through. */
  datatype Answer<R> = Returns(response: R) | ReturnsFalse | Propagates(exception: Exception)

  /** authorized?: only BadRequestException is rescued, as false; everything else passes through. */
  function Authorized<R>(probe: Probe<R>): (a: Answer<R>)
    ensures a.ReturnsFalse? <==> probe.Raised? && probe.exception == BadRequestException
    ensures a.Propagates? <==> probe.Raised? && probe.exception != BadRequestException
    ensures a.Propagates? ==> a.exception == probe.exception
    ensures a.Returns? <==> probe.Responded?
    ensures a.Returns? ==> a.response == probe.response
  {
    match probe
    case Responded(response) => Returns(response)
    case Raised(BadRequestException) => ReturnsFalse
    case Raised(e) => Propagates(e)
  }
}
