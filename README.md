# Elmas OAuth core, modelled in Dafny

This project models the pure core of `Elmas::OAuth`, the OAuth 2.0 client of the
Exact Online Ruby gem (`lib/elmas/oauth.rb`), and proves what that code
promises:

- **The authorization request** (section 4.1.1 of RFC 6749). `authorize_url`
  writes `response_type = "code"` and the configured `redirect_uri` into the
  caller's options hash with `||=`. It then merges the options over
  `authorization_params` (`{client_id: ...}`) and returns
  `base_url + "/api/oauth2/auth/"` with the merged parameters as an
  `application/x-www-form-urlencoded` query.
- **The token requests**: `access_token_params` (the authorization-code grant,
  section 4.1.3 of RFC 6749) and `refresh_access_token_params` (the refresh
  grant, section 6 of RFC 6749).
- **The authorization code** of the final redirect (line 25). The query is split on `=` as Ruby does,
  the last piece is kept, and `URI.unescape` decodes it (percent-decoding,
  section 2.1 of RFC 3986).
- **The consent step** of `allow_access`: it is skipped when the current URL contains
  `getpostman` or the configured redirect URI. Otherwise the form
  `PublicOAuth2Form` is submitted through the button `AllowButton`.
- **`authorized?`**: a `BadRequestException` from the probe becomes `false`;
  anything else passes through.
- **`OauthResponse`**: the `access_token`, `division` and `refresh_token`
  members of the parsed token response, nil when missing.

Modules, leaf first:

- `wrappers.dfy` (`Wrappers`): Option and Result.
- `bytes.dfy` (`Bytes`): Ruby strings as byte strings. It also holds `String#split` with
  a one-character separator other than a space (line 25 uses `=`), `Array#join` and `String#include?`.
- `ruby_hash.dfy` (`RubyHash`): Ruby's insertion-ordered `Hash`: `[]`, `[]=`,
  `||=` and `merge`, with a map view. `HashObject` is a hash shared by
  reference, which `||=` updates in place.
- `form_encoding.dfy` (`FormEncoding`): `URI.encode_www_form` with Ruby's
  character set, the model's own inverse `DecodeForm`, and `URI.unescape`.
- `oauth.dfy` (`OAuth`): the OAuth logic listed above.
- `oauth_response.dfy` (`OauthResponses`): the response accessors.

Modelling choices:

- A Ruby string is a sequence of bytes. Each byte is a character below 256 (`Bytes.Octet`).
- Hash keys tell a symbol (`:code`) from a string (`"code"`), as Ruby does.
- Hash values are nil, booleans or strings. `||=` overwrites nil and false.
- The configuration (`client_id`, `client_secret`, `redirect_uri`, `base_url`) is a
  `Config` value that the methods read.
- The probe of `authorized?` and the page URL of `allow_access` are inputs.

Behaviour of the code that the model keeps:

- The authorize query lists `client_id` first, then the caller's keys in their
  order, then the defaults that `||=` added.
- `authorized?` rescues `BadRequestException` only; any other exception propagates.
- Line 25 has no error of its own: a missing query, or a query with no
  non-empty piece, raises `NoMethodError` (`OAuth.Error.QueryMissing`,
  `OAuth.Error.CodeMissing`).
- A query with a field after the code, or with an empty code, gives the wrong
  code (see Findings).

## Model

| member | source | states |
|---|---|---|
| `OAuth.AuthorizeUrl` | lib/elmas/oauth.rb:63-70 | writes both `||=` defaults into the caller's hash object and returns the URL built from the merged parameters |
| `OAuth.ResponseTypeDefault` | lib/elmas/oauth.rb:64 | `response_type` is "code" only when the caller's value is missing, nil or false; a value given is kept |
| `OAuth.RedirectUriDefault` | lib/elmas/oauth.rb:65 | `redirect_uri` is the configured one only when the caller's value is missing, nil or false |
| `OAuth.DefaultsKeepOptions` | lib/elmas/oauth.rb:64-65 | the defaulting changes no other key, keeps the caller's keys in order and adds at most the two defaults |
| `OAuth.AuthorizationParams` | lib/elmas/oauth.rb:123-127 | the one-entry hash `{client_id: client_id}` (properties in `OAuth.AuthorizationParamsSpec`) |
| `OAuth.WithDefaults` | lib/elmas/oauth.rb:64-65 | the options after `response_type ||= "code"` and then `redirect_uri ||= redirect_uri` (properties in `OAuth.ResponseTypeDefault`, `OAuth.RedirectUriDefault`, `OAuth.DefaultsKeepOptions`) |
| `OAuth.AuthorizeQuery` | lib/elmas/oauth.rb:66 | `authorization_params.merge(options)` (properties in `OAuth.AuthorizeQueryMerge`, `OAuth.AuthorizeQueryGet`) |
| `OAuth.AuthorizeUrlFor` | lib/elmas/oauth.rb:67-69 | `base_url`, the path `/api/oauth2/auth/`, `?` and the encoded query (properties in `OAuth.AuthorizeUrlShape`, `OAuth.AuthorizeUrlInjective`) |
| `OAuth.AuthorizationParamsSpec` | lib/elmas/oauth.rb:123-127 | `authorization_params` holds exactly `client_id` with the configured value |
| `OAuth.AuthorizeQueryMerge` | lib/elmas/oauth.rb:66 | the merged parameters are `{client_id}` overridden by the defaulted options; `client_id` comes first, the options' other keys follow in order, nothing else is added |
| `OAuth.AuthorizeQueryGet` | lib/elmas/oauth.rb:66 | key by key: the options' value wins, including for `client_id`; otherwise the configured `client_id`; otherwise nil |
| `OAuth.AuthorizeUrlShape` | lib/elmas/oauth.rb:67-69 | the URL is `base_url/api/oauth2/auth/?` followed by a query that decodes back to exactly the merged parameters |
| `OAuth.AuthorizeUrlInjective` | lib/elmas/oauth.rb:66-69 | two calls give the same URL only if their merged parameters agree in names, texts and order |
| `OAuth.AccessTokenParams` | lib/elmas/oauth.rb:129-137 | the five-entry hash of the authorization-code grant (properties in `OAuth.AccessTokenParamsSpec`) |
| `OAuth.RefreshAccessTokenParams` | lib/elmas/oauth.rb:139-146 | the four-entry hash of the refresh grant (properties in `OAuth.RefreshAccessTokenParamsSpec`) |
| `OAuth.AccessTokenParamsSpec` | lib/elmas/oauth.rb:129-137 | keys exactly `client_id, client_secret, grant_type, code, redirect_uri`; `grant_type` is "authorization_code"; the code passes through unchanged |
| `OAuth.RefreshAccessTokenParamsSpec` | lib/elmas/oauth.rb:139-146 | keys exactly `client_id, client_secret, grant_type, refresh_token`; `grant_type` is "refresh_token"; the token passes through; no `code` or `redirect_uri` |
| `OAuth.ExtractCode` | lib/elmas/oauth.rb:25 | line 25 as written: Ruby's split on `=`, the last piece, `URI.unescape`; no query or no piece is an error (properties in `OAuth.ExtractCodeSpec`) |
| `OAuth.CodeParam` | lib/elmas/oauth.rb:25 | (corrected extraction) the form-decoded query's first `code` field value (properties in `OAuth.CodeParamOfEncoded`) |
| `OAuth.ExtractCodeSpec` | lib/elmas/oauth.rb:25 | the code is the unescaping of the last non-empty `=`-separated piece of the query; there is none, and Ruby raises, exactly when the query is all `=` |
| `OAuth.ExtractCodeOfPieces` | lib/elmas/oauth.rb:25 | for a query joined from `=`-free pieces whose last piece is non-empty, the code is that last piece, unescaped |
| `OAuth.ExtractCodeOfEmptyValue` | lib/elmas/oauth.rb:25 | the query `code=` yields the code "code" |
| `OAuth.ExtractCodeOfCodeField` | lib/elmas/oauth.rb:25 | the query `code=` plus a non-empty value without `=` yields the value, unescaped |
| `OAuth.ExtractCodeTakesLastValue` | lib/elmas/oauth.rb:25 | with a field after the code, the code as written is that last field's value |
| `OAuth.CodeParamOfEncoded` | lib/elmas/oauth.rb:25 | the corrected extraction returns the code field's value, whatever fields follow |
| `OAuth.CodeParamIgnoresLaterFields` | lib/elmas/oauth.rb:25 | on the query of the finding, the corrected extraction returns the code |
| `OAuth.ExtractionsAgreeOnCodeAlone` | lib/elmas/oauth.rb:25 | on `code=` plus a form-encoded code without spaces, the written and the corrected extraction both return the code |
| `OAuth.TokenRequest` | lib/elmas/oauth.rb:25-26 | the token request `authorize` makes: `access_token_params` of the code taken as line 25 is written, or line 25's error (properties in `OAuth.TokenRequestSpec`) |
| `OAuth.TokenRequestSpec` | lib/elmas/oauth.rb:25-26 | the request fails exactly when there is no query or the query is all `=`; otherwise it sends the last non-empty `=`-piece, unescaped, as the code |
| `OAuth.TokenRequestSendsLastValue` | lib/elmas/oauth.rb:25-26 | with a field after the code, the request as written sends that field's value as the code, and the corrected one sends the code |
| `OAuth.CorrectedTokenRequest` | lib/elmas/oauth.rb:25-26 | (corrected extraction) the same request with the `code` field's value, failing exactly when the corrected extraction fails |
| `OAuth.TokenRequestForRedirect` | lib/elmas/oauth.rb:25-26 | a redirect `...?code=XYZ789` (any code of unreserved bytes) leads to the token request for that code, as written and corrected alike |
| `OAuth.AllowAccess` | lib/elmas/oauth.rb:115-121 | consent is skipped iff the URL contains "getpostman" or the configured redirect URI; otherwise `PublicOAuth2Form` is submitted via `AllowButton`; a redirect URI that is not a string raises |
| `OAuth.RedirectSkipsConsent` | lib/elmas/oauth.rb:117 | a URL that contains the redirect URI never leads to the consent form |
| `OAuth.Authorized` | lib/elmas/oauth.rb:39-45 | false exactly when the probe raises `BadRequestException`; otherwise the probe's result is returned or its exception propagates |
| `OAuth.FirstValue` | lib/elmas/oauth.rb:25 | (corrected extraction) the value of the first field with the name, and an error iff no such field has a value |
| `RubyHash.Get` | lib/elmas/oauth.rb:64-65 | `Hash#[]`: the value of the entry holding the key, nil when none does (properties in `RubyHash.GetView`) |
| `RubyHash.Store` | lib/elmas/oauth.rb:64-66 | `Hash#[]=`: overwrite in place or append (properties in `RubyHash.StoreSpec`) |
| `RubyHash.OrAssigned` | lib/elmas/oauth.rb:64-65 | `h[k] ||= v` (properties in `RubyHash.OrAssignedSpec`) |
| `RubyHash.Merge` | lib/elmas/oauth.rb:66 | `Hash#merge`: the argument's entries stored into a copy of the receiver in turn (properties in `RubyHash.MergeKeys`, `RubyHash.MergeView`) |
| `RubyHash.GetView` | lib/elmas/oauth.rb:64-65 | `Hash#[]` on a present key gives the value of the first (the only) entry holding it; on a missing key, nil; the map view holds exactly the hash's keys |
| `RubyHash.OrAssignedSpec` | lib/elmas/oauth.rb:64-65 | `h[k] ||= v` stores v exactly when the key held nil or false or was missing; other keys and the key order stay |
| `RubyHash.HashObject.OrAssign` | lib/elmas/oauth.rb:64-65 | `||=` on the shared hash object replaces its entries by the `||=` result |
| `RubyHash.StoreSpec` | lib/elmas/oauth.rb:66 | `h[k] = v` changes the value under k only, overwriting in place or appending |
| `RubyHash.MergeView` | lib/elmas/oauth.rb:66 | `merge`: under every key the argument holds, its value wins; other keys keep the receiver's |
| `RubyHash.MergeKeys` | lib/elmas/oauth.rb:66 | `merge`: keys stay unique; the receiver's keys come first, then the argument's new keys in its order |
| `RubyHash.Find` | lib/elmas/oauth.rb:64 | the position of the first entry with the key, or none exactly when no entry has it |
| `FormEncoding.EncodeComponent` | lib/elmas/oauth.rb:68 | `URI.encode_www_form_component`: unreserved bytes kept, space as `+`, other bytes as upper-case `%XX` (properties in `FormEncoding.DecodeEncodeComponent`, `FormEncoding.EncodeComponentBytes`) |
| `FormEncoding.EncodeWwwForm` | lib/elmas/oauth.rb:68 | `URI.encode_www_form`: `name=value` fields joined with `&`, a nil value written as the name alone (properties in `FormEncoding.DecodeEncodeWwwForm`) |
| `FormEncoding.Unescape` | lib/elmas/oauth.rb:25 | `URI.unescape`: `%XX` decoded, every other byte, `+` included, kept (properties in `FormEncoding.UnescapePlain`, `FormEncoding.UnescapeEncoded`) |
| `FormEncoding.DecodeEncodeComponent` | lib/elmas/oauth.rb:68 | `URI.encode_www_form_component` loses nothing: the model's decoder gives the bytes back |
| `FormEncoding.DecodeEncodeWwwForm` | lib/elmas/oauth.rb:68 | `URI.encode_www_form` of a non-empty hash decodes back to its fields' names and texts, in order |
| `FormEncoding.EncodeWwwFormInjective` | lib/elmas/oauth.rb:68 | two non-empty hashes give the same query only when their fields agree |
| `FormEncoding.EncodeWwwFormBytes` | lib/elmas/oauth.rb:68 | the query holds only unreserved bytes, `+`, `%`, `=` and `&`, which `URI#query=` keeps as they are |
| `FormEncoding.EncodeComponentBytes` | lib/elmas/oauth.rb:68 | an encoded component never holds `=` or `&` |
| `FormEncoding.UnescapePlain` | lib/elmas/oauth.rb:25 | `URI.unescape` leaves a text without `%` unchanged |
| `FormEncoding.UnescapeEncoded` | lib/elmas/oauth.rb:25 | `URI.unescape` recovers a form-encoded value that has no space |
| `Bytes.Split` | lib/elmas/oauth.rb:25 | splitting yields at least one field, and no field holds the separator |
| `Bytes.JoinSplit` | lib/elmas/oauth.rb:25 | joining the fields of a split with the separator gives the text back |
| `Bytes.SplitJoin` | lib/elmas/oauth.rb:25 | splitting a join of separator-free fields gives the fields back |
| `Bytes.RubySplit` | lib/elmas/oauth.rb:25 | `String#split` with a one-character separator other than a space (line 25 uses `=`): all fields, trailing empty ones dropped (properties in `Bytes.Split`, `Bytes.DropTrailingEmpty`, `Bytes.RubySplitJoin`) |
| `Bytes.DropTrailingEmpty` | lib/elmas/oauth.rb:25 | Ruby's split drops exactly the trailing empty fields: a prefix whose last field is non-empty |
| `Bytes.RubySplitJoin` | lib/elmas/oauth.rb:25 | Ruby's split undoes a join of separator-free fields whose last field is non-empty |
| `Bytes.SplitAllEmpty` | lib/elmas/oauth.rb:25 | all fields are empty exactly when the text holds only separators |
| `Bytes.Includes` | lib/elmas/oauth.rb:116-117 | `String#include?` holds exactly when the text contains the string at some position |
| `OauthResponses.AccessToken` | lib/elmas/oauth.rb:156-158 | the body's `access_token` member, nil when missing |
| `OauthResponses.Division` | lib/elmas/oauth.rb:160-162 | the body's `division` member, nil when missing |
| `OauthResponses.RefreshToken` | lib/elmas/oauth.rb:164-166 | the body's `refresh_token` member, nil when missing |
| `OauthResponses.TokensReadBack` | lib/elmas/oauth.rb:151-167 | a body carrying the three tokens hands each back unchanged through its own accessor |
| `OauthResponses.AccessorsReadOwnMember` | lib/elmas/oauth.rb:156-166 | each accessor reads its own member only |

## Findings

| source | as written | input that shows it | evidently intended | confidence | as-written member | corrected member |
|---|---|---|---|---|---|---|
| lib/elmas/oauth.rb:25 | the code is the last `=`-separated piece of the whole query, and Ruby's split drops an empty last piece | `code=abc&state=xyz` gives "xyz", so a `state` passed to `authorize_url` comes back as the code; `code=` gives "code" | the value of the query's `code` field | medium, not executed | `OAuth.ExtractCodeTakesLastValue` | `OAuth.CodeParamIgnoresLaterFields` |

`OAuth.ExtractCode` models line 25 as written. `OAuth.ExtractCodeOfEmptyValue` shows the `code=` case.
`OAuth.CodeParam` is the corrected extraction: it form-decodes the query and takes the first `code`
field that has a value. `OAuth.TokenRequest` is the token request as written and
`OAuth.CorrectedTokenRequest` the one with the corrected extraction; `OAuth.TokenRequestSendsLastValue`
sets them side by side. `OAuth.ExtractionsAgreeOnCodeAlone` shows
that the two agree on the usual redirect, which carries `code=` and the code alone.

## Left out

- Browser automation with Mechanize is not modelled: `login`, loading pages, filling `UserNameField` and `PasswordField`, clicking (lines 20, 105-113, 118-120). This is I/O in a foreign library; only the skip-or-submit decision of `allow_access` is modelled.
- AllowAccess: does not model the `NoMethodError` Mechanize leads to when the page has no `PublicOAuth2Form`, because the page itself is outside the model.
- `get_access_token` and `get_refresh_token` (lines 73-101) are network calls through Faraday. Their URLs, headers and body encoding are not modelled; only the parameter hashes they send are.
- `authorize` as a whole is not modelled (lines 18-27). Only its code extraction and the request it leads to are (`OAuth.TokenRequest`).
- The probe `get("/Current/Me", ...)` is not modelled (lines 41, 48). Its outcome is an input of `OAuth.Authorized`.
- `authorize_division` is not modelled (line 48). It only reads the probe's result.
- `BadRequestException` subclasses are not modelled. `OAuth.Authorized` treats `BadRequestException` as one exception.
- `refresh_authorization` and `auto_authorize` are not modelled (lines 29-37, 51-60). They write the global configuration and read environment variables.
- `warn` and `Elmas.error` are not modelled. They only produce output.
- JSON parsing in `OauthResponse#body` is not modelled (lines 152-154). The body is given as a parsed JSON object. Floating-point numbers are not modelled.
- `URI.encode_www_form` is modelled for nil, boolean and string values only. Array values (repeated fields) and other objects' `to_s` are not modelled. Character-set conversion for non-binary encodings is not modelled either: strings are taken as bytes.
- The authorize URL is built by concatenation. `URI(...)` parsing and `URI#to_s` are assumed to give back `base_url + "/api/oauth2/auth/"`; `FormEncoding.EncodeWwwFormBytes` shows the query itself passes through `URI#query=` unchanged.
- `URI.unescape` is assumed to exist; it was removed in Ruby 3.0.
