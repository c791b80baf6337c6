# skype_web_php request and session core, in Dafny

This project models the request/response and token logic of the PHP Skype Web
client `skype_web_php`:

- **Endpoints and requests** (`Endpoints`, `Requests`): an endpoint is an
  immutable template holding a method, a URI with `%s` placeholders, default
  parameters and two token flags. `format` fills the placeholders (`Sprintf`
  models `vsprintf` for `%s` and `%%`). `getRequest` injects the
  `X-SkypeToken` / `RegistrationToken` headers the flags ask for.
- **Request preparation** (`CurlRequest`): `CurlRequestWrapper::send` is a pure
  function from (method, url, params) to a prepared request. The prepared
  request holds the final URL, the curl method option, the header table, the
  emitted `name: value` header lines, the post fields and an upload. The
  module also covers callback chaining and the cookie file path.
- **Response handling** (`CurlResponse`): the bounded retry loop runs over an
  abstract sequence of attempt outcomes. The header-block parser covers the
  status line, the `name: value` fields and the body split. The getters are
  modelled too.
- **Session tokens** (`Session`, `Login`, `Cloud`):
  - the skype-token expiry and refresh rule;
  - the registration-token reset rule;
  - the `Set-RegistrationToken` header parser;
  - cloud-prefix extraction (the pattern `https?://([^-]*-)client\-s`, written
    as a hand-made matcher);
  - the `ServerData` slice of a login page.
- **Transport** (`Transport`, `Messaging`):
  - the endpoint registry built by `init`;
  - the redirect hook that learns the messaging cloud;
  - how `request` resolves, formats and signs an endpoint;
  - the re-registration branch of `login`;
  - the message payload and result of `send`.
- **Facade logic** (`Resolution`, `Skype`, `Threads`):
  - username-to-MRI resolution;
  - the status, profile, invite and thread-property whitelists;
  - `createThread` member normalisation;
  - the guards that keep a thread from losing its last admin.

PHP arrays are `Dicts.Dict`: an insertion-ordered key list plus a map.
PHP values are `Php.Value`.

Clocks (`time()`, `microtime()`), responses, `json_encode` and
`http_build_query` are parameters. The HTTP client, the session file and JSON
decoding are outside the model.

## Model

| member | source | states |
|---|---|---|
| Endpoints.New | skype_web_php/Endpoint.php:31-52 | Method and URI are stored as given. A missing `headers` entry is added as an empty table and nothing else in the params changes. Each flag is the supplied requirement if one was given, and otherwise the default `false`. |
| Endpoints.NeedSkypeToken | skype_web_php/Endpoint.php:59-64 | Sets the skype-token flag to true and keeps everything else, including the other flag. It is the identity on an endpoint whose flag is already set, so it is idempotent. |
| Endpoints.NeedRegToken | skype_web_php/Endpoint.php:81-86 | Sets the registration-token flag to true and keeps everything else. It is the identity on an endpoint whose flag is already set. |
| Endpoints.Format | skype_web_php/Endpoint.php:104-107 | Succeeds exactly when the args are an array and the template formats. The new URI is the `vsprintf` result. Method, params and flags are those of the receiver, which is a value and so stays unchanged. |
| Endpoints.RebuildKeepsFlags | skype_web_php/Endpoint.php:106 | Rebuilding an endpoint through the constructor, as `format` does, leaves its requirement table unchanged. |
| Endpoints.GetRequest | skype_web_php/Endpoint.php:114-125 | The request has the endpoint's method and URI. `X-SkypeToken` is the given skype token when that flag is truthy. `RegistrationToken` is the given reg token when its flag is truthy. Otherwise both headers, and all other headers and params, are those of `MergedParams`: the endpoint's params with a table given as `$args['params']` merged over them key by key. A `headers` key there replaces the whole header table. It fails only when a flag is set and the headers slot cannot be written. |
| Requests.WithParams | skype_web_php/Request.php:48-52 | Every supplied key takes its new value and every other param is unchanged. Existing key order is kept as a prefix. Method and URI are unchanged, and absent params change nothing. |
| Requests.WithHeader | skype_web_php/Request.php:60-66 | Header `name` becomes `value` and every other header is unchanged. A missing headers table is appended as a new key, and other params, method and URI are unchanged. It fails exactly when `headers` holds a value PHP cannot write a key into: anything but absent, `null`, `false`, a table or `[]`. |
| CurlRequest.MethodSwitch | skype_web_php/CurlRequestWrapper.php:123-151 | `GET` selects HTTPGET, `POST` selects POST, and exactly PUT/DELETE/PATCH/HEAD/OPTIONS select a custom request with that verb. |
| CurlRequest.MethodAndHeaders | skype_web_php/CurlRequestWrapper.php:123-154 | Fails exactly for a custom verb whose `Headers` slot cannot be written. `headers` is kept when set and non-null and is `[]` otherwise; every other param but `Headers` is kept. |
| CurlRequest.ApplyMethod | skype_web_php/CurlRequestWrapper.php:130-150 | For a custom verb, the override header is written under `Headers` (capital H) and no other param changes. Other verbs leave the params as they are. |
| CurlRequest.DefaultHeaders | skype_web_php/CurlRequestWrapper.php:152-154 | `headers` becomes an empty table exactly when it is unset or null. No other param changes. |
| CurlRequest.ConsumeFormat | skype_web_php/CurlRequestWrapper.php:155-161 | With `format` present, the URL is the `vsprintf` result and `format` is removed, failing exactly when `vsprintf` fails. Without it, URL and params are unchanged. |
| CurlRequest.ApplyParam | skype_web_php/CurlRequestWrapper.php:171-197 | `json` sets Content-Type `application/json`, Content-Length to the encoded length, and the post fields. `form_params` with no Content-Type or the urlencoded one is query-encoded with both headers, and the step fails exactly when the value is not an array (the PHP 8 TypeError of `http_build_query`). With any other Content-Type it only sets Content-Length to `strlen` of the raw value. A string `body` sets Content-Length and post fields, and a resource `body` becomes an upload sized by Content-Length. Other keys change nothing, and no header but these two is touched. The step fails exactly when `StepSucceeds` says so: urlencoded `form_params` that are not an array, or raw `form_params` whose `strlen` fails. It it leaves the Content-Type that `NextType` predicts. |
| CurlRequest.ApplyAll | skype_web_php/CurlRequestWrapper.php:162-198 | The loop succeeds exactly when the reference `LoopSucceeds`, which follows only the Content-Type from step to step, succeeds. It touches no header but Content-Type and Content-Length. Without body keys, it changes nothing. |
| CurlRequest.JsonOnly | skype_web_php/CurlRequestWrapper.php:171-177 | With a `json` parameter and no other body key, the request carries the JSON text with its type and length. |
| CurlRequest.OneBodyKey | skype_web_php/CurlRequestWrapper.php:162-198 | With a single body parameter among distinct keys, the whole loop gives what that one step gives. |
| CurlRequest.LoopSucceedsWhen | skype_web_php/CurlRequestWrapper.php:178-186 | The loop succeeds whatever the key order in two cases. In the first, the form parameters are an array, there is no `json` key, and the starting Content-Type is absent or urlencoded. In the second, the starting Content-Type is another one and `strlen` accepts the form parameters. |
| CurlRequest.Assemble | skype_web_php/CurlRequestWrapper.php:199-209 | Lines are emitted exactly when the header table is non-empty. They are the `name: value` lines in order, followed by a bare `Expect:` exactly for POST and PUT. |
| CurlRequest.Preprocess | skype_web_php/CurlRequestWrapper.php:120-161 | Succeeds exactly when a custom verb can write its `Headers` slot and, if `format` is given, it is an array and the template formats. The URL is then the formatted one and `format` is consumed. The override goes to `Headers`, `headers` is defaulted only when unset or null, and every other parameter keeps its value. |
| CurlRequest.PreprocessKeepsHeaders | skype_web_php/CurlRequestWrapper.php:130-161 | The method switch and `format` handling leave the `headers` table as the caller gave it. |
| CurlRequest.PreprocessKeepsBody | skype_web_php/CurlRequestWrapper.php:120-161 | The table the loop runs over has distinct keys, keeps `json`, `form_params` and `body` with their values, and adds no body key. Its header table is the caller's. |
| CurlRequest.PrepareSucceedsWhen | skype_web_php/CurlRequestWrapper.php:152-198 | After preprocessing, the `headers` slot is a table exactly when the caller's is usable (absent, `null`, a table or `[]`). Under the order-free condition the reference loop succeeds on the preprocessed table. |
| CurlRequest.LoopOfPreprocessed | skype_web_php/CurlRequestWrapper.php:152-198 | The loop over the preprocessed table succeeds exactly when the caller's headers are usable and the reference loop succeeds from the caller's Content-Type. |
| CurlRequest.RunLoop | skype_web_php/CurlRequestWrapper.php:162-198 | Succeeds exactly when `headers` is a table (or `[]`) and the reference loop succeeds from its Content-Type. It changes no header other than Content-Type and Content-Length. |
| CurlRequest.Prepare | skype_web_php/CurlRequestWrapper.php:120-209 | The whole of `send` before execution. It succeeds exactly when preprocessing succeeds, the caller's headers are usable and the reference loop succeeds. It always succeeds when, in addition, the form parameters are an array that goes urlencoded with no `json` key, or the caller set another Content-Type and `strlen` accepts them. The URL is the formatted one and the method option is that of the switch. NOBODY is set exactly for HEAD, and `format` is gone. The final headers equal the caller's except Content-Type and Content-Length. The emitted lines are as in `Assemble`. |
| CurlRequest.OverrideNeverEmitted | skype_web_php/CurlRequestWrapper.php:130-208 | When the caller sets no override header, no emitted header is named `X-HTTP-Method-Override`, whatever the method. |
| CurlRequest.PrepareRunsLoop | skype_web_php/CurlRequestWrapper.php:120-198 | A prepared request exists exactly when the loop over the preprocessed table, started from the caller's headers, succeeds; its headers, post fields and upload are the loop's. |
| CurlRequest.PrepareOneBody | skype_web_php/CurlRequestWrapper.php:162-198 | With one body parameter, the request exists exactly when preprocessing succeeds, the headers are usable and that one step succeeds on the caller's headers. Its headers, post fields and upload are that step's. |
| CurlRequest.PrepareJson | skype_web_php/CurlRequestWrapper.php:171-177 | A `json` body alone: the request is built exactly when preprocessing succeeds and the header table is usable. It carries the JSON text as post fields, typed `application/json` with its length, and no upload. |
| CurlRequest.PrepareFormParams | skype_web_php/CurlRequestWrapper.php:178-187 | `form_params` alone: with no Content-Type or the urlencoded one, the request is built exactly when preprocessing succeeds, the header table is usable and the value is an array. The query string is sent, urlencoded with its length. Under another type the raw value is sent with its `strlen`, and the request is built exactly when, in addition, `strlen` succeeds. There is never an upload. |
| CurlRequest.PrepareStringBody | skype_web_php/CurlRequestWrapper.php:188-190 | A string `body` alone: the request is built exactly when preprocessing succeeds and the header table is usable. The body is the post fields and its length the Content-Length. Every other header is the caller's, and there is no upload. |
| CurlRequest.PrepareResourceBody | skype_web_php/CurlRequestWrapper.php:191-196 | A resource `body` alone: the request is built exactly when preprocessing succeeds and the header table is usable. The body is uploaded with size `(int)` of the caller's Content-Length. There are no post fields, and the headers are the caller's. |
| CurlRequest.PrepareNoBody | skype_web_php/CurlRequestWrapper.php:162-198 | With no body parameter, the request exists exactly when preprocessing succeeds and the headers are usable. It has no post fields and no upload, and its headers are the caller's. |
| CurlRequest.RegisterCallback | skype_web_php/CurlRequestWrapper.php:108-110 | Appends the callback after the existing ones. |
| CurlRequest.ApplyCallbacksAppend | skype_web_php/CurlRequestWrapper.php:213-215 | Running `a + b` is running `a`, then `b` on its output. |
| CurlRequest.RegisteredLastRunsLast | skype_web_php/CurlRequestWrapper.php:108-215 | A newly registered callback receives the output of all earlier ones. |
| CurlRequest.CookieFiles | skype_web_php/CurlRequestWrapper.php:82-86 | There are cookie options exactly when a directory is given. Jar and file are the same path: the directory stripped of trailing separators, then `/cookie.txt`. |
| CurlResponse.ResponseData | skype_web_php/CurlResponseWrapper.php:33 | The info table holds the attempt's `http_code` and its other entries. |
| CurlResponse.Construct | skype_web_php/CurlResponseWrapper.php:30-52 | There are at most `retryOnError + 1` executions. The error is null exactly when `retryOnError <= 0` or one of the first `retryOnError` attempts succeeded, and then all earlier ones failed. After `retryOnError` failures, the extra execution is kept unchecked and the error text is that of the last checked attempt. |
| CurlResponse.Finish | skype_web_php/CurlResponseWrapper.php:47-51 | Headers, protocol, reason and body are parsed only when the error is null. Otherwise the raw response stays as the body. |
| CurlResponse.ParseHeaderLine | skype_web_php/CurlResponseWrapper.php:151-153 | After trailing CRs are stripped, the name is the colon-free text before the first `:` and the value is the text from two characters after it. A line without `:` gets the empty name and the text from its third character. |
| CurlResponse.AddValue | skype_web_php/CurlResponseWrapper.php:154-157 | Appends the value to the name's list, creating it if absent. Other names are unchanged. |
| CurlResponse.AddHeaderLinesCollects | skype_web_php/CurlResponseWrapper.php:150-158 | After all lines, each name's list is its earlier values followed by the values of the lines with that name, in arrival order. |
| CurlResponse.HeaderLineRoundTrip | skype_web_php/CurlResponseWrapper.php:151-153 | A line written `name: value`, with or without a trailing CR, parses back to `(name, value)` when the name has no colon. |
| CurlResponse.StatusLineParts | skype_web_php/CurlResponseWrapper.php:144-149 | The protocol is the first token. The status-code token is dropped, and the reason is the remaining tokens joined by single spaces. |
| CurlResponse.ParseResponse | skype_web_php/CurlResponseWrapper.php:142-160 | Protocol and reason are those of the first line of the trimmed header block. The header table collects, for every name, the values of the lines after that line. The body is the raw text after `headerLen` characters. |
| CurlResponse.ParseResponseOfBlock | skype_web_php/CurlResponseWrapper.php:142-160 | A block of a status line and header lines, then trailing whitespace and the body: protocol and reason come from the status line, the headers collect the values of those lines, and the body is what follows. |
| CurlResponse.HeadAndBody | skype_web_php/CurlResponseWrapper.php:143-159 | The header block and the body put back together give the raw response. |
| CurlResponse.GetHeader | skype_web_php/CurlResponseWrapper.php:105-107 | Returns the values under exactly that name, or an empty list. |
| CurlResponse.FailedReadsInfo | skype_web_php/CurlResponseWrapper.php:40 | The loop's test `Failed`: an attempt counts as failed exactly when the info table reports `http_code` 0 or curl reported an error number. |
| CurlResponse.GetStatusCode | skype_web_php/CurlResponseWrapper.php:114-116 | The status code is `getInfo('http_code')`. With `StatusCodeOfLastExecution`, it is the code of the last execution. |
| CurlResponse.GetInfo | skype_web_php/CurlResponseWrapper.php:133-135 | Returns the info entry, or nothing for an absent key. |
| CurlResponse.StatusCodeOfLastExecution | skype_web_php/CurlResponseWrapper.php:114-116 | The status code is that of the last execution. |
| Session.GetOrSetSkypeToken | skype_web_php/SkypeSession.php:19-33 | A token with `(int)expires_in >= now` is returned with only `expires_in` cast. An expired one takes the fetched token, with `expires_in` = fetched + later − threshold. Nothing else changes. |
| Session.RefreshedTokenIsFresh | skype_web_php/SkypeSession.php:21-26 | Given a fetched lifetime of at least the threshold, a refreshed token is not expired, and a second call returns it unchanged. |
| Session.LoadRegistrationToken | skype_web_php/SkypeSession.php:35-46 | An empty key or `expires < now` resets the five fields to "", "", 0, "", "". Otherwise only `expires` is cast to int. No other key changes. |
| Session.Blanked | skype_web_php/SkypeSession.php:38-44 | The five registration fields are blank and every other key is unchanged. |
| Session.StaleRecordStaysStale | skype_web_php/SkypeSession.php:37-45 | A reset record counts as stale at any later time. |
| Session.FreshRecordIsStable | skype_web_php/SkypeSession.php:37-45 | Reloading a fresh record gives it back unchanged. |
| Session.AfterEquals | skype_web_php/SkypeSession.php:56-58 | Gives the text after the first `=`. Without `=`, it drops the first character, as `strpos` false + 1 does. |
| Session.StoreFields | skype_web_php/SkypeSession.php:53-58 | Writes key, expires and endpointId and leaves every other key of the record. |
| Session.StoreLocation | skype_web_php/SkypeSession.php:59-67 | With a `Location` value, `url` is its first value. `cloudPrefix` is the pattern capture when it matches, and otherwise the previous value is kept. Nothing else changes. |
| Session.FieldsOfJoin | skype_web_php/SkypeSession.php:53-58 | For a header of three `;`-separated parts: key = trim(part 0), expires = int(after `=` of trim(part 1)) − threshold, endpointId = after `=` of trim(part 2). |
| Session.RegistrationHeaderRoundTrip | skype_web_php/SkypeSession.php:53-58 | A header written as `key; expires=N; endpointId=id` parses back to key, N − threshold and id. |
| Session.ExpiresField | skype_web_php/SkypeSession.php:55-56 | ` expires=N` yields N. |
| Session.EndpointIdField | skype_web_php/SkypeSession.php:57-58 | ` endpointId=id` yields id. |
| Session.GetOrSetTokenFromResponse | skype_web_php/SkypeSession.php:48-76 | With a status other than 201 or no `Set-RegistrationToken` header, the record is returned unchanged. Otherwise the header fields are stored, then the `Location` fields. |
| Session.ServerDataSlice | skype_web_php/SkypeSession.php:8-13 | The slice runs from the first `{` at or after the marker up to the first `;</script>` after it, and is empty when that terminator is missing. |
| Session.ServerDataSliceSpec | skype_web_php/SkypeSession.php:9-13 | The chain of `strpos`/`substr` calls computes exactly that slice. |
| Session.ServerDataOfPage | skype_web_php/SkypeSession.php:9-13 | On a page with the marker, a `{` and a terminator, the slice is the text between them. |
| Login.LoginServerData | skype_web_php/SkypeLogin.php:48-54 | The same slice, after the longer `<script type="text/javascript">var ServerData` marker. |
| Login.GetSkypeToken | skype_web_php/SkypeLogin.php:70-84 | The refresh rule is the same as in the session class. An unexpired token keeps its value with `expires_in` cast. An expired one takes the fetched token and fetched + later − threshold. Other keys are unchanged. |
| Cloud.SchemeEnd | skype_web_php/SkypeSession.php:63 | `https?://` matches at a position exactly when one of the two schemes starts there, and it ends after it. |
| Cloud.MatchAt | skype_web_php/SkypeSession.php:63 | A match is a run without `-` ending in one `-` right after the scheme and right before `client-s`. |
| Cloud.FirstMatch | skype_web_php/SkypeSession.php:63 | The result is the match at the leftmost matching position from the start onward. Nothing means no position matches. |
| Cloud.CloudPrefix | skype_web_php/SkypeSession.php:63-66 | There is no prefix exactly when the pattern matches nowhere. Otherwise it is the capture at the leftmost matching position, and it ends in its only `-`. |
| Cloud.PrefixOfGatewayUrl | skype_web_php/SkypeSession.php:63-66 | The prefix of `http(s)://host-client-s...` is `host-` for a host without `-`. |
| Transport.AsmEndpoint | skype_web_php/Transport.php:41-42 | POST to the asm token URI, with no token flags. |
| Transport.RegistrationEndpoint | skype_web_php/Transport.php:44-46 | POST to the endpoints URI, needing the skype token only. |
| Transport.ContactsEndpoint | skype_web_php/Transport.php:48-50 | GET of the contacts URI, needing the skype token only. |
| Transport.SendMessageEndpoint | skype_web_php/Transport.php:52-54 | POST to the two-placeholder messages template, needing the registration token only. |
| Transport.LogoutEndpoint | skype_web_php/Transport.php:56-57 | The logout URI with the method spelled `Get`, with no token flags. |
| Transport.Lookup | skype_web_php/Transport.php:40-58 | A name is registered exactly when it is one of the five names. |
| Transport.LookupEntries | skype_web_php/Transport.php:40-58 | Each of the five names stands for its method, URI and token flags. |
| Transport.Registry | skype_web_php/Transport.php:40-58 | The table has the five names in registration order, each mapped to its endpoint. |
| Transport.Init | skype_web_php/Transport.php:35-59 | A null or empty static table is filled with the five endpoints, each answering as `Lookup` does. A non-empty table is kept. The result is never empty, so a second `init` keeps it (`InitIdempotent`). |
| Transport.InitIdempotent | skype_web_php/Transport.php:36-38 | Running `init` twice gives what running it once gives. |
| Transport.RedirectHook | skype_web_php/Transport.php:71-85 | Only statuses 301-303, 307 and 308 act. The cloud becomes the capture from the last `Location` value when it matches, and otherwise it is unchanged. |
| Transport.RedirectLearnsCloud | skype_web_php/Transport.php:73-82 | A redirect to `http(s)://host-client-s...` sets the cloud to `host-`, and seeing the same redirect again keeps it. |
| Transport.TokenArgs | skype_web_php/Transport.php:116-119 | The args hold the two tokens and no `params` entry. |
| Transport.BuildRequest | skype_web_php/Transport.php:104-123 | The request is `getRequest` of the resolved, formatted endpoint with the current tokens. The options handed to the client are the params without `format`, all other keys unchanged. |
| Transport.RequestCarriesTokens | skype_web_php/Transport.php:104-123 | The request to an endpoint has its method and URI, carries each token exactly when its flag is set, and has no other header. |
| Transport.TokenHeaders | skype_web_php/Endpoint.php:114-125 | The request of a registered endpoint has its method and URI, and only the headers for its flags. |
| Transport.NamedRequest | skype_web_php/Transport.php:108-115 | Requesting a registered name is requesting its endpoint directly, so formatting never alters the registry. |
| Transport.LoginRegistration | skype_web_php/Transport.php:180-199 | Without re-registration, the five fields come from the stored record, and so they do when the response is not 201 or lacks the header. On re-registration, they come from the record updated from the response. |
| Transport.ReregistersOfLoaded | skype_web_php/Transport.php:180-181 | Login re-registers exactly when the loaded key is empty or its expiry is before now. |
| Transport.NewRegistrationFields | skype_web_php/Transport.php:183-192 | After a 201 with the header, key, expires and endpointId are the parsed header fields. url and cloud come from `Location` when present, and otherwise from the stored record. |
| Transport.RegistrationFromHeader | skype_web_php/Transport.php:180-192 | After a 201 carrying `key; expires=N; endpointId=id`, login holds key, N − 600 and id. |
| Messaging.NewMessage | skype_web_php/Transport.php:215-220 | The payload has the keys content, messagetype, contenttype, clientmessageid, in that order: the text, `RichText`, `text` and the millisecond string. |
| Messaging.MessageJson | skype_web_php/Transport.php:215-225 | Without an edit id, the payload is the new message without `skypeeditedid`. With one, it has `skypeeditedid` and no `clientmessageid`, and its keys are content, messagetype, contenttype and skypeeditedid, in that order. |
| Messaging.SendRequest | skype_web_php/Transport.php:227-230 | The options sent with the message are the `json` payload alone, since `format` is consumed. With the registered table, `SendFormatted` gives the POST to the filled URI with the registration token. |
| Messaging.SendParams | skype_web_php/Transport.php:227-230 | The params are exactly `json` (the payload) and `format` = [cloud, `8:` + username]. |
| Messaging.Send | skype_web_php/Transport.php:212-237 | The request is the one built for `send_message` and the options are exactly `json`. With the arrival test as intended, the result is the milliseconds when the decoded response carries `OriginalArrivalTime`, and `false` otherwise. Without an edit id, the number returned equals the payload's client message id. |
| Messaging.HasArrivalAsWritten | skype_web_php/Transport.php:232 | PHP 8 `array_key_exists` on the decoded response: defined exactly for arrays, and then true exactly when the intended test is. |
| Messaging.SendAsWritten | skype_web_php/Transport.php:212-236 | `send` as written under PHP 8 fails exactly when the request cannot be built or the decoded response is not an array. Otherwise it agrees with `Send`. For any response `json_decode` can produce without `assoc` (line 151), it never returns the id. |
| Messaging.ArrivalObjectIsAnError | skype_web_php/Transport.php:232 | Any response object reporting an arrival time is a TypeError as written, while the intended `Send` returns the id whenever the request is built. |
| Messaging.ClientMessageIdIsMillis | skype_web_php/Transport.php:219-233 | The millisecond string converts back to the number returned. |
| Messaging.FormatSendUri | skype_web_php/Transport.php:52-53 | Formatting the send template puts the cloud and the conversation in its two slots. |
| Messaging.SendFormatted | skype_web_php/Transport.php:227-230 | The send request is a POST to the formatted URI, carrying the registration token and no skype token. |
| Messaging.SendGoesToCloud | skype_web_php/Transport.php:212-230 | With a cloud `host-` learnt from a redirect, a message goes to `https://host-client-s...` and the cloud prefix of that URI is `host-` again. |
| Sprintf.VSprintf | skype_web_php/Endpoint.php:106 | A template without `%` formats to itself. |
| Sprintf.FillTemplate | skype_web_php/Endpoint.php:106 | A template of literal runs separated by `%s` formats exactly when there are enough arguments. The arguments then appear in order between the runs. |
| Sprintf.ArgList | skype_web_php/Endpoint.php:106 | The argument list is an array's values in order. Anything else is an error. |
| Resolution.LookUpKey | skype_web_php/Skype.php:195-202 | A name with `:` is its own key. Otherwise the key is `:` + name, so the `@` branch has no effect. |
| Resolution.Matching | skype_web_php/Skype.php:204-216 | Keeps exactly the ids the key is a suffix of. |
| Resolution.UsernameToMri | skype_web_php/Skype.php:193-225 | A unique distinct contact match wins. Conversations count only when no contact matches. Otherwise the name is returned as is. |
| Resolution.ResolveIdempotent | skype_web_php/Skype.php:193-225 | Resolving a resolved name gives it back. |
| Skype.SetStatus | skype_web_php/Skype.php:171-176 | Goes through exactly for Online, Busy and Hidden (and `true`, which loose `in_array` lets through), forwarding the status unchanged. |
| Skype.KeepKeys | skype_web_php/Skype.php:240-245 | Keeps exactly the whitelisted keys, in order: the result is a subsequence of the keys (`SubsequenceOf`), no longer than they are, and distinct when they are. |
| Skype.SubsequenceInOrder | skype_web_php/Skype.php:240-245 | A subsequence lists any two of its entries in the order the keys do, so `unset` inside the `foreach` keeps the survivors' order. |
| Skype.Restricted | skype_web_php/Skype.php:240-245 | Each kept key keeps its value, and dropped keys are gone. |
| Skype.UpdateProfile | skype_web_php/Skype.php:233-248 | Fails exactly when no key is in the 16-key whitelist. Otherwise it sends the whitelisted entries in order. |
| Skype.UpdateProfileIdempotent | skype_web_php/Skype.php:240-245 | Filtering an already filtered profile changes nothing. |
| Skype.AcceptOrDeclineInvite | skype_web_php/Skype.php:316-322 | Accepts the call exactly for `accept`, `decline` (and `true`), and always forwards `decline`. |
| Skype.AcceptIsDeclined | skype_web_php/Skype.php:321 | Accepting an invite forwards `decline`. |
| Skype.AcceptOrDeclineInviteIntended | skype_web_php/Skype.php:316-321 | Corrected version that forwards the action it was given. |
| Skype.IntendedAnswerKeepsAction | skype_web_php/Skype.php:316-321 | The corrected version forwards `accept` as `accept` and `decline` as `decline`. |
| Skype.ThreadPropertyAllowed | skype_web_php/Skype.php:911-915 | Only joiningenabled, historydisclosed and topic (and `true`) pass. |
| Threads.Kept | skype_web_php/Skype.php:724-734 | Every kept entry comes from a given one, and every entry with a truthy resolved id is kept. |
| Threads.ListedHasSelf | skype_web_php/Skype.php:735-738 | The current user is in the list as Admin, either found or appended. |
| Threads.CreateThreadWith | skype_web_php/Skype.php:722-741 | Refused exactly when the list would be only the current user. Otherwise the list contains the current user as Admin and every member with a truthy resolved id. All entries are given ones or the appended admin. The list starts with the `Kept` entries, and an appended admin comes last. |
| Threads.CreateThread | skype_web_php/Skype.php:722-741 | With ids resolved by `UsernameToMri` against the contact and conversation lists, an empty list is refused. Otherwise the thread has an Admin that is the current user by id or resolved name, and it keeps every member whose resolved id is truthy. |
| Threads.SelfByNameNotRefused | skype_web_php/Skype.php:724-741 | A thread with only the current user under another name is not refused, because the stored id is the unresolved one. |
| Threads.TargetIndex | skype_web_php/Skype.php:822-825 | The last index with the id, or −1 when there is none. |
| Threads.ScanMembers | skype_web_php/Skype.php:819-832 | The member loop computes the target index, the admin count (case-insensitive) and whether the target is an admin. |
| Threads.RemoveKeepsAnAdmin | skype_web_php/Skype.php:874-887 | A removal that passes the guard leaves at least one admin. |
| Threads.EditKeepsAnAdmin | skype_web_php/Skype.php:826-846 | An edit that passes the guard, to role `user` or `admin`, leaves at least one admin. |
| Threads.OtherRoleLeavesNoAdmin | skype_web_php/Skype.php:833 | The guard checks only `user`: demoting the only admin to `Guest` passes and leaves no admin. |
| Threads.Removed | skype_web_php/Skype.php:885-887 | Without a target nothing changes. Otherwise exactly the entry at the target index goes, and the others keep their order. |
| Threads.Edited | skype_web_php/Skype.php:845-846 | The target entry takes the new role and every other entry is unchanged. |
| Threads.RemoveThreadMember | skype_web_php/Skype.php:861-901 | Refused exactly for an unknown thread or the only admin. Otherwise, without a target the list is unchanged; with one, exactly the last entry with the id goes and the rest keep their order. A removal keeps an admin if there was one. |
| Threads.AddOrEditThreadMember | skype_web_php/Skype.php:808-852 | Refused exactly for a falsy resolved id, an unknown thread or demoting the only admin to `user`. A new member asks for a reload. An edit gives the last entry with the id the new role and keeps the others, and an edit to `user`/`admin` keeps an admin. |

## Left out

- Network, curl and Guzzle execution, `sleep`, and the `Services_JSON` decoding of the server data. Attempts are an abstract outcome sequence and the decoded page is not modelled.
- Session file reads and writes and curl cookie files. The session record is an in-memory table.
- `time()` and `microtime()`. Times are integer parameters, and the two `time()` reads of a refresh are separate parameters `now` and `later`. Floating point is not modelled, so the millisecond clock is a `nat`.
- `json_encode` and `http_build_query` are function parameters. `jsonEncode` is total: a `json_encode` failure that returns `false` (a resource, malformed UTF-8) is not modelled. The model sends whatever string `jsonEncode` returns, where PHP would send `false` with a Content-Length of 0.
- `vsprintf` is modelled only for `%s` and `%%`. Other conversions are reported as a formatting failure.
- The HTML/OAuth login negotiation (`fetchSkypeToken`), `requestDOM`, `requestJSON`'s decoding, and every other transport call. `json_decode`'s result is the parameter `response` of `Send`: an object with its properties, or a PHP value.
- Messaging.Send: the request is described, not sent. The asm request of `login` is left out for the same reason.
- Session.LoadRegistrationToken: its `$expiresTreshold = 60` argument is never used by the code, so the model has none.
- Transport.LoginRegistration: on a non-201 response, the record it returns is the stored one, possibly stale, and not the blanked one. The model keeps this behaviour.
- Loose PHP comparisons (`==`, `in_array`) are modelled as exact string equality. The one exception is `true`, which passes the whitelists as loose `in_array` lets it; other juggling cases are not modelled.
- Threads.AddOrEditThreadMember: the reload after adding a new member and the conversation bookkeeping are outside the model. The result only says a reload is due.
- Threads.RemoveThreadMember: the conversation's member count and list updates are not modelled.
- Threads.CreateThreadWith: ids are kept as given, not resolved, as in the code. The transport call and the property calls that follow are not modelled.
- Resolution.UsernameToMri: the `@` branch (`substr` after `@`) is dead code whose result is overwritten, so it is not modelled.
- CurlRequest.Prepare: the `curl` and `debug` options only configure curl and are not modelled. `else if('text/plain')` is always true and is modelled as such. The override header stored under `Headers` is modelled but never emitted (see CurlRequest.OverrideNeverEmitted).
- CurlResponse.Construct: `retryOnError <= 0` leaves the error null, so the first attempt is parsed unchecked. The model keeps this behaviour.
- No cookie store or challenge-response hash is modelled, because the code delegates cookies to curl's file jar.
- Transport.SendMessageEndpoint: the URI template is assembled from its literal runs, which spell exactly the registered string.
- Request getters and the endpoint accessors are the fields of the Dafny datatypes.
- Strings are sequences of characters, and one character stands for one byte. `strlen`, the Content-Length values and `substr` count characters, so multi-byte UTF-8 text is not modelled.
- Integer casts (`Php.IntCast`, `Text.ParseLeadingInt`) read an optional sign and a decimal digit prefix. Exponent and fraction forms (`(int)"1e3"` is 1000), saturation at `PHP_INT_MAX`, and an `expires + now - threshold` that overflows to a float are not modelled; integers are unbounded.
- Only tables and the empty list `[]` are used as tables. A non-empty list used as the `headers` table, or written through with a string key, is reported as an error. PHP would add the key next to the numeric ones, and would emit `0: ...` header lines. Likewise `Endpoints.ExtraParams` drops a non-empty list passed as `$args['params']`, where `withParams` would copy its entries under the keys `0`, `1` and so on.
- CurlRequest.Prepare: a `headers` value of `false` is reported as an error. PHP turns it into an array when a body parameter writes a header first, and fails on `count(false)` only otherwise.

## Findings

| source | as written | input that shows it | evidently intended | confidence | as-written member | corrected member |
|---|---|---|---|---|---|---|
| skype_web_php/Transport.php:232 | `requestJSON` (line 151) decodes without `assoc`, and `send` tests the result with `array_key_exists`, which PHP 8 rejects on an object | a response `{"OriginalArrivalTime": ...}` raises a TypeError instead of returning the id | return the id when the response reports an arrival time, as under PHP 7 or with `json_decode($body, true)` | medium (PHP 8 only), not executed | Messaging.SendAsWritten (shown by Messaging.ArrivalObjectIsAnError) | Messaging.Send |
| skype_web_php/Skype.php:321 | `acceptOrDeclineInvite($mri, $action='decline')` passes the assignment `$action='decline'` as the argument | `acceptOrDeclineInvite($mri, 'accept')` forwards `'decline'` | forward the validated `$action` | high, not executed | Skype.AcceptOrDeclineInvite (shown by Skype.AcceptIsDeclined) | Skype.AcceptOrDeclineInviteIntended (proved by Skype.IntendedAnswerKeepsAction) |
