# Models of the zswag client and its Python server

zswag calls zserio services over OpenAPI. This project models the parts of it where correctness is
hard to see from one function body, and proves the properties those parts exist for:

- **OAuth2 token cache** (`TokenCache`, `TokenHandler`, `TokenRequest`). One handler is called by any
  number of threads; a readers-writer lock, the double check under it, expiry, refresh, fall-through to
  a new mint and every failure path are steps of a state machine, and the token endpoint may answer
  anything. A log records what was sent, accepted, refused and presented. The properties hold of every
  reachable state. The handler as code is proved to take the machine along one of its runs.
- **Security requirements** (`Security`). Handlers insert into the configuration while an OR of AND-sets
  is evaluated, and failed alternatives leave their insertions behind.
- **OAuth 1.0 signature base string** (`SignatureBase`, with `Sorting` and `Percent`).
- **URIs** (`Uri`, `UriParse`, with `Radix`). Path appending, percent encoding in place, and the parser
  with its cursor.
- **Path templates** (`Template`).
- **Base64 and base64url** (`Base64`, with `ByteValues`), on bytes as bit vectors.
- **HTTP settings** (`ScopeGlob`, `Configs`, `ConfigMerge`, `SettingsReload`, with `Multimaps`). Scopes as regular
  expressions, ordered merging, and reloading under a readers-writer lock.
- **Parameters** (`ParamStyle`, `IntCodec`, `ParameterCodec`). Styles from parsing to writing to reading back;
  integers, and lists of them, from the C++ client to the Python server.
- **Field paths** (`FieldPaths`). Enumerating the fields of a type tree and finding them again.

Strings are sequences of characters; where the C++ code works on octets, `IsBytes` says so. `Text` holds
searching, joining and splitting. Character classes are those of the C locale. A method whose original
throws returns `None` or `false` instead. Containers the original updates in place are fields of classes.

## Results that qualify the code

- The signature base string is injective for every method, also one with an ampersand in it.
- `satisfySecurity` can accept a configuration the requirements do not accept: if the API key itself looks
  like a credential (`Basic x` or `Bearer x`), there is no Authorization header, and a header API key is
  named Authorization, then the key that one scheme inserts satisfies the next one.
  `Security.DecidesDnfExactly` says for which configurations this cannot happen.
- A lookup after `updateTimestamp(t)` can miss it in two ways. If `t` is in the future, it may load too early;
  `SettingsReload.FreshExactly` says that this is the only way while no lower stamp is set. A lower stamp set
  later hides `t` exactly if the settings are recent enough for the lower one and too old for `t`, which
  `SettingsReload.CheckDecides` says for each lookup.
- `fromStrRfc3986` takes any two characters with a slash among them for the two slashes, an authority without a
  host, a port without digits, and no slash or question mark in a query. `UriParse.ParsedExactly` says what it takes.
- `fromStrRfc3986` reads behind the end of a URI that stops before its authority, `http:` for instance.
  `UriParse.PastEndExactly` says for which.
- A resolved path loses slashes on its way unless it starts with one and has no two in a row
  (`UriParse.ResolvedPathArrives`). Integers in standard base64 have slashes of their own, so they do not all
  survive in a path; those in the other formats do (`ParameterCodec.SegmentKeptExactly`).
- An asterisk in a scope does not match across a line break. `ScopeGlob.PlainGlobExactly` says that URLs
  with line terminators are the only ones where this matters.
- `find_field` and `members` disagree below a top-level field with an empty name, and only there.
- An unsigned 64-bit integer of 2^63 or more comes back negative from its base64 forms, since the server
  unpacks a signed number; likewise for the smaller sizes.
- Scope lists that differ only in whether a colon separates or belongs to a scope share a cached token
  (`TokenCache.SharedScopeKey`); `TokenCache.AmbiguousExactly` says which lists share theirs with another.

## Model

| member | source | states |
|---|---|---|
| TokenCache.Resolve | libs/zswagcl/src/openapi-oauth.cpp:22-50 | refused exactly without the OAuth2 type, its configuration or a token URL; otherwise the non-empty settings win over the specification, the refresh URL falls back to the token URL, and the key holds token URL, client id, audience and the scopes joined with colons |
| TokenCache.StepKeeps | libs/zswagcl/src/openapi-oauth.cpp:52-113 | every step of any thread keeps the lock discipline, the cache equal to the tokens in force by the server's replies, the log correct, and what each thread relies on |
| TokenCache.SingleFlight | libs/zswagcl/src/openapi-oauth.cpp:63-103 | in every run, no request for a key is sent before each reply accepted for the key earlier has run down to thirty seconds of its lifetime, which is an hour if it names none |
| TokenCache.OneSuccessPerWindow | libs/zswagcl/src/openapi-oauth.cpp:63-103 | the same for accepted replies: each window of a key, reply time plus lifetime minus thirty seconds, sees only the one that opened it |
| TokenCache.OneInFlight | libs/zswagcl/src/openapi-oauth.cpp:63-113 | between any two requests, whatever their keys, stands the outcome of the first |
| TokenCache.BearerProvenance | libs/zswagcl/src/openapi-oauth.cpp:56-60 | every presented token was returned in the latest accepted reply for the same key; from the cache only while more than thirty seconds of its lifetime are left, otherwise by this thread's own request just before |
| TokenCache.RootMint | libs/zswagcl/src/openapi-oauth.cpp:73-103 | every accepted reply goes back to an accepted mint for the same key through refreshes only |
| TokenCache.RefreshCarriesLastIssued | libs/zswagcl/src/openapi-oauth.cpp:73-82 | a refresh request carries the last refresh token issued since that mint; a reply without one keeps the old one |
| TokenCache.MintMatchesKey | libs/zswagcl/src/openapi-oauth.cpp:97-103 | a mint goes to the token URL of its key and asks for scopes that make up its key |
| TokenCache.LookDecides | libs/zswagcl/src/openapi-oauth.cpp:52-61 | in every reachable state the look under the shared lock hits exactly if the latest accepted reply for the key has more than thirty seconds left |
| TokenCache.RecheckDecides | libs/zswagcl/src/openapi-oauth.cpp:63-103 | under the exclusive lock: presented exactly in that case, else refreshed exactly if the server issued a refresh token for the key since the last mint, else minted |
| TokenCache.SendsAsCalled | libs/zswagcl/src/openapi-oauth.cpp:31-47 | every request goes to the URL its call resolves to, and a mint asks for its scopes; a refresh without a refresh URL goes to the token URL |
| TokenCache.AnswerDecides | libs/zswagcl/src/openapi-oauth.cpp:249-280 | an answer to the last request sent is accepted exactly with a status from 200 to 299 and an access token, then stored for thirty seconds less than its lifetime and presented; otherwise nothing changes, and a failed refresh goes on to a mint |
| TokenCache.FalseChangesNothing | libs/zswagcl/src/openapi-oauth.cpp:26-110 | the step with which a call returns false, at once or after failed requests, leaves the headers as at the call's start and the cache as it was, since the exclusive lock was taken if it was |
| TokenCache.TrueInsertsBearer | libs/zswagcl/src/openapi-oauth.cpp:56-112 | a call that returned true inserted exactly one Authorization header, with a token presented for its key |
| TokenCache.SharedScopeKey | libs/zswagcl/src/openapi-oauth.cpp:49-50 | any two scope lists share a key exactly when they are the same once split at their colons |
| TokenCache.AmbiguousExactly | libs/zswagcl/src/openapi-oauth.cpp:49-50 | another list without colons has the key of a list exactly when the list has a colon in a scope or is one of the two without content |
| TokenCache.ColonSharesKey | libs/zswagcl/src/openapi-oauth.cpp:49-50 | such a pair of lists |
| TokenCache.CachedTokensAreReal | libs/zswagcl/src/openapi-oauth.cpp:261-266 | no run ever caches an empty access token |
| TokenHandler.OAuth2ClientCredentialsHandler.RequestToken | libs/zswagcl/src/openapi-oauth.cpp:249-280 | a token exactly for a status from 200 to 299 with a non-empty access token; it expires after its lifetime, or an hour, minus thirty seconds, and the refresh token sent is kept when none is reissued |
| TokenHandler.OAuth2ClientCredentialsHandler.TryCached | libs/zswagcl/src/openapi-oauth.cpp:52-61 | the part under the shared lock is a run of the protocol and hits exactly on a token that has not expired |
| TokenHandler.OAuth2ClientCredentialsHandler.RefreshOrMint | libs/zswagcl/src/openapi-oauth.cpp:63-113 | the part under the exclusive lock is a run of the protocol; cached token, else refreshed, else minted |
| TokenHandler.OAuth2ClientCredentialsHandler.Ask | libs/zswagcl/src/openapi-oauth.cpp:76-106 | one request is a run of the protocol, and stores exactly what is granted |
| TokenHandler.OAuth2ClientCredentialsHandler.Serve | libs/zswagcl/src/openapi-oauth.cpp:52-113 | both parts one behind the other: cached token, else refreshed, else minted |
| TokenHandler.OAuth2ClientCredentialsHandler.Satisfy | libs/zswagcl/src/openapi-oauth.cpp:19-114 | a whole call is a run of the protocol; its result, its header and the new cache follow from the old cache and the answers it gets |
| TokenHandler.ObtainedExactly | libs/zswagcl/src/openapi-oauth.cpp:52-113 | whether a call succeeds, with which token, refresh token and expiry, case by case in terms of the cache and the answers |
| TokenHandler.ObtainedIsReal | libs/zswagcl/src/openapi-oauth.cpp:261-266 | from a cache without empty tokens no call obtains or stores one |
| TokenRequest.RequestBody | libs/zswagcl/src/openapi-oauth.cpp:214-225 | the body consists of the grant's fields in order, with encoded values |
| TokenRequest.MintBody | libs/zswagcl/src/openapi-oauth.cpp:214-220 | the text of a mint request in full, scope and audience only if there are any |
| TokenRequest.RefreshBody | libs/zswagcl/src/openapi-oauth.cpp:222-224 | the text of a refresh request in full |
| TokenRequest.ParseBodyParams | libs/zswagcl/src/openapi-oauth.cpp:119-141 | the loop reads the pairs between ampersands, in order, the later ones winning |
| TokenRequest.ReadAllExactly | libs/zswagcl/src/openapi-oauth.cpp:119-141 | for every body and name: it is a parameter exactly if some pair assigns it, ending at the first equals sign, and the last such pair gives the decoded value |
| TokenRequest.BodyReadBack | libs/zswagcl/src/openapi-oauth.cpp:119-167 | the parameters to be signed are the grant type, scopes joined with blanks and audience, each unless empty, or the grant type and refresh token, for any library codec that decodes what it encodes |
| TokenRequest.PercentIsCodec | libs/zswagcl/src/openapi-oauth.cpp:127-133 | percent encoding meets the assumption about the library codec |
| Security.HttpBasicHandler | libs/zswagcl/src/openapi-security.cpp:16-38 | basic credentials, or an Authorization header that is a Basic credential in any case of letters |
| Security.ApiKeyHandler | libs/zswagcl/src/openapi-security.cpp:60-90 | inserts the configured API key exactly where the name is missing |
| Security.SatisfySecurity | libs/zswagcl/src/openapi-security.cpp:104-166 | the nested loops with their early exits compute the recursive evaluation, insertions included |
| Security.DecidesDnf | libs/zswagcl/src/openapi-security.cpp:104-166 | without OAuth2, the outcome is the disjunctive normal form on the initial configuration, if no header API key is named Authorization or the key cannot pass for a missing credential |
| Security.DecidesDnfExactly | libs/zswagcl/src/openapi-security.cpp:104-166 | for a configuration the outcome is the normal form for all requirements exactly when its API key cannot pass for a missing credential |
| Security.InjectableMisleads | libs/zswagcl/src/openapi-security.cpp:66-81 | otherwise there are requirements the evaluation accepts and the normal form does not |
| Security.SatisfiedIsStable | libs/zswagcl/src/openapi-security.cpp:122-162 | headers, query pairs and cookies are only gained; on success every scheme of some alternative holds in the final configuration, OAuth2 with the token got for its position |
| Security.GainsKeyAndTokens | libs/zswagcl/src/openapi-security.cpp:66-81 | what an evaluation adds, for every name: one copy of the API key where there was nothing and a scheme asks for it, and under Authorization, behind that, the tokens got for OAuth2; nothing else |
| Security.AvailableSuffices | libs/zswagcl/src/openapi-security.cpp:122-162 | an alternative whose schemes are all available at the start, OAuth2 included, is enough, whatever the alternatives before it do |
| Security.CredentialExactly | libs/zswagcl/src/openapi-security.cpp:21-24 | a credential is the name in any case, one blank, and a rest on the same line that is not empty |
| Security.PresentsExactly | libs/zswagcl/src/openapi-security.cpp:26-29 | one such value among those of the Authorization header is enough |
| Security.SatisfiedWithHandler | libs/zswagcl/src/openapi-security.cpp:122-162 | with the tokens of the modelled OAuth2 handler, the one that holds is not empty |
| SignatureBase.PercentEncode | libs/httpcl/src/oauth1-signature.cpp:58-75 | the loop computes the encoding, which for octets is the code stated in the next row |
| SignatureBase.CodeExactly | libs/httpcl/src/oauth1-signature.cpp:58-75 | a text is the encoding of octets exactly if it consists of letters, digits, `-._~` and escapes with digits 0-9 and A-F, no escape stands for one of those characters, and it decodes to them |
| SignatureBase.BuildSignatureBaseString | libs/httpcl/src/oauth1-signature.cpp:118-145 | the loops compute the base string, which for octets is the one stated in the next row |
| SignatureBase.BaseStringExactly | libs/httpcl/src/oauth1-signature.cpp:118-145 | a text is the base string exactly if it is method, coded URL and coded parameters between ampersands, the parameters being the pairs of coded name and value, sorted and joined with ampersands |
| Sorting.AnySortAgrees | libs/httpcl/src/oauth1-signature.cpp:128-128 | any sorted arrangement of the pairs is the one the model uses, so the algorithm behind `std::sort` does not matter |
| SignatureBase.BaseStringInjective | libs/httpcl/src/oauth1-signature.cpp:118-145 | equal base strings imply equal method, URL and parameter map |
| SignatureBase.SortsAsRfc | libs/httpcl/src/oauth1-signature.cpp:123-134 | sorting the joined pairs gives the order of section 3.4.1.3.2 of RFC 5849 exactly when no encoded name goes on after another with a character below the equals sign in a way that swaps them |
| SignatureBase.HyphenClashes | libs/httpcl/src/oauth1-signature.cpp:123-134 | the names `a` and `a-` are sorted the other way round, whatever their values |
| SignatureBase.TokenRequestSortsAsRfc | libs/httpcl/src/oauth1-signature.cpp:180-190 | for the names of a token request it always does |
| Percent.DecodeEncode | libs/httpcl/src/uri.cpp:153-167 | decoding undoes encoding for every byte string and every set of kept characters |
| Percent.EncodeInjective | libs/httpcl/src/oauth1-signature.cpp:58-75 | different byte strings have different encodings |
| Percent.DecodeUpToPercent | libs/httpcl/src/uri.cpp:153-167 | up to the first percent sign every text decodes to itself |
| Percent.DecodePercent | libs/httpcl/src/uri.cpp:153-167 | two hex digits behind the sign are the byte they write; without them the sign is dropped, for every text |
| Uri.Encode | libs/httpcl/src/uri.cpp:337-365 | the loop that replaces in place computes the character-wise encoding |
| Uri.UriEncodedExactly | libs/httpcl/src/uri.cpp:337-365 | a text is the encoding exactly if it consists of unreserved characters, sub-delimiters and lower-case escapes of other octets, and decodes to the input |
| Uri.URIComponents.AppendPath | libs/httpcl/src/uri.cpp:272-294 | the loop ends for every part, and pushes its pieces in order, empty ones skipped but for the last |
| Uri.AppendTwice | libs/httpcl/src/uri.cpp:272-294 | appending a and then b is appending a, a slash and b, for all strings |
| Uri.AppendShape | libs/httpcl/src/uri.cpp:272-294 | appending makes no double slash, and keeps exactly the trailing slash of what is appended |
| Uri.AppendIsEncoded | libs/httpcl/src/uri.cpp:272-294 | the resulting path is the encoding, slashes kept, of the path appended without encoding |
| Uri.PathKeptExactly | libs/httpcl/src/uri.cpp:272-294 | appended to nothing, a path comes out as it is exactly when it starts with a slash and has no two in a row |
| UriParse.ParseScheme | libs/httpcl/src/uri.cpp:46-67 | the cursor loop reads the longest scheme and its colon |
| UriParse.ParseAuthority | libs/httpcl/src/uri.cpp:74-151 | user information skipped unless a path, query or fragment comes first; address, name and the port modulo 2^16 |
| UriParse.ParsePort | libs/httpcl/src/uri.cpp:141-147 | the sixteen-bit accumulation is the decimal value modulo 2^16 |
| UriParse.ParseCharacter | libs/httpcl/src/uri.cpp:153-167 | one step of the decoding of what lies ahead, malformed escapes dropped |
| UriParse.ParsePath | libs/httpcl/src/uri.cpp:174-197 | the loop reads the longest path and decodes it |
| UriParse.ParseQuery | libs/httpcl/src/uri.cpp:204-221 | the loop reads the longest query and decodes it |
| UriParse.FromStrRfc3986 | libs/httpcl/src/uri.cpp:223-239 | the four scanners one behind the other, rejected if one of them fails; when they leave the text is stated by `UriParse.PastEndExactly` |
| UriParse.ParsedExactly | libs/httpcl/src/uri.cpp:46-239 | for every text and every result: it is parsed to that exactly if it is put together from a scheme, two characters with a slash among them, user information, a bracketed address, a name, a port, a path, a query and a fragment, all optional from the third on, that say it; character sets, decoding and port modulo 2^16 included |
| UriParse.BareHost | libs/httpcl/src/uri.cpp:174-197 | scheme and host are a URI, with an empty path |
| UriParse.PastEndExactly | libs/httpcl/src/uri.cpp:46-147 | the scanners step over the end of the text exactly when the URI, up to its first zero, is only a scheme, or nothing, with at most one character that is none and one slash behind it |
| UriParse.SchemeAloneEndsEarly | libs/httpcl/src/uri.cpp:62-81 | `http:` is such a URI |
| UriParse.ParseBuilt | libs/httpcl/src/uri.cpp:223-365 | a printed URI with a valid scheme, a registered name, any sixteen-bit port, a path built by appending and any query parses to scheme, host, port, the plain path and the query |
| UriParse.ResolvedPathArrives | libs/zswagcl/src/openapi-client.cpp:116-118 | the path appended is the one parsed exactly when it starts with a slash and has no two in a row |
| Template.ReplaceTemplate | libs/zswagcl/src/openapi-client.cpp:16-38 | the loop ends for every callback and equals one pass over the original template; inserted text is not scanned again |
| Template.PrintParse | libs/zswagcl/src/openapi-client.cpp:20-29 | texts and holes found in a template make up its text |
| Template.ParsePrint | libs/zswagcl/src/openapi-client.cpp:20-29 | they are found again from the text, so holes depend on the template alone |
| Template.SubstitutedExactly | libs/zswagcl/src/openapi-client.cpp:31-35 | a text comes out exactly if the callback gives values for all names in turn, and it is the texts of the template with them between |
| Template.Identity | libs/zswagcl/src/openapi-client.cpp:31-34 | filling every hole with its own name in braces gives the template back |
| Template.ResolvesExactly | libs/zswagcl/src/openapi-client.cpp:41-57 | a path resolves exactly when all names in it are parameters, whatever their values |
| Base64.BothAreAlphabets | libs/zswagcl/src/base64.cpp:35-54 | both alphabets have sixty-four different characters, which their predicates accept and no others |
| Base64.SextetsAreNumber | libs/zswagcl/src/base64.cpp:71-74 | three bytes and their four sextets are one number of 24 bits, the highest first |
| Base64.Encode | libs/zswagcl/src/base64.cpp:56-102 | the byte loop with its buffers computes the block-wise encoding |
| Base64.Decode | libs/zswagcl/src/base64.cpp:104-146 | the character loop with its buffers computes the block-wise decoding of the leading alphabet characters |
| Base64.EncodedShape | libs/zswagcl/src/base64.cpp:56-102 | the alphabet's characters first, and then as many padding characters as bytes are missing in the last block |
| Base64.EncodedLength | libs/zswagcl/src/base64.cpp:56-102 | four characters for every three bytes begun |
| Base64.DecodedEncoded | libs/zswagcl/src/base64.cpp:56-146 | decoding undoes encoding for every byte string and alphabet |
| Base64.EncodedDecodedExactly | libs/zswagcl/src/base64.cpp:56-146 | encoding undoes decoding exactly for texts of whole blocks, padded at most at the end, with no bit left over |
| Base64.FindHas | libs/zswagcl/src/base64.cpp:118-119 | no character that the predicate accepts is looked for in vain |
| Base64.FillerUnseen | libs/zswagcl/src/base64.cpp:130-143 | what a failed search yields for missing characters never reaches the output |
| Base64.DecodedLength | libs/zswagcl/src/base64.cpp:104-146 | k leading alphabet characters give three quarters of k bytes, rounded down |
| Base64.Base64Encode | libs/zswagcl/src/base64.cpp:151-155 | the standard encoding, which decodes to the input |
| Base64.Base64UrlEncode | libs/zswagcl/src/base64.cpp:157-169 | the URL-safe encoding, which decodes to the input |
| Base64.Base64Decode | libs/zswagcl/src/base64.cpp:171-174 | the decoding, independent of the filler, with its length |
| Base64.Base64UrlDecode | libs/zswagcl/src/base64.cpp:176-179 | the URL-safe decoding, independent of the filler, with its length |
| ScopeGlob.ConvertToRegex | libs/httpcl/src/http-settings.cpp:119-155 | the loop emits the pieces of the pattern in order |
| ScopeGlob.ParsePattern | libs/httpcl/src/http-settings.cpp:119-155 | every emitted pattern can be read as ECMAScript, whatever the scope |
| ScopeGlob.PatternMeansGlob | libs/httpcl/src/http-settings.cpp:119-155 | the pattern matches a URL exactly when the URL is the scope with strings within a line for its asterisks and behind it |
| ScopeGlob.PatternMeansPlainGlob | libs/httpcl/src/http-settings.cpp:538-539 | for URLs without line terminators the asterisk and the suffix stand for any strings |
| ScopeGlob.PlainGlobExactly | libs/httpcl/src/http-settings.cpp:538-539 | these are exactly the URLs for which that is so for all scopes |
| Configs.HttpConfig.MergeIn | libs/httpcl/src/http-settings.cpp:714-747 | the field updates compute the merge of old and other configuration |
| ConfigMerge.Lookup | libs/httpcl/src/http-settings.cpp:535-543 | the loop merges the configurations of the matching entries in order |
| ConfigMerge.MatchingExactly | libs/httpcl/src/http-settings.cpp:535-543 | every entry that matches is merged once, in the order of the settings, and no other |
| ConfigMerge.MergeAssociates | libs/httpcl/src/http-settings.cpp:714-747 | merging is associative |
| ConfigMerge.MergeIdentity | libs/httpcl/src/http-settings.cpp:714-747 | the empty configuration is its identity |
| ConfigMerge.MergeAllConcat | libs/httpcl/src/http-settings.cpp:535-543 | merging two lists and then the results is merging the one behind the other |
| ConfigMerge.AdHocIsLastEntry | libs/zswagcl/src/openapi-client.cpp:123-124 | merging the client's own configuration is having it as a last entry that matches |
| ConfigMerge.CredentialsFromLast | libs/httpcl/src/http-settings.cpp:718-723 | credentials, proxy and API key come from the last matching entry that has them |
| ConfigMerge.OAuth2FromLast | libs/httpcl/src/http-settings.cpp:724-745 | each OAuth2 string and the scopes come from the last matching entry where they are not empty, the options from the last that sets them |
| ConfigMerge.CookieFromFirst | libs/httpcl/src/http-settings.cpp:715-715 | each cookie comes from the first matching entry that has it |
| ConfigMerge.PairsInOrder | libs/httpcl/src/http-settings.cpp:716-717 | headers and query pairs are kept, for each name in the order of the entries |
| SettingsReload.SameLoad | libs/httpcl/src/http-settings.cpp:436-482 | in every run, while no writer is inside `load`, `lastRead` and `settings` come from the same load, and the settings are a front part of the file it read |
| SettingsReload.LookupSeesOneLoad | libs/httpcl/src/http-settings.cpp:532-542 | in every run, what a lookup merges are all the settings of one load |
| SettingsReload.CheckDecides | libs/httpcl/src/http-settings.cpp:522-533 | in every run, a lookup that checks when `time` is past merges a load begun at `time` or later exactly when the settings are older than the stamp it sees, or were loaded at `time` or later |
| SettingsReload.FreshLookup | libs/httpcl/src/http-settings.cpp:520-543 | a lookup started after `updateTimestamp(time)` merges a load begun at `time` or later, if `time` was not in the future then and no lower stamp is set since, whatever the other stamps |
| SettingsReload.FreshExactly | libs/httpcl/src/http-settings.cpp:520-543 | for a stamp set at some clock, this holds of all such lookups exactly when the stamp is not in the future |
| SettingsReload.FutureStampIsMissed | libs/httpcl/src/http-settings.cpp:520-533 | for every stamp in the future there is a run where the next lookup merges an earlier load |
| SettingsReload.StampGoingBackIsMissed | libs/httpcl/src/http-settings.cpp:520-533 | for every stamp the settings are too old for, followed by one they are recent enough for, there is a run where the next lookup does not load |
| SettingsReload.Settings.Load | libs/httpcl/src/http-settings.cpp:436-482 | the settings become the readable entries of the file, and the time is noted |
| SettingsReload.ReadableExactly | libs/httpcl/src/http-settings.cpp:471-474 | all entries in front of the first that cannot be read, and none behind it |
| SettingsReload.Settings.Get | libs/httpcl/src/http-settings.cpp:520-543 | loads exactly when the settings are older than the last update, then merges the matching entries |
| ParamStyle.PathEntry.ParseParameterStyle | libs/zswagcl/src/openapi-parser.cpp:169-212 | default style and exploding by location, overridden by a known style, refused exactly when that does not fit the location |
| ParamStyle.PathEntry.ParseParameterExplode | libs/zswagcl/src/openapi-parser.cpp:214-233 | refused exactly for an exploding header parameter |
| ParamStyle.PathEntry.ParseMethodParameter | libs/zswagcl/src/openapi-parser.cpp:235-270 | which nodes are refused, which are ignored, and the entry that results, an earlier one of the same name kept where nothing is said |
| ParamStyle.NewParameter | libs/zswagcl/include/zswagcl/private/openapi-config.hpp:113-158 | a parameter of which only name and request part are said is an exploding query parameter of plain strings |
| ParamStyle.LocationNamed | libs/zswagcl/src/openapi-parser.cpp:120-128 | which name stands for which location, and which are refused |
| ParamStyle.FormatNamed | libs/zswagcl/src/openapi-parser.cpp:135-161 | which names stand for which format |
| ParamStyle.PathEntry.ParseParameters | libs/zswagcl/src/openapi-parser.cpp:235-270 | the loop refuses exactly the lists in which some node does not fit what is there before it, and otherwise leaves the entries the nodes give one after the other |
| ParamStyle.RefusedExactly | libs/zswagcl/src/openapi-parser.cpp:235-270 | a list of parameters is refused exactly if one of them has no name, or one that is not ignored does not fit what the ones before it made |
| ParamStyle.AllParsedLegal | libs/zswagcl/src/openapi-parser.cpp:169-270 | every parameter parsed goes by its own name in a style that is legal for its location |
| ParamStyle.ParsedIsLegal | libs/zswagcl/src/openapi-parser.cpp:169-270 | a node that is not refused gives a legal parameter whatever the entry was before |
| ParamStyle.NeverFallsBack | libs/zswagcl/src/openapi-parameter-helper.cpp:109-208 | for a legal parameter the fallback branches for its location are not reached, and a single value is written as the array of it is |
| ParamStyle.SingleReadBack | libs/zswagcl/src/openapi-parameter-helper.cpp:112-123 | a single value stands behind the prefix of the style, or in the one pair of its parameter |
| ParamStyle.PathReadBack | libs/zswagcl/src/openapi-parameter-helper.cpp:124-141 | the elements of an array can be read back from a path for each style, exploded or not |
| ParamStyle.PairsReadBack | libs/zswagcl/src/openapi-parameter-helper.cpp:183-197 | and from the pairs of a query or header |
| ParamStyle.WrittenAlike | libs/zswagcl/src/openapi-parameter-helper.cpp:124-197 | two arrays are written alike exactly when equal, or both without content where elements are joined |
| ParamStyle.DictReadBack | libs/zswagcl/src/openapi-parameter-helper.cpp:142-208 | a dictionary comes back for each style and location, exploded or not, in the order of its keys |
| ParamStyle.DictsWrittenAlike | libs/zswagcl/src/openapi-parameter-helper.cpp:142-208 | two dictionaries are written alike exactly when they are equal, if keys and values are free of what separates them |
| IntCodec.HostToBigEndian | libs/zswagcl/include/zswagcl/private/openapi-parameter-helper.hpp:29-38 | swapping in place reverses the bytes |
| IntCodec.FormatInteger | libs/zswagcl/include/zswagcl/private/openapi-parameter-helper.hpp:47-73 | formatting through memory bytes, swapping and encoding computes the specified text |
| IntCodec.BigEndianReversed | libs/zswagcl/include/zswagcl/private/openapi-parameter-helper.hpp:29-38 | the reversed memory bytes, read with the highest first, are the number |
| IntCodec.SignedRoundTrip | libs/zswag/reflect.py:166-197 | the server reads every signed integer of one, two, four or eight bytes as the client formatted it, in every format |
| IntCodec.RoundTripExactly | libs/zswag/reflect.py:166-197 | any integer comes back from decimal and hexadecimal text, from base64 exactly when it fits the signed type of its size |
| ParameterCodec.ArrayRoundTrip | libs/zswag/reflect.py:205-206 | every non-empty list of signed integers comes back from every legal parameter, in each style and format, exploded or not |
| ParameterCodec.SingleRoundTrip | libs/zswag/reflect.py:166-197 | every signed integer comes back from every legal parameter, in each style and format |
| ParameterCodec.SegmentKeptExactly | libs/zswagcl/src/openapi-client.cpp:116-118 | a path with an integer behind a slash is appended unchanged for all integers exactly when the format is not standard base64 |
| ParameterCodec.MinusOne | libs/zswagcl/src/base64.cpp:56-102 | minus one starts with a slash there |
| Radix.ValuePrint | libs/zswagcl/include/zswagcl/private/openapi-parameter-helper.hpp:50-66 | reading a printed number gives the number, in every base |
| Radix.PrintExactly | libs/zswagcl/include/zswagcl/private/openapi-parameter-helper.hpp:50-66 | a text is what is printed exactly if it is a numeral for the number in digits and small letters, without a needless zero |
| FieldPaths.InMembersFrom | libs/zswag/reflect.py:121-130 | which positions are enumerated, and with which path: every position, with its names joined |
| FieldPaths.FindWalks | libs/zswag/reflect.py:108-119 | lookup by offsets follows the names in the path |
| FieldPaths.PyPathIsProperties | libs/zswag/reflect.py:108-119 | the path reported is that of the Python properties on the way |
| FieldPaths.YieldedLeads | libs/zswag/reflect.py:108-130 | every enumerated path leads back to its member |
| FieldPaths.LeadsYielded | libs/zswag/reflect.py:108-130 | every path that resolves is enumerated for that member |
| FieldPaths.AgreeExactly | libs/zswag/reflect.py:108-130 | for dot-free names, different among siblings, both hold exactly when no nameless top-level field has fields |

## Left out

- TokenCache.SingleFlight: the handler of one client only; `acquireOAuth2TokenForSpecFetch` makes a handler of its own. Relaxed memory order plays no part, since the lock orders all accesses. An `expires_in` so small that subtracting thirty overflows is not modelled.
- TokenCache.StepKeeps: that a waiting thread gets the lock in the end is not stated.
- TokenHandler.OAuth2ClientCredentialsHandler.Satisfy: one call while no other is in progress; the interleavings are in `TokenCache`. The reason given for a mismatch, logging, and how client authentication fails are not modelled; a failure before sending is a step of its own.
- TokenRequest.RequestBody: the `client_id` that a client without a secret adds behind the other fields is not modelled; it plays no part in a signature.
- TokenRequest.BodyReadBack: `encode_uri_component` and `decode_uri_component` are library code, assumed to be inverse on bytes and to keep lower-case names.
- SignatureBase.BuildSignatureBaseString: HMAC, OpenSSL's base64, nonces and timestamps are not part of this model.
- Security.SatisfySecurity: the error text is not modelled, and the OAuth2 handler is a function from the position of the requirement to the token it gets; `Security.SatisfiedWithHandler` says what is known of these tokens.
- UriParse.ParseBuilt: without query variables, which are ambiguous once they contain separators. Printing what was parsed is not the identity, since parsing decodes the path and printing does not encode it again.
- UriParse.FromStrRfc3986: what the original makes of the memory behind the end of its text is not defined; the model says `PastEnd` there.
- Uri.URIComponents.AppendPath: query variables and `fromStrPath` are not modelled.
- ScopeGlob.PatternMeansGlob: the part of the ECMAScript grammar the translation can reach; patterns given by `url` in the settings are not analysed.
- Configs.HttpConfig.MergeIn: `scope` and the URL pattern are not merged by the original either.
- SettingsReload.FreshLookup: stamps are read and written in one order. Changing `settings` directly through `getOrCreateConfigScope` takes no lock in the original and is not a step.
- SettingsReload.Settings.Load: YAML is not parsed; a file is a list of entries, of which one may be unreadable.
- ParamStyle.PathEntry.ParseMethodParameter: when a node is refused the entry may have been changed in part; nothing is stated about it, since the whole document is refused.
- ParamStyle.DictReadBack: the reader is the inverse that the styles of OpenAPI intend; the Python server itself reads no dictionaries.
- IntCodec.FormatInteger: the absolute value of the least 64-bit integer is undefined in C++, so hexadecimal excludes it. The default format is taken to write decimal digits, also for a one-byte type. Floating-point numbers, strings and binary values are not modelled.
- IntCodec.SignedRoundTrip: Python's `int` with prefixes, underscores or blanks, and its base64 decoder on ill-formed text, are not part of this model.
- FieldPaths.AgreeExactly: type trees are finite; recursive zserio types have no such tree.
- HTTP transport, `std::async`, environment variables and the keychain: input and output.
- YAML conversion of whole configurations: the encoder writes `scopes` and the decoder reads `scope`, so it does not round-trip.
- The generator, the server application, the bindings and the documentation tools of the Python package.
