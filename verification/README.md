# Creatio OData node — a Dafny model

This project models the deterministic core of the n8n Creatio node
(`nodes/Creatio/Creatio.node.ts`). The node logs in to a Creatio CRM, keeps
the session cookies the login hands back, and talks to the CRM's OData
service. Every HTTP call is an input here: the login's `Set-Cookie` list
(or its error message) and each data call's parsed response (or its status
code and message) are values handed to pure functions. What remains is
string and sequence logic, and that is what is modelled and proved:

- **Session assembly** (`Session`). The base URL is trimmed and loses one
  trailing `/`. The four session cookies are the first `Set-Cookie` entries
  with the prefixes `.ASPXAUTH=`, `BPMCSRF=`, `BPMLOADER=` and
  `BPMSESSIONID=`. The marker `UserType=General` is added.
- **Cookie and CSRF headers** (`Cookies`). Each cookie is cut before its
  first `;`, absent cookies are dropped, and the parts are joined with `"; "`
  (the `cookie-string` of section 4.2.1 of RFC 6265). The three call sites
  differ in which cookies they list and in how they cut the CSRF token.
- **OData URLs** (`ODataUrl`, `UriEncoding`, `Numerals`). The collection URL
  is `{base}/0/odata/{subpath}`. A GET appends `$select`, `$top`, `$filter`
  and `$expand` in that fixed order (section 5.1 of OData Version 4.0
  Part 2: URL Conventions). PATCH and DELETE use the key form
  `Entity(id)`. `encodeURIComponent` is modelled over all Unicode scalar
  values (UTF-8, `%HH` upper-case hex). Its inverse `decodeURIComponent`
  states what an encoded value means.
- **Metadata scanners** (`Metadata`). Each of the three regular expressions
  over the `$metadata` document is a hand-written scanner over `seq<char>`:
  the `<EntityType Name="…"` names, the first
  `<EntityType Name="E"` … `</EntityType>` block, and the
  `<Property Name="…"` names inside that block. The scanners are proved
  against an independent partner: a schema datatype and its rendering as
  XML text. In it, entity types are interleaved with other markup. Their
  children are structural properties, navigation properties and any other
  markup, such as the `<Key>` element or annotations, that cannot be
  mistaken for a property opening, an entity-type opening or a closing tag
  (`Metadata.Inert`). A property's element may carry children of its own.
- **Request bodies** (`RequestBody`). POST assigns every
  `{fieldName, fieldValue}` pair in order, so the last write wins. PATCH
  first drops values that are `''`, `null` or `undefined`. With `useBody`
  set, the custom body passes through unchanged.
- **The per-item loop** (`Dispatcher`). The loop covers:
  - authentication, which sits outside the `try`, so a failed login aborts the batch;
  - the request plan;
  - result normalisation: GET unwraps `value`, TABLES hides `vw`/`sys`/`oauth`/`web` tables, METADATA returns `{fieldName}` entries, and DELETE turns `''` into `{deleted: true}`;
  - 401 recovery to `[]`;
  - the append-request wrapper;
  - the fold over the items that stops at the first error.

  The two load-options callbacks are modelled in the same module.

JavaScript values are the `JsValues.Value` datatype. Errors the code can
raise (`NodeOperationError`, a `TypeError` from dereferencing `undefined`,
an HTTP rejection, the failed METADATA lookup) are `JsValues.Error`, and
fallible steps return `Result`.

Two behaviours of the code are modelled as written:
- **METADATA on a missing entity type.** The code assigns `[]` and then
  dereferences the failed match (`entityMatch![0]`). The resulting
  `TypeError` has no status code, so the `catch` rethrows it and the batch
  ends (`Metadata.MetadataFields`, `Dispatcher.MetadataRoundTrip`).
- **The append-request record.** It echoes the raw `body` parameter, not
  the request body that was built from the field pairs
  (`Dispatcher.RequestFields`).

The URL in the repository's GET test is stated as three concatenated
pieces: the collection URL, the `$select` option and the `$top` option
(`ODataUrl.GetUrlExample`, `Dispatcher.GetTestRequest`).

## Model

| member | source | states |
|---|---|---|
| Strings.Split | nodes/Creatio/Creatio.node.ts:98 | `split` on one character yields at least one part, no part holds the separator, and there is exactly one part iff the text holds no separator |
| Strings.SplitJoin | nodes/Creatio/Creatio.node.ts:98 | joining the parts of a split with the separator gives back the original text |
| Strings.JoinSplit | nodes/Creatio/Creatio.node.ts:99-100 | splitting a join of separator-free parts gives back exactly those parts |
| Strings.BeforeFirst | nodes/Creatio/Creatio.node.ts:98 | `split(d)[0]` is a prefix free of `d`; it is the whole text iff there is no `d`, and otherwise is followed by `d` |
| Strings.SecondSegment | nodes/Creatio/Creatio.node.ts:101 | `split('=')[1]` is undefined iff the text holds no `=`, and holds no `=` itself |
| Strings.FindFirst | nodes/Creatio/Creatio.node.ts:153-154 | the literal search reports the first occurrence, and reports none only when no position matches |
| Strings.Trim | nodes/Creatio/Creatio.node.ts:47 | `trim()` never lengthens and leaves no whitespace at either end |
| Strings.TrimShape | nodes/Creatio/Creatio.node.ts:47 | `trim()` is the slice after the leading whitespace run, and only whitespace follows it in the original |
| Strings.TrimIdempotent | nodes/Creatio/Creatio.node.ts:47 | trimming twice is trimming once |
| Strings.TrimUnchanged | nodes/Creatio/Creatio.node.ts:47 | text that neither starts nor ends with whitespace is its own trim |
| Strings.LowerAscii | nodes/Creatio/Creatio.node.ts:768 | lower-casing keeps the length and maps each character by itself, ASCII capitals to small letters |
| Session.NormalizeUrl | nodes/Creatio/Creatio.node.ts:47 | the normalised URL is the trimmed URL with one trailing `/` removed when there is one, otherwise the trimmed URL |
| Session.NormalizeRemovesOneSlash | nodes/Creatio/Creatio.node.ts:47 | exactly one slash is removed: `t + "/"` normalises to `t` even when `t` itself ends in `/` |
| Session.FirstIndex | nodes/Creatio/Creatio.node.ts:73 | the index found starts with the prefix and no earlier entry does; none is found only when no entry starts with it |
| Session.FindCookie | nodes/Creatio/Creatio.node.ts:73-76 | a cookie field is absent iff no entry has its prefix, and otherwise is the first entry with that prefix |
| Session.FindIsFirstOfPrefixed | nodes/Creatio/Creatio.node.ts:73-76 | first-match selection equals the head of the sub-list of entries carrying the prefix |
| Session.FindIgnoresOtherCookies | nodes/Creatio/Creatio.node.ts:73-76 | lists that agree on the entries with a prefix select the same cookie for it, so the four selections are independent |
| Session.PrefixesExclusive | nodes/Creatio/Creatio.node.ts:73-76 | no `Set-Cookie` entry starts with two of the four prefixes |
| Session.LoginRequest | nodes/Creatio/Creatio.node.ts:50-65 | the login is a POST to the normalised URL's `/ServiceModel/AuthService.svc/Login` with `UserName` and `UserPassword` in the body |
| Session.Authenticate | nodes/Creatio/Creatio.node.ts:43-87 | a failed login becomes `Failed to authenticate with Creatio: <message>`; otherwise the context holds the cookie list, the four first-match cookies, the marker and the normalised URL |
| Cookies.Fragment | nodes/Creatio/Creatio.node.ts:98 | `cookie?.split(';')[0]` is present iff the cookie is, is a `;`-free prefix of it, and is followed by `;` when shorter |
| Cookies.Present | nodes/Creatio/Creatio.node.ts:99 | `filter(Boolean)` keeps no empty text and never adds entries |
| Cookies.PresentOne | nodes/Creatio/Creatio.node.ts:99 | one fragment survives the filter exactly when it is defined and non-empty, and then as itself |
| Cookies.PresentMembers | nodes/Creatio/Creatio.node.ts:99 | a text is in the filtered list iff it is non-empty and some fragment is defined as exactly that text |
| Cookies.PresentAppend | nodes/Creatio/Creatio.node.ts:99 | the filter works piecewise: filtering `a + b` is filtering `a`, then `b` |
| Cookies.CookieHeaderRoundTrip | nodes/Creatio/Creatio.node.ts:98-100 | reading a header back (split on `;`, drop one space) gives exactly the present fragments, in listed order |
| Cookies.ParseJoined | nodes/Creatio/Creatio.node.ts:100 | a `"; "`-join of `;`-free pairs, the first non-empty, reads back as those pairs |
| Cookies.LoadOptionsCookieHeader | nodes/Creatio/Creatio.node.ts:98-100 | the load-options header lists the present auth and csrf pairs, in that order, and nothing else |
| Cookies.ReadCookieHeader | nodes/Creatio/Creatio.node.ts:688-690 | the GET/METADATA/TABLES header lists the present auth, csrf and loader pairs, then the user-type marker; never the session cookie |
| Cookies.WriteCookieHeader | nodes/Creatio/Creatio.node.ts:776-782 | the POST/PATCH/DELETE header lists the present session, auth, csrf and loader pairs, then the user-type marker |
| Cookies.UserTypeAlwaysLast | nodes/Creatio/Creatio.node.ts:776-782 | the read and write headers always end with `UserType=General` |
| Cookies.LoadOptionsCsrfToken | nodes/Creatio/Creatio.node.ts:101 | the load-options token is the read token with `''` for undefined: `''` without a CSRF cookie, and for a `BPMCSRF=` cookie the text after the first `=` up to the next `=`, not cut at `;` |
| Cookies.ReadCsrfToken | nodes/Creatio/Creatio.node.ts:691 | the read token is defined iff the CSRF cookie exists and holds `=`, holds no `=`, and for a `BPMCSRF=` cookie is the text after the first `=` up to the next `=`, attributes such as `; path` included |
| Cookies.CsrfSegment | nodes/Creatio/Creatio.node.ts:691 | `split('=')[1]` of a `BPMCSRF=` cookie is the rest of the cookie cut before its next `=` |
| Cookies.CsrfTokenExample | nodes/Creatio/Creatio.node.ts:783 | for the cookie `BPMCSRF=abc; path=/` the read and load-options tokens are `abc; path` and the write token is `abc` |
| Cookies.WriteCsrfToken | nodes/Creatio/Creatio.node.ts:783 | the write token is never undefined, holds neither `=` nor `;`, and is `''` without a CSRF cookie |
| Cookies.CsrfTokenVariants | nodes/Creatio/Creatio.node.ts:783 | the write token is the read token (or `''`) cut at its first `;` |
| Cookies.SecondSegmentAfterName | nodes/Creatio/Creatio.node.ts:101 | for `name=rest` with an `=`-free name, the second `=`-segment is `rest` up to its own `=` |
| Cookies.WriteCsrfTokenIsValue | nodes/Creatio/Creatio.node.ts:783 | for `BPMCSRF=<v>; <attributes>` the write token is exactly `<v>` |
| UriEncoding.HexDigit | nodes/Creatio/Creatio.node.ts:674 | the digit for `v` is upper case and reads back as `v` |
| UriEncoding.PercentByte | nodes/Creatio/Creatio.node.ts:674 | `%HH` for a byte uses upper-case digits that read back as the byte |
| UriEncoding.Encode | nodes/Creatio/Creatio.node.ts:674 | `encodeURIComponent` output holds only unreserved characters and `%`, hence no `&`, `=` or `,`, and is never shorter than its input |
| UriEncoding.DecodeEncode | nodes/Creatio/Creatio.node.ts:680 | `decodeURIComponent(encodeURIComponent(s)) == s` for every string of scalar values |
| UriEncoding.DecodeOneEncoded | nodes/Creatio/Creatio.node.ts:683 | the `%HH` triplets of a reserved character's UTF-8 bytes decode back to that character and consume exactly its encoding |
| UriEncoding.TrailTriplets | nodes/Creatio/Creatio.node.ts:674 | continuation-byte triplets read back as the bytes' payload bits shifted in order |
| UriEncoding.EncodeUnreserved | nodes/Creatio/Creatio.node.ts:674 | text made only of unreserved characters is sent as it is |
| UriEncoding.EncodeAppend | nodes/Creatio/Creatio.node.ts:674 | encoding a concatenation is concatenating the encodings |
| UriEncoding.CommaEncoding | nodes/Creatio/Creatio.node.ts:674 | the comma joining selected fields is sent as `%2C` |
| Numerals.IntToString | nodes/Creatio/Creatio.node.ts:677 | `${top}` starts with `-` iff the number is negative and is otherwise decimal digits |
| Numerals.DigitsRoundTrip | nodes/Creatio/Creatio.node.ts:677 | the decimal digits of a natural read back as that natural |
| Numerals.IntRoundTrip | nodes/Creatio/Creatio.node.ts:677 | every rendered integer parses back as itself |
| ODataUrl.SelectFields | nodes/Creatio/Creatio.node.ts:667 | a list is taken as is, an empty text gives no fields, and other text gives its trimmed comma-separated parts |
| ODataUrl.QueryOptionsEmpty | nodes/Creatio/Creatio.node.ts:685-687 | there are no query options exactly when select is empty, top is 0 and filter and expand are empty |
| ODataUrl.QueryOptionMember | nodes/Creatio/Creatio.node.ts:673-684 | every option is one of the four, present only when its parameter is set |
| ODataUrl.QueryOptionsOrdered | nodes/Creatio/Creatio.node.ts:673-684 | the options are among `$select`, `$top`, `$filter`, `$expand`, each at most once, in that order |
| ODataUrl.RankedPick | nodes/Creatio/Creatio.node.ts:673-684 | keeping any subset of four options ranked 0 to 3, in order, keeps ranks strictly increasing |
| ODataUrl.QueryOptionsPresence | nodes/Creatio/Creatio.node.ts:673-684 | each option appears iff its parameter is non-empty (`top` non-zero) |
| ODataUrl.OptionValues | nodes/Creatio/Creatio.node.ts:674-683 | each option value decodes back to its parameter (`$select` to the comma-joined list, `$top` to the number) and holds no `&` or `=` |
| ODataUrl.QueryOptionsValues | nodes/Creatio/Creatio.node.ts:673-684 | every option in the query decodes back to what the caller asked for |
| ODataUrl.QueryOptionsDelimiterFree | nodes/Creatio/Creatio.node.ts:673-684 | no option name or value holds `&` or `=` |
| ODataUrl.GetUrl | nodes/Creatio/Creatio.node.ts:671-687 | the GET URL extends the collection URL, and equals it exactly when no query parameter is set |
| ODataUrl.QueryRoundTrip | nodes/Creatio/Creatio.node.ts:686 | options with delimiter-free names and `&`-free values read back from their query string unchanged |
| ODataUrl.GetUrlRoundTrip | nodes/Creatio/Creatio.node.ts:671-687 | with at least one option the URL is collection URL, `?`, and a query that reads back as exactly the options |
| ODataUrl.EncodeTwoNames | nodes/Creatio/Creatio.node.ts:674 | two plain field names are selected as `a%2Cb` |
| ODataUrl.GetUrlSelectTop | nodes/Creatio/Creatio.node.ts:673-678 | two plain names and a non-zero top give `?$select=a%2Cb&$top=n`, select first |
| ODataUrl.GetUrlExample | test/Creatio.node.test.ts:25-56 | subpath `Contact`, select `[Name, Email]`, top 10 give `https://test.creatio.com/0/odata/Contact?$select=Name%2CEmail&$top=10` |
| ODataUrl.EntityUrl | nodes/Creatio/Creatio.node.ts:841-844 | the PATCH/DELETE URL always extends the collection URL, and is the collection URL itself when `id` is empty |
| ODataUrl.EntityUrlKey | nodes/Creatio/Creatio.node.ts:870-873 | the key read back from the URL is exactly `id`, and there is no key for an empty `id` |
| Metadata.CaptureAt | nodes/Creatio/Creatio.node.ts:112 | a capture at the front is non-empty, quote-free, and the match is exactly literal, capture, `"` |
| Metadata.Scan | nodes/Creatio/Creatio.node.ts:113-116 | every capture of the global scan is non-empty and free of `"` |
| Metadata.EntityNames | nodes/Creatio/Creatio.node.ts:112-116 | every captured entity name is non-empty and holds no `"` |
| Metadata.EntityNamesRoundTrip | nodes/Creatio/Creatio.node.ts:112-116 | scanning a rendered schema, keys and other child markup included, lists every entity type's name in document order, duplicates kept, and nothing else |
| Metadata.IsolateShape | nodes/Creatio/Creatio.node.ts:153-154 | an isolated block opens with `<EntityType Name="E"`, ends with `</EntityType>` and holds no closing tag in between |
| Metadata.IsolateRoundTrip | nodes/Creatio/Creatio.node.ts:153-158 | isolating `E` in a rendered schema, keys and other child markup included, gives the rendering of the first entity type named `E`, or nothing when there is none |
| Metadata.OwnBlock | nodes/Creatio/Creatio.node.ts:153 | the block of the entity type at the front is exactly its own rendering, whatever follows |
| Metadata.OtherEntityClear | nodes/Creatio/Creatio.node.ts:153 | an entity type with a different name is passed over by the isolation |
| Metadata.MembersScan | nodes/Creatio/Creatio.node.ts:159-164 | scanning an entity type's children lists its structural property names in order; navigation properties, keys, other child markup and the closing tag add nothing |
| Metadata.NavigationNeverCaptured | nodes/Creatio/Creatio.node.ts:159 | `<NavigationProperty Name="…"` is never taken for `<Property Name="…"` |
| Metadata.BlockScan | nodes/Creatio/Creatio.node.ts:159-164 | scanning a block for properties lists its structural property names in order, whatever other inert children it holds |
| Metadata.NamedClear | nodes/Creatio/Creatio.node.ts:159 | a property or navigation property element holds no entity-type opening or closing tag, and a navigation property no property opening, when the rest of its element is inert |
| Metadata.KeyElementInert | nodes/Creatio/Creatio.node.ts:159 | `<Key><PropertyRef Name="Id"/></Key>` is a child the scan passes over: `<PropertyRef Name=` is not `<Property Name="` |
| Metadata.KeyedEntityFields | nodes/Creatio/Creatio.node.ts:153-164 | for an entity type with a key, a property `Id` and a navigation property, the offered fields are exactly `["Id"]` |
| Metadata.EntityFields | nodes/Creatio/Creatio.node.ts:140-165 | the field choices are empty for an empty subpath or a missing block; every choice is non-empty and quote-free |
| Metadata.EntityFieldsRoundTrip | nodes/Creatio/Creatio.node.ts:140-165 | for a rendered schema, keyed entity types included, the field choices are the structural property names of the first entity type named `E`, or none |
| Metadata.MetadataFields | nodes/Creatio/Creatio.node.ts:729-744 | METADATA fails with the failed-lookup error exactly when no block is found, and otherwise lists the same fields as the callback |
| RequestBody.LastValue | nodes/Creatio/Creatio.node.ts:793-795 | the reference "last write wins": absent iff no pair has the name, otherwise the value of a pair with that name after which none does |
| RequestBody.Assign | nodes/Creatio/Creatio.node.ts:793-795 | the assigned object has exactly the named keys, each holding the value of the last pair with that name |
| RequestBody.Kept | nodes/Creatio/Creatio.node.ts:834 | the kept pairs are all sendable and no more numerous than the input |
| RequestBody.KeptAppend | nodes/Creatio/Creatio.node.ts:833-836 | the filter works piecewise, so kept pairs stay in input order: filtering `a + b` is filtering `a`, then `b` |
| RequestBody.KeptOne | nodes/Creatio/Creatio.node.ts:834 | a single pair is kept exactly when its value is sendable |
| RequestBody.LastSendable | nodes/Creatio/Creatio.node.ts:833-836 | the reference for PATCH: absent iff no pair named `k` has a sendable value, otherwise the sendable value of a pair named `k` after which no pair named `k` has one |
| RequestBody.KeptLastValue | nodes/Creatio/Creatio.node.ts:833-836 | the last value for `k` among the kept pairs is the last sendable value for `k` among all pairs |
| RequestBody.KeptMembers | nodes/Creatio/Creatio.node.ts:833-836 | a name survives the PATCH filter exactly when some pair with that name has a sendable value |
| RequestBody.PostFields | nodes/Creatio/Creatio.node.ts:791-796 | the POST body is `{}` without `fields.field` and otherwise the last-write-wins assignment of every pair |
| RequestBody.PatchFields | nodes/Creatio/Creatio.node.ts:831-838 | every value PATCH sends is neither `''` nor `null` nor `undefined`, and without `fields.field` the body is `{}` |
| RequestBody.PatchFieldsSpec | nodes/Creatio/Creatio.node.ts:831-838 | PATCH sends `k` exactly when some pair named `k` has a sendable value, and then sends the last value for `k` among the kept pairs |
| RequestBody.PatchFieldsLastPair | nodes/Creatio/Creatio.node.ts:831-838 | the value PATCH sends for `k` is the reference last sendable value: that of a pair named `k` after which no pair named `k` has a sendable value |
| RequestBody.Body | nodes/Creatio/Creatio.node.ts:787-797 | with `useBody` the custom body passes unchanged; otherwise an object built by the POST or PATCH rule |
| RequestBody.PatchExample | test/Creatio.node.test.ts:59-92 | pairs `Name: 'John Doe'`, `Email: ''` give the body `{Name: 'John Doe'}` |
| Dispatcher.ReadHeaders | nodes/Creatio/Creatio.node.ts:692-702 | read requests carry the read cookie header and the uncut token, the token header left out when undefined |
| Dispatcher.WriteHeaders | nodes/Creatio/Creatio.node.ts:800-811 | write requests carry the write cookie header and the cut token, which is always sent and holds neither `=` nor `;` |
| Dispatcher.PlanRequest | nodes/Creatio/Creatio.node.ts:663-893 | each operation's verb, URL, cookie header and body: GET builds the query URL, METADATA and TABLES read fixed URLs, POST sends the POST body, PATCH and DELETE use the key form |
| Dispatcher.Plan | nodes/Creatio/Creatio.node.ts:651-660 | an item issues a request iff its login succeeded, and the request lies under the normalised OData root |
| Dispatcher.TableEntries | nodes/Creatio/Creatio.node.ts:705 | `{tableName: item.name}` per element, failing with a `TypeError` iff some element is `null` or `undefined` |
| Dispatcher.NormalizeGet | nodes/Creatio/Creatio.node.ts:704-708 | a truthy `value` is unwrapped (mapped to `{tableName}` for an empty subpath), otherwise the response is kept |
| Dispatcher.LowerName | nodes/Creatio/Creatio.node.ts:768 | `item.name.toLowerCase()` succeeds iff the name is a string, and is its lower-cased form |
| Dispatcher.VisibleNames | nodes/Creatio/Creatio.node.ts:766-770 | TABLES fails iff some name cannot be lower-cased; no kept name starts with a hidden prefix |
| Dispatcher.VisibleNamesMembers | nodes/Creatio/Creatio.node.ts:766-770 | a name is kept iff some table has it and its lower-cased form starts with none of `vw`, `sys`, `oauth`, `web` |
| Dispatcher.VisibleNamesAppend | nodes/Creatio/Creatio.node.ts:766-770 | the filter keeps input order: filtering `a + b` is filtering `a`, then `b` |
| Dispatcher.NormalizeTables | nodes/Creatio/Creatio.node.ts:766-771 | TABLES returns one `{tableName}` per kept name, in order |
| Dispatcher.FieldEntries | nodes/Creatio/Creatio.node.ts:743-744 | METADATA returns one `{fieldName}` per field, in order |
| Dispatcher.Normalize | nodes/Creatio/Creatio.node.ts:704-889 | POST and PATCH keep the response, DELETE turns `''` into `{deleted: true}`, METADATA fails iff the block is missing, and no normalisation error is a 401 |
| Dispatcher.Respond | nodes/Creatio/Creatio.node.ts:894-900 | a 401 rejection becomes `[]`, any other rejection escapes as an error, a response is normalised |
| Dispatcher.RequestFields | nodes/Creatio/Creatio.node.ts:904-919 | the recorded keys are `operation`, `subpath`, plus select/top/filter/expand for GET, `id` for PATCH and the raw `body` for POST and PATCH, each holding the parameter it echoes (select as given, top as a number) |
| Dispatcher.Record | nodes/Creatio/Creatio.node.ts:902-923 | the output is wrapped only for GET, POST and PATCH with append-request set, and then holds every request field with its value plus `response` |
| Dispatcher.Step | nodes/Creatio/Creatio.node.ts:651-923 | a failed login aborts the item with the authentication error; otherwise the response, recovered and wrapped |
| Dispatcher.Collect | nodes/Creatio/Creatio.node.ts:650 | one output per result, in order, or the first failure with every earlier result a success |
| Dispatcher.CollectAppend | nodes/Creatio/Creatio.node.ts:650 | gathering splits at any point |
| Dispatcher.OutcomesAt | nodes/Creatio/Creatio.node.ts:650 | the result at each position is the step of the item at that position |
| Dispatcher.Run | nodes/Creatio/Creatio.node.ts:647-925 | the batch succeeds iff every item does, with one output per item in input order; else it fails with the first failing item's error |
| Dispatcher.OutcomesAppend | nodes/Creatio/Creatio.node.ts:650 | per-item results split with the items |
| Dispatcher.RunAppend | nodes/Creatio/Creatio.node.ts:650 | the run of `a + b` is the run of `a` followed by the run of `b`, unless `a` already failed |
| Dispatcher.OutcomesSplice | nodes/Creatio/Creatio.node.ts:650 | the per-item results of `a + [x] + b` place `x`'s step between those of `a` and `b` |
| Dispatcher.CollectSpliceFailure | nodes/Creatio/Creatio.node.ts:897-899 | a failure after successful items ends the batch with its error, whatever follows |
| Dispatcher.CollectSpliceSuccess | nodes/Creatio/Creatio.node.ts:895-896 | a success between two successful runs lines the outputs up around it |
| Dispatcher.UnauthorizedContinues | nodes/Creatio/Creatio.node.ts:894-900 | a 401 yields `[]` (wrapped when asked) for that item and the items after it still run |
| Dispatcher.AuthFailureAborts | nodes/Creatio/Creatio.node.ts:653-660 | a failed login ends the batch with the authentication error, even where the data call would have been a 401 |
| Dispatcher.MetadataRoundTrip | nodes/Creatio/Creatio.node.ts:712-747 | METADATA on a rendered schema (keys and other child markup allowed) gives `{fieldName}` for each structural property of the first entity type named `subpath`, or the failed-lookup error |
| Dispatcher.GetTestRequest | test/Creatio.node.test.ts:25-56 | the GET test's parameters produce a GET to `https://test.creatio.com/0/odata/Contact?$select=Name%2CEmail&$top=10` |
| Dispatcher.PatchTestRequest | test/Creatio.node.test.ts:59-92 | the PATCH test's parameters produce a PATCH whose body is `{Name: 'John Doe'}` |
| Dispatcher.MetadataRequest | nodes/Creatio/Creatio.node.ts:102-110 | the callbacks' `$metadata` GET carries the load-options cookie header and token |
| Dispatcher.LoadEntities | nodes/Creatio/Creatio.node.ts:90-127 | `getODataEntities` offers every entity-type name, and any failure is reported under `Failed to load OData entities: ` |
| Dispatcher.LoadEntityFields | nodes/Creatio/Creatio.node.ts:128-172 | `getODataEntityFields` offers no choices for an empty subpath and the block's property names otherwise, and any failure is reported under `Failed to load OData entity fields: ` |
| JsValues.Message | nodes/Creatio/Creatio.node.ts:121-125 | `error.message` of every error that carries its own message is that message (the failed lookup of a missing entity type is a `TypeError` from indexing `null`, whose text belongs to the JavaScript engine) |
| JsValues.Property | nodes/Creatio/Creatio.node.ts:705 | reading a property throws a `TypeError` iff the value is `undefined` or `null`, and gives the field when present |

## Left out

- HTTP calls (`helpers.request`, the login POST, redirects, `json: true` parsing). Responses, status codes and error messages are inputs instead.
- The node description table (lines 175-645) is declarative UI with no behaviour. `credentials/CreatioApi.credentials.ts` is not part of this model.
- `getCredentials` and `getNodeParameter` are reads of configuration. Their results are the `Credentials` and `Params` inputs, and their own failures are not modelled.
- General regular-expression semantics. `subpath` is put unescaped into a `RegExp`. The model requires it to hold no metacharacter (`Metadata.Literal`), so the expression matches literally.
- MembersScan, BlockScan, EntityNamesRoundTrip, IsolateRoundTrip, EntityFieldsRoundTrip and MetadataRoundTrip: these cover schemas whose child markup is inert. Markup outside a structural property that holds `<Property Name="` (a comment, say), or a nested `<EntityType Name="`, is outside their domain, because the scans would capture it too. The scanners themselves are modelled on any text.
- `Metadata.EntityFieldsRoundTrip` and `Dispatcher.MetadataRoundTrip` also require the entity name to hold no `"`. With a quote, a name could match inside another tag.
- The METADATA and load-options responses are read as text. A response that is not a string is read as `""` (`Dispatcher.Text`).
- `returnJsonArray` and n8n's item wrapping of the output array.
- JSON key order in objects and the dropping of `undefined` header values. Objects are maps, and an undefined header is absent.
- The crash when the login response has no `set-cookie` header. The model always has a (possibly empty) list.
- Numbers are integers: `top` is an `int`, and floating-point rendering of `${top}` is not modelled.
- Strings are sequences of Unicode scalar values. UTF-16 lone surrogates, which make `encodeURIComponent` throw, cannot occur.
- JsValues.Message: the message for indexing `null` is written in V8's wording, and its contract does not pin it, because other JavaScript engines word it differently.
- Strings.LowerAscii: lower-cases ASCII letters only, not full Unicode `toLowerCase`. This is exact for the hidden-prefix test, because no non-ASCII character lower-cases to one of the ASCII letters those prefixes use.
- The operation parameter is one of the six options. An unknown operation, which falls through the `switch` with `response` undefined, is not modelled.
- Prototype-polluting field names such as `__proto__` in the body assignment. Maps have no prototype.
- `encodeURIComponent` keeps JavaScript's unreserved set (which adds `!~*'()` to letters, digits and `-_.`), not the narrower set of section 2.3 of RFC 3986. The code's behaviour is what is modelled.
- The sequencing of `await` calls. Items run one after another, so a fold models them.
