# Azure blob upload server — Dafny model

A model of the logic in `index.js` of a small Express server. The server
accepts one file from a web form, stores it in an Azure blob container,
lists the container and shows the names on a result page. It can also be
pointed at a custom endpoint, such as a WireMock stub, instead of the real
service.

What is modelled, module by module:

- `ConnectionString` (`connection_string.dfy`): the field extraction that
  takes the first capture group of `/AccountName=([^;]+)/`, and likewise of
  `/AccountKey=([^;]+)/`. It follows the RegExp matching of ECMA-262 (section 22.2):
  the leftmost start position where `Key=` is followed by at least one
  non-`;` character wins, and the greedy `[^;]+` then takes the longest run
  of non-`;` characters. `None` stands for the TypeError thrown by `[1]`
  when `match` returns null.
- `Config` and `Client` (`config.dfy`, `client.dfy`): the environment read
  at load and the choice between the custom-endpoint client, built with a
  shared-key credential, and `BlobServiceClient.fromConnectionString`.
- `Pages` (`pages.dfy`): the landing page with its optional "WireMock
  stubbing ENABLED" banner, and the result page. The result page also has
  an inverse parser, used to state what the page shows.
- `UploadHandler` (`upload_handler.dfy`): `listBlobs`, `GET /` and the
  `POST /upload` handler. The storage calls are abstract outcomes passed
  in as parameters. The handler returns the response and the storage calls
  it made, in order.
- `Text` and `Options` (`text.dfy`, `options.dfy`): shared string helpers
  (`RunEnd`, `Contains`) and the `Option` datatype.

Environment variables are `Option<string>`; `None` means unset. JavaScript
truthiness of such a value (`Config.Truthy`) means set and non-empty.

Behaviours of the code worth knowing:

- A request without a file gets status 500 with the generic error body:
  reading `req.file.originalname` (line 48) throws inside the `try`, so the
  catch block answers.
- Extraction does not need a `;` after the value. It fails not only when
  `AccountName=` is absent, but also when every occurrence has an empty
  value. It also matches a longer key name that ends in the key, such as
  `XAccountKey=`.
- Names are embedded unescaped. `Pages.UnescapedNamesCollide` shows the
  consequence: two different listings can render the same page.

## Model

| member | source | states |
|---|---|---|
| Text.RunEnd | index.js:16-17 | the greedy `[^;]+` stops at the first `;` at or after its start, or at the end of the string; every character it passes is not `;` |
| ConnectionString.FirstMatchFrom | index.js:16-17 | the engine's scan returns the leftmost position at or after `from` where `key=` is followed by a non-`;` character, and `None` only when there is no such position |
| ConnectionString.Extract | index.js:16-17 | an extracted value is never empty and never contains `;` |
| ConnectionString.ExtractSpec | index.js:16-17 | extraction yields `v` if and only if the leftmost match of `key=` is followed by `v`, a maximal non-empty run of non-`;` characters |
| ConnectionString.ExtractFailsIffNoMatch | index.js:16-17 | extraction fails (the TypeError) exactly when no `key=` is followed by a non-`;` character: the key is absent or only has empty values |
| ConnectionString.ExtractFindsField | index.js:17 | a field `key=v` with no earlier match yields all of `v`, including `=` characters such as base64 padding, since only `;` ends the value |
| ConnectionString.AbsentCharNoMatch | index.js:16-17 | when a character of `key=` is missing from the string, extraction fails |
| ConnectionString.ExtractSplit | index.js:16-17 | for a string `a;b`, extraction returns `a`'s value if `a` has one and `b`'s otherwise; no match or value crosses a `;` |
| ConnectionString.ExtractJoin | index.js:16-17 | extraction from fields joined by `;` returns the value from the first field that has one |
| ConnectionString.FieldOrderIrrelevant | index.js:16-17 | any rearrangement of the fields yields the same value, as long as the fields carrying the key agree on it |
| ConnectionString.EmptyValueSkipped | index.js:16 | in `key=;key=v`, the empty value is skipped and `v` is found |
| ConnectionString.OnlyEmptyValueFails | index.js:16 | a key whose only occurrence has an empty value fails like an absent key |
| ConnectionString.LongerKeyNameMatches | index.js:17 | the pattern is not anchored, so `XAccountKey=v` yields `v` for `AccountKey` |
| Client.ResolveClient | index.js:15-23 | without a truthy custom endpoint, the whole connection string goes to `fromConnectionString`; with one, the client is a shared-key client for that endpoint holding the extracted name and key, and resolution fails exactly when the connection string is unset or either extraction fails |
| Client.Load | index.js:9-25 | the module loads exactly when the client resolves; the container handle is built from the resolved client and bound to the configured container name |
| Client.LoadFailsOnlyWithCustomEndpoint | index.js:15-22 | without a custom endpoint, loading never fails at this step, even when the string lacks `AccountName=` |
| Client.MissingFieldStopsLoad | index.js:15-17 | with a custom endpoint and no usable `AccountName=` or `AccountKey=`, extraction fails and no client is built |
| Config.Truthy | index.js:15 | JavaScript truthiness of an environment value: unset and empty are false, any other string is true; specified through `Client.ResolveClient` and `Pages.BannerIffCustomEndpoint` |
| Pages.LandingPage | index.js:28-35 | the `GET /` template with the banner slot; specified by `Pages.BannerIffCustomEndpoint` and `Pages.LandingPagesDifferOnlyByBanner` |
| Pages.ListItems | index.js:58-60 | the `<li>` items accumulated with `+=`; specified by `Pages.ListItemsCons` and `Pages.ParseItemsRoundTrip` |
| Pages.ResultPage | index.js:55-62 | the success template; specified by `Pages.ResultPageRoundTrip`, `Pages.ResultPageInjective` and `Pages.UnescapedNamesCollide` |
| Pages.BannerIffCustomEndpoint | index.js:28-35 | the landing page contains the WireMock banner if and only if the custom endpoint is truthy |
| Pages.LandingPagesDifferOnlyByBanner | index.js:28-35 | the landing page depends only on the endpoint's truthiness; the banner page is the plain page with the banner inserted at one place |
| Pages.ListItemsCons | index.js:58-60 | the list accumulated with `+=` starts with the first name's `<li>` item, followed by the rest in order |
| Pages.ParseItemsRoundTrip | index.js:58-60 | the items of names without `<` read back as exactly those names, in order |
| Pages.ResultPageRoundTrip | index.js:55-62 | the result page reads back as the uploaded name and the listing, in order, when none contains `<` |
| Pages.ResultPageInjective | index.js:55-62 | different `<`-free inputs give different result pages |
| Pages.UnescapedNamesCollide | index.js:59 | names are not escaped: one name containing `</li><li>` renders like two separate names |
| UploadHandler.ListBlobs | index.js:38-44 | one name per enumerated item, in enumeration order: same length, and the i-th name is the i-th item's name |
| UploadHandler.HandleIndex | index.js:27-36 | `GET /` answers 200 with the landing page, so the upload form is always sent and the banner appears if and only if the custom endpoint is truthy |
| UploadHandler.HandleUpload | index.js:46-68 | status 200 exactly when a file is present and both the upload and the listing succeed, and the body is then the result page of the file's original name and the listed names; otherwise the response is exactly 500 with "Error uploading file to Azure Blob Storage"; no storage call without a file; the first call uploads under the original name; after a successful upload the second and last call lists the container |
| UploadHandler.ListOnlyAfterUpload | index.js:47-53 | a listing call happens only right after an upload that succeeded |
| UploadHandler.FailureIsNotAResultPage | index.js:65-67 | every failure (missing file, failed upload, failed listing) gives the same 500 response, and its body is not a result page |
| UploadHandler.SuccessPageEmbedsNames | index.js:55-60 | whatever the names contain, a successful response starts with the intro and the original file name, verbatim, and contains the `<li>` items of the listed names in enumeration order, verbatim |
| UploadHandler.SuccessPageShowsListing | index.js:48-64 | for names without `<`, a successful response reads back as exactly the original file name and the listed names, in order |
| UploadHandler.ListingIgnoredAfterFailedUpload | index.js:51-53 | after a failed upload, the listing outcome does not affect the response or the calls |

## Left out

- Express routing, multer parsing, `dotenv` and `app.listen` with the port default (lines 1-7, 71-74): framework and I/O plumbing. The handlers are functions of the parsed request. Express's own answer to a conditional `GET` whose `If-None-Match` matches the ETag it generates (status 304, empty body) is not modelled, so `UploadHandler.HandleIndex` always answers 200. Errors that multer raises itself, such as an unexpected field name, never reach the handler and are not modelled.
- The Azure SDK (lines 18-25, 40, 49, 51): constructors, `fromConnectionString` parsing, `getBlockBlobClient` and the network transfer are foreign calls. A client mode records the arguments they receive, and the upload and listing are outcomes given as parameters.
- Blob-store semantics such as overwrite of a duplicate name, last-write-wins and enumeration order belong to the remote service. The listing is an input sequence.
- `async`/`await`, `for await` and interleaving across requests: each request is modelled on its own, in sequence.
- `console.error` and `console.log` (lines 66, 73): side effects that the response does not depend on.
- Response headers that Express sets, such as Content-Type: these are framework behaviour.
- JavaScript strings are UTF-16 code units, while the model's strings are sequences of Dafny characters. The regex and page logic only compare against ASCII characters, so a character stands in for a code unit.
- Client.ResolveClient: if `fromConnectionString` would throw on a malformed string, that error is not modelled. This mode only records the string that is passed on.
