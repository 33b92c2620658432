# Twitch live-thumbnail Lambda, modelled in Dafny

This project models the AWS Lambda handler of `src/main.rs`. The handler runs
when a CloudWatch event says that a Twitch channel has gone live. It reads its
configuration from the environment. It asks the Helix `streams` endpoint for
the channel's live stream, takes the first record, fills the record's
thumbnail template in at 1280x720 and downloads the image. It then writes the
image to S3 under `<login>.jpg`.

The handler is a straight line of calls with early returns, so it is modelled
as pure functions:

- `Wrappers.dfy`: `Option` and `Result`.
- `StrReplace.dfy`: `str::replace`, and a character-index analogue of
  `str::find`. Strings are sequences of characters. `ReplaceAll`
  follows the left-to-right scan of Rust's searcher. It is proved equal to
  `ReplaceByFind`, a definition built from `find`. The proofs also show that
  no occurrence of the pattern survives, that no new occurrence of a string
  disjoint from the replacement appears, and that replacing is idempotent.
  These need a non-empty replacement that shares no character with the
  pattern. That holds for `1280` with `{width}` and for `720` with
  `{height}`. Without it the property fails: `"{{ab}b}".replace("{ab}", "a")`
  is `"{ab}"`.
- `Preview.dfy`: the records (`TwitchStream`, `TwitchStreams`, the event),
  `get_env`, the streams request, thumbnail templating, the storage key, the
  mapping of the put result, and `FunctionHandler`.

The three outside calls appear as their outcomes in a `World` value: the
streams query after `send` and `json`, the download after `send` and `bytes`,
and the S3 put. `FunctionHandler` returns the handler's outcome together with
the trace of requests it issued. A missing event detail (the `unwrap` at
src/main.rs:91) is the `Panicked` outcome.

Notes on the handler's behaviour:

- The bearer token is read from `TWITCH_OAUTH2_TOKEN`. No client-credentials
  exchange happens, because `src/twitch.rs` is not called from `main.rs`.
- Missing configuration does not fail. The token and the client id default to
  `"none"` and the bucket name defaults to `""`.
- No HTTP status is checked, because `error_for_status` is never called. A
  non-success thumbnail response still yields bytes, and those bytes are
  uploaded. Only transport failures and body-decoding failures are errors.
- The streams query also sends `type=live`.

## Model

| member | source | states |
|---|---|---|
| `StrReplace.Find` | src/main.rs:112 | a character-index analogue of `str::find`: a returned index leaves room for the whole pattern |
| `StrReplace.FindIsFirstOccurrence` | src/main.rs:112 | `find` returns an occurrence and no earlier index is one; it returns `None` exactly when the pattern does not occur |
| `StrReplace.ReplaceAll` | src/main.rs:112 | with an empty pattern the result is `Slot(n, rep)` plus one more copy long, `n` being the length of `s`, and it starts with the replacement followed by the first character of `s` |
| `StrReplace.SlotIsProduct` | src/main.rs:112 | `Slot(i, rep)`, where the copy for boundary `i` starts, is `i` times one more than the replacement's length |
| `StrReplace.EmptyPatternSuffix` | src/main.rs:112 | with an empty pattern, what follows the first `i` copies and characters is the replacement of the rest of `s` |
| `StrReplace.EmptyPatternAt` | src/main.rs:112 | with an empty pattern the replacement stands at every character boundary `i`, both ends included: it starts at `Slot(i, rep)` and, except at the end, is followed by `s[i]` |
| `StrReplace.ReplaceAllIsReplaceByFind` | src/main.rs:112 | the left-to-right scan equals "copy up to the first match, put the replacement, continue after the match" on every input |
| `StrReplace.ReplaceAllAbsent` | src/main.rs:112 | a string without the pattern comes back unchanged |
| `StrReplace.PrefixComesFromInput` | src/main.rs:112 | a prefix of the output sharing no character with a non-empty replacement is a prefix of the input |
| `StrReplace.NoNewOccurrence` | src/main.rs:112 | an occurrence in the output of a string disjoint from the non-empty replacement was already in the input |
| `StrReplace.NoneSurvives` | src/main.rs:112 | no occurrence of the pattern remains at any index when the replacement is non-empty and shares no character with the pattern |
| `StrReplace.ReplaceAllRemovesAll` | src/main.rs:112 | the output does not contain the pattern, under the same conditions |
| `StrReplace.ReplaceAllKeepsAbsent` | src/main.rs:112 | a string absent from the input and disjoint from the replacement stays absent, so the height pass cannot bring `{width}` back |
| `StrReplace.ReplaceAllIdempotent` | src/main.rs:112 | replacing twice equals replacing once |
| `StrReplace.ReplaceAllCopiesFree` | src/main.rs:112 | text without the pattern's first character is copied verbatim, whatever follows |
| `StrReplace.CopiesUntilMatch` | src/main.rs:112 | when no occurrence of the pattern starts before index `n`, the first `n` characters are copied and the scan resumes at `n` |
| `StrReplace.UntouchedSurvives` | src/main.rs:112 | an occurrence of any string that no occurrence of the pattern overlaps is still in the result |
| `Preview.Var` | src/main.rs:65-77 | `std::env::var` succeeds exactly for a set, valid-Unicode variable, returns its text, and reports "not present" exactly for an unset one |
| `Preview.GetEnv` | src/main.rs:64-86 | each setting is its variable's value when that is usable; otherwise the token and the client id are `"none"` and the bucket name is `""` |
| `Preview.GetEnvReadsOnlyItsVariables` | src/main.rs:64-86 | two environments that agree on the three variables give the same configuration |
| `Preview.StreamsRequest` | src/main.rs:94-101 | GET on the Helix streams endpoint with exactly two query pairs, `user_login=<login>` and `type=live`, and exactly two headers, `Authorization: Bearer <token>` and `Client-Id: <client id>` |
| `Preview.TemplateThumbnailUrl` | src/main.rs:112 | the templated URL contains neither `{width}` nor `{height}` |
| `Preview.TemplateLeavesPlainUrl` | src/main.rs:112 | a URL without placeholders is returned unchanged |
| `Preview.TemplateIdempotent` | src/main.rs:112 | templating twice equals templating once |
| `Preview.TemplateIsFindAndReplace` | src/main.rs:112 | every occurrence, found left to right, is replaced by `1280`, then by `720`, and the text between occurrences is copied |
| `Preview.TemplateOnPieces` | src/main.rs:112 | for this one layout: `a{b{width}c{height}d` becomes `a{b1280c720d` when no piece holds `{` and `b` is non-empty and starts with neither `w` nor `h` |
| `Preview.BraceTokensDoNotOverlap` | src/main.rs:112 | no occurrence of one brace token (`{`, text without braces, `}`) overlaps an occurrence of a different one |
| `Preview.TemplateKeepsBraceTokens` | src/main.rs:112 | every `{x}` in the URL, where `x` holds no brace and `{x}` is neither placeholder (such as `{user_login}`), is still in the templated URL |
| `Preview.TemplateExample` | src/main.rs:112 | `https://x/{user_login}-{width}x{height}.jpg` becomes `https://x/{user_login}-1280x720.jpg` |
| `Preview.StorageKey` | src/main.rs:116 | the key is the login followed by `.jpg` |
| `Preview.StorageKeyInjective` | src/main.rs:116 | distinct logins get distinct keys |
| `Preview.PutResult` | src/main.rs:122-129 | the result is `Ok(())` exactly when the put succeeded; every failure becomes the fixed upload message |
| `Preview.FunctionHandler` | src/main.rs:88-130 | panics, with no request, exactly when the event has no detail; succeeds exactly when the query, the download and the put succeed and the list is non-empty; issues at most three requests, the put being the third and only one, and only after a live stream was found and downloaded |
| `Preview.QueryComesFirst` | src/main.rs:91-101 | the first request is the streams query for the event's login, built from `get_env` |
| `Preview.QueryFailurePropagates` | src/main.rs:102-105 | a failed query or decode is returned as it is, and nothing else is requested |
| `Preview.EmptyListStopsBeforeDownload` | src/main.rs:107-109 | an empty list returns "Stream list did not include a live stream." with no download and no put |
| `Preview.DownloadsFirstThumbnail` | src/main.rs:111-113 | the second request is a plain GET of the first record's templated thumbnail URL, which holds no placeholder |
| `Preview.FirstRecordWins` | src/main.rs:111 | records after the first never change the invocation |
| `Preview.DownloadFailurePropagates` | src/main.rs:113 | a failed download is returned as it is, and nothing is written |
| `Preview.PutsDownloadedBytes` | src/main.rs:115-120 | the third request puts the downloaded bytes into `bucket_name` under `<login>.jpg`; the result is the mapped put outcome |
| `Preview.PutErrorIsNotReturned` | src/main.rs:122-129 | any two S3 errors give the same invocation, so the error detail never reaches the result |
| `Preview.ScenarioOneLiveStream` | src/main.rs:88-130 | login `alice` with one record: success, a GET of `https://x/{user_login}-1280x720.jpg`, a put under `alice.jpg` |
| `Preview.ScenarioPutFails` | src/main.rs:122-129 | a failing put ends in the upload message after all three requests |

## Left out

- `src/twitch.rs` (`TwitchClient`, `get_auth_token`, `get_streams`): `main.rs` never calls it, and it only wraps HTTP requests.
- S3 client construction and config loading (`get_s3_client`, src/main.rs:57-62): plumbing. It is not in the trace, and its failures are not modelled.
- HTTP transport, `.send()`, `.json()` and `.bytes()` (src/main.rs:102-105, 113): each appears only as an `Ok`/`Err` outcome in `World`. JSON decoding failures, including a `viewer_count` above the `u16` range, are an `Err` of the streams outcome.
- URL encoding of the query pairs by `reqwest`, and the parsing of the thumbnail URL: these are transport-library behaviour. A URL that does not parse is an `Err` of the download outcome.
- `ByteStream` conversion and the S3 `put_object` transport (src/main.rs:118-120): the put is a recorded request together with an outcome.
- The `println!` of the S3 error (src/main.rs:125): it only writes to the log.
- The Lambda runtime, tokio and tracing setup in `main` (src/main.rs:132-143): runtime plumbing.
- `TwitchPagination` (src/main.rs:36-38): its field in `TwitchStreams` is commented out.
- The CloudWatch event's fields other than `detail`: the handler reads none of them.
- Strings are sequences of characters, not UTF-8 bytes: `Find` returns a character index where Rust's `find` returns a byte offset. The result of `replace` is the same either way.
- Concurrency between invocations: each invocation is independent and shares no state.
