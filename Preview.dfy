/** The Lambda handler of src/main.rs: when a channel goes live it asks the
    Twitch Helix API for the channel's live stream, fills the stream's
    thumbnail template in at 1280x720, downloads the image and stores it in
    S3 as `<login>.jpg`.

    The handler is a straight line of calls with early returns. The three
    outside calls (the streams query, the thumbnail download, the S3 put) are
    given as their outcomes in a `World`; the handler returns its result
    together with the trace of requests it issued, so that what it fetched and
    wrote, and in which order, can be stated. */
module Preview {
  import opened Wrappers
  import opened StrReplace

  newtype u8 = x: int | 0 <= x < 0x100
  newtype u16 = x: int | 0 <= x < 0x1_0000

  // ---------------------------------------------------------------- records

  /** The `detail` of the EventSub "stream online" notification. */
  datatype StreamOnline = StreamOnline(twitchUserLogin: string)

  /** The CloudWatch event; only its optional `detail` is read. */
  datatype CloudWatchEvent = CloudWatchEvent(detail: Option<StreamOnline>)

  /** One record of the Helix `streams` response. */
  datatype TwitchStream = TwitchStream(
    id: string,
    userId: string,
    userLogin: string,
    userName: string,
    gameId: string,
    gameName: string,
    twType: string,
    title: string,
    tags: seq<string>,
    viewerCount: u16,
    startedAt: string,
    language: string,
    thumbnailUrl: string,
    tagIds: seq<string>,
    isMature: bool)

  /** The Helix `streams` response body. */
  datatype TwitchStreams = TwitchStreams(data: seq<TwitchStream>)

  // ---------------------------------------------------------- configuration

  /** A process environment variable's value as the OS holds it. */
  datatype OsValue = Unicode(text: string) | NotUnicode

  type Environment = map<string, OsValue>

  /** Why `std::env::var` fails. */
  datatype VarError = NotPresent | NotValidUnicode

  /** `std::env::var`. */
  function Var(vars: Environment, name: string): (r: Result<string, VarError>)
    ensures r.Ok? <==> name in vars && vars[name].Unicode?
    ensures r.Ok? ==> r.value == vars[name].text
    ensures r == Err(NotPresent) <==> name !in vars
  {
    if name !in vars then Err(NotPresent)
    else match vars[name]
      case Unicode(text) => Ok(text)
      case NotUnicode => Err(NotValidUnicode)
  }

  const TokenVar := "TWITCH_OAUTH2_TOKEN"
  const ClientIdVar := "TWITCH_CLIENT_ID"
  const BucketVar := "BUCKET_NAME"

  datatype FuncEnv = FuncEnv(bucketName: string, twitchOauth2Token: string, twitchClientId: string)

  /** The value of `name`, or `fallback` when `std::env::var` fails. */
  function VarOr(vars: Environment, name: string, fallback: string): string {
    match Var(vars, name)
    case Ok(text) => text
    case Err(_) => fallback
  }

  /** `get_env`: each setting is its variable's value when that is set and
      valid Unicode; otherwise the token and the client id fall back to
      "none" and the bucket name to "". */
  function GetEnv(vars: Environment): (env: FuncEnv)
    ensures TokenVar in vars && vars[TokenVar].Unicode? ==> env.twitchOauth2Token == vars[TokenVar].text
    ensures !(TokenVar in vars && vars[TokenVar].Unicode?) ==> env.twitchOauth2Token == "none"
    ensures ClientIdVar in vars && vars[ClientIdVar].Unicode? ==> env.twitchClientId == vars[ClientIdVar].text
    ensures !(ClientIdVar in vars && vars[ClientIdVar].Unicode?) ==> env.twitchClientId == "none"
    ensures BucketVar in vars && vars[BucketVar].Unicode? ==> env.bucketName == vars[BucketVar].text
    ensures !(BucketVar in vars && vars[BucketVar].Unicode?) ==> env.bucketName == ""
  {
    var tot := VarOr(vars, TokenVar, "none");
    var tci := VarOr(vars, ClientIdVar, "none");
    var bn := VarOr(vars, BucketVar, "");
    FuncEnv(bn, tot, tci)
  }

  /** `get_env` reads its three variables and nothing else. */
  lemma GetEnvReadsOnlyItsVariables(v1: Environment, v2: Environment)
    requires forall name :: name in {TokenVar, ClientIdVar, BucketVar} ==>
      Var(v1, name) == Var(v2, name)
    ensures GetEnv(v1) == GetEnv(v2)
  {
    assert Var(v1, TokenVar) == Var(v2, TokenVar);
    assert Var(v1, ClientIdVar) == Var(v2, ClientIdVar);
    assert Var(v1, BucketVar) == Var(v2, BucketVar);
  }

  // --------------------------------------------------------------- requests

  /** A request the handler issues: an HTTP GET with its query pairs and
      headers, or an S3 `PutObject`. */
  datatype Request =
    | HttpGet(url: string, query: seq<(string, string)>, headers: seq<(string, string)>)
    | PutObject(bucket: string, key: string, body: seq<u8>)

  /** The value of the first pair whose name is `name`. */
  function Lookup(pairs: seq<(string, string)>, name: string): (r: Option<string>)
    ensures r.None? <==> forall i :: 0 <= i < |pairs| ==> pairs[i].0 != name
    ensures r.Some? ==>
      exists i :: 0 <= i < |pairs| && pairs[i] == (name, r.value)
        && (forall j :: 0 <= j < i ==> pairs[j].0 != name)
  {
    if pairs == [] then None
    else if pairs[0].0 == name then Some(pairs[0].1)
    else Lookup(pairs[1..], name)
  }

  const StreamsEndpoint := "https://api.twitch.tv/helix/streams"

  /** The Helix streams query for `login`: GET on the streams endpoint with
      exactly the query pairs `user_login` and `type=live`, and exactly the
      headers `Authorization: Bearer <token>` and `Client-Id: <client id>`. */
  function StreamsRequest(login: string, env: FuncEnv): (r: Request)
    ensures r.HttpGet? && r.url == StreamsEndpoint
    ensures |r.query| == 2 && Lookup(r.query, "user_login") == Some(login)
    ensures Lookup(r.query, "type") == Some("live")
    ensures |r.headers| == 2
    ensures Lookup(r.headers, "Authorization") == Some("Bearer " + env.twitchOauth2Token)
    ensures Lookup(r.headers, "Client-Id") == Some(env.twitchClientId)
  {
    HttpGet(
      StreamsEndpoint,
      [("user_login", login), ("type", "live")],
      [("Authorization", "Bearer " + env.twitchOauth2Token), ("Client-Id", env.twitchClientId)])
  }

  // ------------------------------------------------------------- thumbnail

  const WidthPlaceholder := "{width}"
  const HeightPlaceholder := "{height}"
  const Width := "1280"
  const Height := "720"

  /** Neither placeholder shares a character with either dimension. */
  lemma PlaceholdersDisjointFromDimensions()
    ensures Disjoint(WidthPlaceholder, Width) && Disjoint(WidthPlaceholder, Height)
    ensures Disjoint(HeightPlaceholder, Height)
  {
  }

  /** `thumbnail_url.replace("{width}", "1280").replace("{height}", "720")`:
      the result holds neither placeholder. */
  function TemplateThumbnailUrl(url: string): (r: string)
    ensures !Contains(r, WidthPlaceholder) && !Contains(r, HeightPlaceholder)
  {
    var sized := ReplaceAll(url, WidthPlaceholder, Width);
    PlaceholdersDisjointFromDimensions();
    ReplaceAllRemovesAll(url, WidthPlaceholder, Width);
    ReplaceAllKeepsAbsent(sized, HeightPlaceholder, Height, WidthPlaceholder);
    ReplaceAllRemovesAll(sized, HeightPlaceholder, Height);
    ReplaceAll(sized, HeightPlaceholder, Height)
  }

  /** A URL without placeholders is fetched as it is. */
  lemma TemplateLeavesPlainUrl(url: string)
    requires !Contains(url, WidthPlaceholder) && !Contains(url, HeightPlaceholder)
    ensures TemplateThumbnailUrl(url) == url
  {
    ReplaceAllAbsent(url, WidthPlaceholder, Width);
    ReplaceAllAbsent(url, HeightPlaceholder, Height);
  }

  /** Templating twice is templating once. */
  lemma TemplateIdempotent(url: string)
    ensures TemplateThumbnailUrl(TemplateThumbnailUrl(url)) == TemplateThumbnailUrl(url)
  {
    TemplateLeavesPlainUrl(TemplateThumbnailUrl(url));
  }

  /** Each pass replaces every occurrence found by `find`, left to right,
      and copies the text around the occurrences unchanged. */
  lemma TemplateIsFindAndReplace(url: string)
    ensures TemplateThumbnailUrl(url) ==
      ReplaceByFind(ReplaceByFind(url, WidthPlaceholder, Width), HeightPlaceholder, Height)
  {
    ReplaceAllIsReplaceByFind(url, WidthPlaceholder, Width);
    ReplaceAllIsReplaceByFind(ReplaceAll(url, WidthPlaceholder, Width), HeightPlaceholder, Height);
  }

  /** A `{` that does not open `pat` is copied. */
  lemma CopiesStrayBrace(b: string, pat: string, rep: string)
    requires |pat| > 1 && b != [] && b[0] != pat[1]
    ensures ReplaceAll("{" + b, pat, rep) == "{" + ReplaceAll(b, pat, rep)
  {
    assert ("{" + b)[1] == b[0];
    ReplaceAllAtMiss('{', b, pat, rep);
  }

  /** The width pass on `a{b{width}c{height}d`, where `a`, `b`, `c`, `d`
      hold no `{` and `b` does not start with `w`. */
  lemma WidthPassOnPieces(a: string, b: string, c: string, d: string)
    requires '{' !in a && '{' !in b && '{' !in c && '{' !in d && b != [] && b[0] != 'w'
    ensures ReplaceAll(a + ("{" + (b + (WidthPlaceholder + (c + (HeightPlaceholder + d))))), WidthPlaceholder, Width)
      == a + ("{" + (b + (Width + (c + (HeightPlaceholder + d)))))
  {
    var w := WidthPlaceholder;
    assert w[0] == '{' && w[1] == 'w';
    var h := "height}";
    assert h[0] == 'h' && '{' !in h;
    assert HeightPlaceholder == "{" + h;
    ConcatAssoc("{", h, d);
    ReplaceAllCopiesFree(d, [], w, Width);
    assert d + [] == d;
    ReplaceAllCopiesFree(h, d, w, Width);
    CopiesStrayBrace(h + d, w, Width);
    ReplaceAllCopiesFree(c, HeightPlaceholder + d, w, Width);
    ReplaceAllAtMatch(c + (HeightPlaceholder + d), w, Width);
    ReplaceAllCopiesFree(b, w + (c + (HeightPlaceholder + d)), w, Width);
    assert (b + (w + (c + (HeightPlaceholder + d))))[0] == b[0];
    CopiesStrayBrace(b + (w + (c + (HeightPlaceholder + d))), w, Width);
    ReplaceAllCopiesFree(a, "{" + (b + (w + (c + (HeightPlaceholder + d)))), w, Width);
  }

  /** The height pass on `a{b1280c{height}d`, under the same conditions,
      with `b` not starting with `h`. */
  lemma HeightPassOnPieces(a: string, b: string, c: string, d: string)
    requires '{' !in a && '{' !in b && '{' !in c && '{' !in d && b != [] && b[0] != 'h'
    ensures ReplaceAll(a + ("{" + (b + (Width + (c + (HeightPlaceholder + d))))), HeightPlaceholder, Height)
      == a + ("{" + (b + (Width + (c + (Height + d)))))
  {
    var h := HeightPlaceholder;
    assert h[0] == '{' && h[1] == 'h';
    ReplaceAllCopiesFree(d, [], h, Height);
    assert d + [] == d;
    ReplaceAllAtMatch(d, h, Height);
    assert '{' !in Width;
    ReplaceAllCopiesFree(c, h + d, h, Height);
    ReplaceAllCopiesFree(Width, c + (h + d), h, Height);
    ReplaceAllCopiesFree(b, Width + (c + (h + d)), h, Height);
    assert (b + (Width + (c + (h + d))))[0] == b[0];
    CopiesStrayBrace(b + (Width + (c + (h + d))), h, Height);
    ReplaceAllCopiesFree(a, "{" + (b + (Width + (c + (h + d)))), h, Height);
  }

  /** Templating `a{b{width}c{height}d` fills in both dimensions and leaves
      the other `{...}` token alone. */
  lemma TemplateOnPieces(a: string, b: string, c: string, d: string)
    requires '{' !in a && '{' !in b && '{' !in c && '{' !in d && b != [] && b[0] != 'w' && b[0] != 'h'
    ensures TemplateThumbnailUrl(a + ("{" + (b + (WidthPlaceholder + (c + (HeightPlaceholder + d))))))
      == a + ("{" + (b + (Width + (c + (Height + d)))))
  {
    WidthPassOnPieces(a, b, c, d);
    HeightPassOnPieces(a, b, c, d);
  }

  /** The URL `https://x/{user_login}-{width}x{height}.jpg`, cut into the
      pieces of `TemplateOnPieces`. */
  lemma ExampleInput(a: string, b: string, c: string, d: string)
    requires a == "https://x/" && b == "user_login}-" && c == "x" && d == ".jpg"
    ensures a + ("{" + (b + (WidthPlaceholder + (c + (HeightPlaceholder + d)))))
      == "https://x/{user_login}-{width}x{height}.jpg"
  {
    assert a + "{" + b + WidthPlaceholder + c + HeightPlaceholder + d
      == "https://x/{user_login}-{width}x{height}.jpg";
    assert a + ("{" + (b + (WidthPlaceholder + (c + (HeightPlaceholder + d)))))
      == a + "{" + b + WidthPlaceholder + c + HeightPlaceholder + d;
  }

  /** The expected result, cut into the same pieces. */
  lemma ExampleOutput(a: string, b: string, c: string, d: string)
    requires a == "https://x/" && b == "user_login}-" && c == "x" && d == ".jpg"
    ensures a + ("{" + (b + (Width + (c + (Height + d))))) == "https://x/{user_login}-1280x720.jpg"
  {
    assert a + "{" + b + Width + c + Height + d == "https://x/{user_login}-1280x720.jpg";
    assert a + ("{" + (b + (Width + (c + (Height + d))))) == a + "{" + b + Width + c + Height + d;
  }

  /** The URL `https://x/{user_login}-{width}x{height}.jpg`: the
      dimensions are filled in and `{user_login}` survives. */
  lemma TemplateExample()
    ensures TemplateThumbnailUrl("https://x/{user_login}-{width}x{height}.jpg")
      == "https://x/{user_login}-1280x720.jpg"
  {
    var a, b, c, d := "https://x/", "user_login}-", "x", ".jpg";
    assert b[0] == 'u';
    TemplateOnPieces(a, b, c, d);
    ExampleInput(a, b, c, d);
    ExampleOutput(a, b, c, d);
  }

  /** A brace token: `{`, then text without braces, then `}`. Both
      placeholders are brace tokens, and so is `{user_login}`. */
  predicate BraceToken(t: string) {
    |t| >= 2 && t[0] == '{' && t[|t| - 1] == '}'
    && forall k :: 0 < k < |t| - 1 ==> t[k] != '{' && t[k] != '}'
  }

  lemma BraceTokenFromInner(x: string)
    requires '{' !in x && '}' !in x
    ensures BraceToken("{" + x + "}")
  {
    var t := "{" + x + "}";
    forall k | 0 < k < |t| - 1 ensures t[k] != '{' && t[k] != '}' {
      assert t[k] == x[k - 1];
    }
  }

  lemma PlaceholdersAreBraceTokens()
    ensures BraceToken(WidthPlaceholder) && BraceToken(HeightPlaceholder)
  {
    assert WidthPlaceholder == "{" + "width" + "}";
    BraceTokenFromInner("width");
    assert HeightPlaceholder == "{" + "height" + "}";
    BraceTokenFromInner("height");
  }

  /** Two different brace tokens never overlap: no occurrence of `pat`
      overlaps an occurrence of `w`. */
  lemma BraceTokensDoNotOverlap(s: string, pat: string, w: string, i: nat)
    requires BraceToken(pat) && BraceToken(w) && pat != w && OccursAt(s, w, i)
    ensures forall j: nat :: j < i + |w| && i < j + |pat| ==> !OccursAt(s, pat, j)
  {
    forall j: nat | j < i + |w| && i < j + |pat| ensures !OccursAt(s, pat, j) {
      if j < i {
        // `s[i]` opens `w`, but no position inside `pat` holds `{`.
        assert s[i..][0] == w[0];
        if j + |pat| <= |s| {
          assert s[j..][i - j] == s[i];
          assert pat[i - j] != '{';
        }
      } else if j == i {
        // Both start at `i`; the first `}` after it closes both.
        if |w| < |pat| {
          assert s[i..][|w| - 1] == w[|w| - 1];
          assert pat[|w| - 1] != '}';
        } else if |pat| < |w| {
          if |pat| <= |s[i..]| {
            assert s[i..][|pat| - 1] == w[|pat| - 1];
            assert w[|pat| - 1] != '}';
          }
        } else {
          assert s[i..][..|w|] == w;
        }
      } else {
        // `s[j]` lies inside `w` or closes it, so it is not `{`.
        assert s[i..][j - i] == w[j - i] && s[i..][j - i] == s[j];
        assert w[j - i] != '{';
        if j <= |s| {
          assert s[j..][0] == s[j];
        }
      }
    }
  }

  /** Templating keeps every other brace token of the URL, such as
      `{user_login}`: an occurrence of `{x}` in the URL, with no brace in
      `x`, is still in the result unless `{x}` is a placeholder. */
  lemma TemplateKeepsBraceTokens(url: string, x: string)
    requires '{' !in x && '}' !in x
    requires "{" + x + "}" != WidthPlaceholder && "{" + x + "}" != HeightPlaceholder
    ensures Contains(url, "{" + x + "}") ==> Contains(TemplateThumbnailUrl(url), "{" + x + "}")
  {
    var w := "{" + x + "}";
    if Contains(url, w) {
      var i: nat :| i <= |url| && OccursAt(url, w, i);
      BraceTokenFromInner(x);
      PlaceholdersAreBraceTokens();
      BraceTokensDoNotOverlap(url, WidthPlaceholder, w, i);
      UntouchedSurvives(url, WidthPlaceholder, Width, w, i);
      var sized := ReplaceAll(url, WidthPlaceholder, Width);
      var k: nat :| k <= |sized| && OccursAt(sized, w, k);
      BraceTokensDoNotOverlap(sized, HeightPlaceholder, w, k);
      UntouchedSurvives(sized, HeightPlaceholder, Height, w, k);
    }
  }

  // ----------------------------------------------------------------- storage

  /** `format!("{}.jpg", login)`: the login followed by ".jpg". */
  function StorageKey(login: string): (key: string)
    ensures |key| == |login| + 4 && key[..|login|] == login && key[|login|..] == ".jpg"
  {
    login + ".jpg"
  }

  /** Distinct logins get distinct keys, so one channel never overwrites
      another channel's thumbnail. */
  lemma StorageKeyInjective(a: string, b: string)
    requires StorageKey(a) == StorageKey(b)
    ensures a == b
  {
    var k := StorageKey(a);
    assert |a| == |b|;
    assert a == k[..|a|] == b;
  }

  // ------------------------------------------------------------------ errors

  /** A `reqwest` transport or decoding failure, opaque. */
  datatype HttpError = HttpError(description: string)

  /** An S3 `SdkError`, opaque. */
  datatype S3Error = S3Error(description: string)

  /** The boxed error the handler returns: a propagated HTTP error, or a
      fixed message. */
  datatype HandlerError = Http(cause: HttpError) | Message(text: string)

  const NoLiveStreamMessage := "Stream list did not include a live stream."
  const UploadFailedMessage := "Failed to upload thumbnail to S3."

  /** The mapping of the put outcome: success is `Ok(())`, and any S3 error
      (only logged) becomes the one fixed message. */
  function PutResult(put: Result<(), S3Error>): (r: Result<(), HandlerError>)
    ensures r.Ok? <==> put.Ok?
    ensures r.Err? ==> r.error == Message(UploadFailedMessage)
  {
    match put
    case Ok(_) => Ok(())
    case Err(_) => Err(Message(UploadFailedMessage))
  }

  // ----------------------------------------------------------------- handler

  /** What the three outside calls return in one invocation. `streams` is
      the query after `send` and `json`, `thumbnail` the download after
      `send` and `bytes`, `put` the S3 call. */
  datatype World = World(
    streams: Result<TwitchStreams, HttpError>,
    thumbnail: Result<seq<u8>, HttpError>,
    put: Result<(), S3Error>)

  /** The handler panics (the `unwrap` of the event detail) or returns. */
  datatype Outcome = Panicked | Returned(result: Result<(), HandlerError>)

  datatype Invocation = Invocation(outcome: Outcome, trace: seq<Request>)

  predicate HasLiveStream(world: World) {
    world.streams.Ok? && |world.streams.value.data| > 0
  }

  /** `function_handler`. It panics before any request when the event has
      no detail; it succeeds exactly when every call succeeds and the stream
      list is non-empty; it issues at most one request of each kind, in the
      order query, download, put; the put is the last request and happens
      only after a live stream was found and its thumbnail downloaded. */
  function FunctionHandler(event: CloudWatchEvent, vars: Environment, world: World): (r: Invocation)
    ensures r.outcome.Panicked? <==> event.detail.None?
    ensures event.detail.None? ==> r.trace == []
    ensures r.outcome == Returned(Ok(())) <==>
      event.detail.Some? && HasLiveStream(world) && world.thumbnail.Ok? && world.put.Ok?
    ensures |r.trace| <= 3
    ensures forall i :: 0 <= i < |r.trace| ==> (r.trace[i].PutObject? <==> i == 2)
    ensures |r.trace| > 1 ==> HasLiveStream(world)
    ensures |r.trace| > 2 ==> world.thumbnail.Ok?
  {
    match event.detail
    case None => Invocation(Panicked, [])
    case Some(detail) =>
      var env := GetEnv(vars);
      var query := StreamsRequest(detail.twitchUserLogin, env);
      match world.streams
      case Err(e) => Invocation(Returned(Err(Http(e))), [query])
      case Ok(streams) =>
        if |streams.data| == 0 then
          Invocation(Returned(Err(Message(NoLiveStreamMessage))), [query])
        else
          var download := HttpGet(TemplateThumbnailUrl(streams.data[0].thumbnailUrl), [], []);
          match world.thumbnail
          case Err(e) => Invocation(Returned(Err(Http(e))), [query, download])
          case Ok(bytes) =>
            var put := PutObject(env.bucketName, StorageKey(detail.twitchUserLogin), bytes);
            Invocation(Returned(PutResult(world.put)), [query, download, put])
  }

  /** The first request is the streams query for the event's login, built
      from `get_env`. */
  lemma QueryComesFirst(event: CloudWatchEvent, vars: Environment, world: World)
    requires event.detail.Some?
    ensures var r := FunctionHandler(event, vars, world);
      |r.trace| >= 1 && r.trace[0] == StreamsRequest(event.detail.value.twitchUserLogin, GetEnv(vars))
  {
  }

  /** A failed query is returned as it is, and nothing else is requested. */
  lemma QueryFailurePropagates(event: CloudWatchEvent, vars: Environment, world: World)
    requires event.detail.Some? && world.streams.Err?
    ensures var r := FunctionHandler(event, vars, world);
      r.outcome == Returned(Err(Http(world.streams.error))) && |r.trace| == 1
  {
  }

  /** An empty stream list fails with the fixed message: no download and no
      put is issued. */
  lemma EmptyListStopsBeforeDownload(event: CloudWatchEvent, vars: Environment, world: World)
    requires event.detail.Some? && world.streams.Ok? && world.streams.value.data == []
    ensures var r := FunctionHandler(event, vars, world);
      r.outcome == Returned(Err(Message(NoLiveStreamMessage))) && |r.trace| == 1
      && forall i :: 0 <= i < |r.trace| ==> !r.trace[i].PutObject? && r.trace[i].url == StreamsEndpoint
  {
  }

  /** With a live stream, the second request downloads the first record's
      thumbnail, templated, with no query and no headers; the URL holds no
      placeholder. */
  lemma DownloadsFirstThumbnail(event: CloudWatchEvent, vars: Environment, world: World)
    requires event.detail.Some? && HasLiveStream(world)
    ensures var r := FunctionHandler(event, vars, world);
      var url := TemplateThumbnailUrl(world.streams.value.data[0].thumbnailUrl);
      |r.trace| >= 2 && r.trace[1] == HttpGet(url, [], [])
      && !Contains(r.trace[1].url, WidthPlaceholder) && !Contains(r.trace[1].url, HeightPlaceholder)
  {
  }

  /** Records after the first never influence the invocation. */
  lemma FirstRecordWins(event: CloudWatchEvent, vars: Environment, w1: World, w2: World)
    requires HasLiveStream(w1) && HasLiveStream(w2)
    requires w1.streams.value.data[0] == w2.streams.value.data[0]
    requires w1.thumbnail == w2.thumbnail && w1.put == w2.put
    ensures FunctionHandler(event, vars, w1) == FunctionHandler(event, vars, w2)
  {
  }

  /** A failed download is returned as it is, and nothing is written. */
  lemma DownloadFailurePropagates(event: CloudWatchEvent, vars: Environment, world: World)
    requires event.detail.Some? && HasLiveStream(world) && world.thumbnail.Err?
    ensures var r := FunctionHandler(event, vars, world);
      r.outcome == Returned(Err(Http(world.thumbnail.error))) && |r.trace| == 2
  {
  }

  /** After a download the handler puts the bytes into the configured bucket
      under `<login>.jpg`, and its result is the mapped put outcome. */
  lemma PutsDownloadedBytes(event: CloudWatchEvent, vars: Environment, world: World)
    requires event.detail.Some? && HasLiveStream(world) && world.thumbnail.Ok?
    ensures var r := FunctionHandler(event, vars, world);
      var login := event.detail.value.twitchUserLogin;
      |r.trace| == 3
      && r.trace[2] == PutObject(GetEnv(vars).bucketName, StorageKey(login), world.thumbnail.value)
      && r.outcome == Returned(PutResult(world.put))
  {
  }

  /** The S3 error itself never reaches the result: any two put failures
      give the same invocation. */
  lemma PutErrorIsNotReturned(event: CloudWatchEvent, vars: Environment, world: World, e1: S3Error, e2: S3Error)
    ensures FunctionHandler(event, vars, world.(put := Err(e1)))
      == FunctionHandler(event, vars, world.(put := Err(e2)))
  {
  }

  // ---------------------------------------------------------------- scenarios

  function ExampleStream(thumbnailUrl: string): TwitchStream {
    TwitchStream("1", "2", "alice", "Alice", "3", "Game", "live", "Title", [], 0,
      "2024-01-01T00:00:00Z", "en", thumbnailUrl, [], false)
  }

  /** Channel "alice" goes live with one stream: the handler downloads the
      thumbnail at 1280x720, leaving `{user_login}` alone, and stores it as
      "alice.jpg" in the configured bucket. */
  lemma ScenarioOneLiveStream(vars: Environment, bytes: seq<u8>)
    ensures
      var event := CloudWatchEvent(Some(StreamOnline("alice")));
      var streams := TwitchStreams([ExampleStream("https://x/{user_login}-{width}x{height}.jpg")]);
      var r := FunctionHandler(event, vars, World(Ok(streams), Ok(bytes), Ok(())));
      r.outcome == Returned(Ok(()))
      && r.trace[1] == HttpGet("https://x/{user_login}-1280x720.jpg", [], [])
      && r.trace[2] == PutObject(GetEnv(vars).bucketName, "alice.jpg", bytes)
  {
    var event := CloudWatchEvent(Some(StreamOnline("alice")));
    var streams := TwitchStreams([ExampleStream("https://x/{user_login}-{width}x{height}.jpg")]);
    var world := World(Ok(streams), Ok(bytes), Ok(()));
    DownloadsFirstThumbnail(event, vars, world);
    PutsDownloadedBytes(event, vars, world);
    TemplateExample();
    assert StorageKey("alice") == "alice.jpg";
  }

  /** A failed put ends in the fixed upload message after all three
      requests. */
  lemma ScenarioPutFails(vars: Environment, bytes: seq<u8>, e: S3Error)
    ensures
      var event := CloudWatchEvent(Some(StreamOnline("alice")));
      var streams := TwitchStreams([ExampleStream("https://x/{width}x{height}.jpg")]);
      var r := FunctionHandler(event, vars, World(Ok(streams), Ok(bytes), Err(e)));
      r.outcome == Returned(Err(Message(UploadFailedMessage))) && |r.trace| == 3
  {
  }
}
