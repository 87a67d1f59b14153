/** The listing pipeline of `src/centres/XMD.centre.ts`: the screenshot
    frame expansion, the thumbnail rewrite, the record-building loop of
    `parseSearch`, the status fallbacks of `search` and `getUrl`, and the
    choice of the resolved URL. HTTP, HTML selection and the vendor player
    script are inputs. */
module XmdCentre {
  import opened Outcome
  import opened JsBuiltins
  import Time

  // ---------------------------------------------------------------- data

  /** The fields `parseSearch` reads from one `.item` node: the texts of
      `strong.title`, `.duration` and `.added`, the `data-original` attribute
      of `img.thumb` and the `href` of the first anchor (attributes may be
      missing). */
  datatype RawItem = RawItem(
    titleText: string,
    durationText: string,
    addedText: string,
    dataOriginal: Option<string>,
    href: Option<string>)

  /** The `IMediaInfo` record `parseSearch` pushes. `url` holds whatever the
      `href` attribute gave, `undefined` included. */
  datatype MediaInfo = MediaInfo(
    url: Option<string>,
    remoteSrc: string,
    thumbnailSrc: seq<string>,
    title: string,
    description: string,
    postedAt: string,
    duration: int)

  /** What the operations throw or reject with. */
  datatype Error =
    | TypeError            // a property read on `undefined`
    | InternalServerError  // the exception `search` and `getUrl` throw from their catch
    | DecryptionFailed     // the player configuration could not be read after the delay
    | ScriptFailed         // the page or the player script threw while being set up

  /** What `axios.get` gave: a response, or a rejection. */
  datatype Response = Response(status: int, body: string) | Rejected

  /** `window.kvsplayer.kt_player.conf` as far as the resolver reads it. */
  datatype PlayerConf = PlayerConf(videoAltUrl: Option<string>, videoUrl: Option<string>)

  /** How running the detail page and the player script in the emulated
      browser ended. */
  datatype PlayerRun = Settled(conf: PlayerConf) | ConfUnreadable | Threw

  // ---------------------------------------------------------------- screenshot frames

  const FrameCount: nat := 6

  /** `url` is `p + "/" + d + ".jpg"` with `d` a non-empty run of digits:
      the texts in which /\/\d+\.jpg$/ matches, `p` being what precedes the match. */
  predicate IsFrameUrl(url: string, p: string, d: string) {
    d != [] && IsDigits(d) && url == p + "/" + d + ".jpg"
  }

  /** The length of the run of digits that ends the text. */
  function TrailingDigits(s: string): (n: nat)
    ensures n <= |s| && IsDigits(s[|s| - n..])
    decreases |s|
  {
    if s != [] && IsDigit(s[|s| - 1]) then
      var n := TrailingDigits(s[..|s| - 1]) + 1;
      assert s[|s| - n..] == s[..|s| - 1][|s| - n..] + [s[|s| - 1]];
      n
    else 0
  }

  lemma {:induction false} TrailingDigitsOf(x: string, d: string)
    requires x == [] || !IsDigit(x[|x| - 1])
    requires IsDigits(d)
    ensures TrailingDigits(x + d) == |d|
    decreases |d|
  {
    if d != [] {
      assert (x + d)[..|x + d| - 1] == x + d[..|d| - 1];
      TrailingDigitsOf(x, d[..|d| - 1]);
    } else {
      assert x + d == x;
    }
  }

  /** Where /\/\d+\.jpg$/ matches: the index of its `/`. */
  function FrameSuffix(url: string): (r: Option<nat>)
    ensures r.Some? ==>
      r.value + 5 < |url| && IsFrameUrl(url, url[..r.value], url[r.value + 1..|url| - 4])
  {
    if |url| < 4 || url[|url| - 4..] != ".jpg" then None
    else
      var body := url[..|url| - 4];
      var n := TrailingDigits(body);
      if n == 0 || n == |body| || body[|body| - n - 1] != '/' then None
      else
        var j := |body| - n - 1;
        assert url == url[..j] + "/" + url[j + 1..|url| - 4] + ".jpg" by {
          assert url == body + url[|url| - 4..];
          assert body == body[..j] + [body[j]] + body[j + 1..];
        }
        assert url[j + 1..|url| - 4] == body[|body| - n..];
        Some(j)
  }

  /** The regular expression matches every text of the frame shape, at the
      final `/`. */
  lemma FrameSuffixComplete(p: string, d: string)
    requires d != [] && IsDigits(d)
    ensures FrameSuffix(p + "/" + d + ".jpg") == Some(|p|)
  {
    var url := p + "/" + d + ".jpg";
    var body := p + "/" + d;
    assert url[..|url| - 4] == body;
    assert url[|url| - 4..] == ".jpg";
    TrailingDigitsOf(p + "/", d);
    assert body[|body| - |d| - 1] == '/';
  }

  /** One frame: a matched suffix replaced by `/k.jpg`, otherwise the text
      unchanged. */
  function ReplaceFrame(url: string, k: nat): string {
    match FrameSuffix(url)
    case None => url
    case Some(j) => url[..j] + "/" + DecimalString(k) + ".jpg"
  }

  /** `getScreenshotSeries`: frames 1 to 6 of a thumbnail. */
  function ScreenshotSeries(url: string): (frames: seq<string>)
    ensures |frames| == FrameCount
  {
    seq(FrameCount, i requires 0 <= i < FrameCount => ReplaceFrame(url, i + 1))
  }

  /** On a frame URL, entry `i` keeps everything up to the final `/` and
      names frame `i + 1`. */
  lemma ScreenshotSeriesOfFrame(p: string, d: string, i: nat)
    requires d != [] && IsDigits(d)
    requires i < FrameCount
    ensures ScreenshotSeries(p + "/" + d + ".jpg")[i] == p + "/" + [DigitChar(i + 1)] + ".jpg"
  {
    var url := p + "/" + d + ".jpg";
    FrameSuffixComplete(p, d);
    assert url[..|p|] == p;
  }

  /** Off the frame shape, every entry is the URL itself. */
  lemma ScreenshotSeriesUnmatched(url: string)
    requires forall p, d :: !IsFrameUrl(url, p, d)
    ensures forall i :: 0 <= i < FrameCount ==> ScreenshotSeries(url)[i] == url
  {
    assert FrameSuffix(url).None?;
  }

  // ---------------------------------------------------------------- thumbnail rewrite

  const ScreenshotsDir := "videos_screenshots"
  const SourcesDir := "videos_sources"
  const SmallSize := "320x180"
  const ScreenshotsName := "screenshots"

  /** The optional-chained rewrite of `data-original`: the first
      `videos_screenshots` becomes `videos_sources`, then the first `320x180`
      becomes `screenshots`; a missing attribute stays `undefined`. */
  function RewriteThumbnail(dataOriginal: Option<string>): (r: Option<string>)
    ensures r.Some? <==> dataOriginal.Some?
  {
    match dataOriginal
    case None => None
    case Some(s) => Some(ReplaceFirst(ReplaceFirst(s, ScreenshotsDir, SourcesDir), SmallSize, ScreenshotsName))
  }

  /** A thumbnail containing neither pattern is kept as it is. */
  lemma RewriteUntouched(s: string)
    requires forall j: nat :: !OccursAt(s, ScreenshotsDir, j)
    requires forall j: nat :: !OccursAt(s, SmallSize, j)
    ensures RewriteThumbnail(Some(s)) == Some(s)
  {
  }

  /** Each pattern is replaced at its first occurrence, the rest kept in
      order. */
  lemma RewriteFirstOccurrences(a: string, b: string, c: string)
    requires forall j: nat :: j < |a| ==> !OccursAt(a + ScreenshotsDir + (b + SmallSize + c), ScreenshotsDir, j)
    requires forall j: nat :: j < |a + SourcesDir + b| ==> !OccursAt(a + SourcesDir + b + SmallSize + c, SmallSize, j)
    ensures RewriteThumbnail(Some(a + ScreenshotsDir + b + SmallSize + c))
         == Some(a + SourcesDir + b + ScreenshotsName + c)
  {
    var s := a + ScreenshotsDir + b + SmallSize + c;
    assert s == a + ScreenshotsDir + (b + SmallSize + c);
    ReplaceFirstAt(a, ScreenshotsDir, b + SmallSize + c, SourcesDir);
    var s1 := a + SourcesDir + (b + SmallSize + c);
    assert s1 == (a + SourcesDir + b) + SmallSize + c;
    ReplaceFirstAt(a + SourcesDir + b, SmallSize, c, ScreenshotsName);
  }

  /** With only the directory pattern present, only it is replaced. */
  lemma RewriteDirectoryOnly(a: string, b: string)
    requires forall j: nat :: j < |a| ==> !OccursAt(a + ScreenshotsDir + b, ScreenshotsDir, j)
    requires forall j: nat :: !OccursAt(a + SourcesDir + b, SmallSize, j)
    ensures RewriteThumbnail(Some(a + ScreenshotsDir + b)) == Some(a + SourcesDir + b)
  {
    ReplaceFirstAt(a, ScreenshotsDir, b, SourcesDir);
  }

  /** With only the size pattern present, only it is replaced. */
  lemma RewriteSizeOnly(a: string, b: string)
    requires forall j: nat :: !OccursAt(a + SmallSize + b, ScreenshotsDir, j)
    requires forall j: nat :: j < |a| ==> !OccursAt(a + SmallSize + b, SmallSize, j)
    ensures RewriteThumbnail(Some(a + SmallSize + b)) == Some(a + ScreenshotsName + b)
  {
    ReplaceFirstAt(a, SmallSize, b, ScreenshotsName);
  }

  // ---------------------------------------------------------------- parseSearch

  predicate HasThumbnail(item: RawItem) {
    item.dataOriginal.Some?
  }

  predicate AllHaveThumbnail(items: seq<RawItem>) {
    forall i :: 0 <= i < |items| ==> HasThumbnail(items[i])
  }

  /** The record `parseSearch` builds from one item with a thumbnail. */
  predicate IsHitOf(m: MediaInfo, item: RawItem) {
    && HasThumbnail(item)
    && m.title == Trim(item.titleText)
    && m.duration == Time.Milliseconds(Trim(item.durationText))
    && m.postedAt == Trim(item.addedText)
    && m.thumbnailSrc == ScreenshotSeries(RewriteThumbnail(item.dataOriginal).value)
    && m.url == item.href
    && m.remoteSrc == []
    && m.description == []
  }

  /** One record per item, in the items' order. */
  predicate IsListingOf(hits: seq<MediaInfo>, items: seq<RawItem>) {
    |hits| == |items| && forall i :: 0 <= i < |items| ==> IsHitOf(hits[i], items[i])
  }

  /** `parseSearch` over the selected items: the `.each` loop pushing one
      record per item. An item without `data-original` makes
      `getScreenshotSeries` call `replace` on `undefined`, which throws and
      ends the whole parse. */
  method ParseSearch(items: seq<RawItem>) returns (r: Result<seq<MediaInfo>, Error>)
    ensures r.Success? <==> AllHaveThumbnail(items)
    ensures r.Success? ==> IsListingOf(r.value, items)
    ensures r.Failure? ==> r.error == TypeError
  {
    var hits: seq<MediaInfo> := [];
    var index := 0;
    while index < |items|
      invariant 0 <= index <= |items|
      invariant AllHaveThumbnail(items[..index])
      invariant IsListingOf(hits, items[..index])
    {
      var item := items[index];
      var title := Trim(item.titleText);
      var durationText := Trim(item.durationText);
      var postedAt := Trim(item.addedText);
      var thumbnail := RewriteThumbnail(item.dataOriginal);
      var duration := Time.TimeToMs(durationText);
      if thumbnail.None? {
        return Failure(TypeError);
      }
      hits := hits + [MediaInfo(item.href, "", ScreenshotSeries(thumbnail.value), title, "", postedAt, duration)];
      index := index + 1;
      assert items[..index] == items[..index - 1] + [item];
    }
    assert items[..index] == items;
    return Success(hits);
  }

  /** The listing is determined by the items. */
  lemma ListingUnique(a: seq<MediaInfo>, b: seq<MediaInfo>, items: seq<RawItem>)
    requires IsListingOf(a, items) && IsListingOf(b, items)
    ensures a == b
  {
    forall i | 0 <= i < |items| ensures a[i] == b[i] {
      assert IsHitOf(a[i], items[i]) && IsHitOf(b[i], items[i]);
    }
  }

  /** Records do not depend on their neighbours: listings of two runs of
      items concatenate, with nothing dropped, merged or reordered. */
  lemma ListingConcat(a: seq<MediaInfo>, x: seq<RawItem>, b: seq<MediaInfo>, y: seq<RawItem>)
    requires IsListingOf(a, x) && IsListingOf(b, y)
    ensures IsListingOf(a + b, x + y)
  {
    forall i | 0 <= i < |x + y| ensures IsHitOf((a + b)[i], (x + y)[i]) {
      if i < |x| {
        assert (a + b)[i] == a[i] && (x + y)[i] == x[i];
      } else {
        assert (a + b)[i] == b[i - |x|] && (x + y)[i] == y[i - |x|];
      }
    }
  }

  // ---------------------------------------------------------------- search

  /** `search`: a 200 response is parsed (the HTML selection being `select`),
      any other status gives the empty list, and whatever is thrown on the
      way, a rejection or the parse's TypeError, is caught and rethrown as an
      internal server error. */
  method Search(response: Response, select: string -> seq<RawItem>) returns (r: Result<seq<MediaInfo>, Error>)
    ensures response.Rejected? ==> r == Failure(InternalServerError)
    ensures response.Response? && response.status != 200 ==> r == Success([])
    ensures response.Response? && response.status == 200 ==>
      var items := select(response.body);
      && (r.Success? <==> AllHaveThumbnail(items))
      && (r.Success? ==> IsListingOf(r.value, items))
      && (r.Failure? ==> r.error == InternalServerError)
  {
    match response
    case Rejected =>
      return Failure(InternalServerError);
    case Response(status, body) =>
      if status == 200 {
        var parsed := ParseSearch(select(body));
        if parsed.Failure? {
          return Failure(InternalServerError);
        }
        return parsed;
      } else {
        return Success([]);
      }
  }

  // ---------------------------------------------------------------- getUrl

  /** JavaScript truthiness of a possibly undefined string. */
  predicate Truthy(v: Option<string>) {
    v.Some? && v.value != []
  }

  /** `conf.video_alt_url || conf.video_url`. */
  function ResolvedUrl(conf: PlayerConf): (r: Option<string>)
    ensures Truthy(conf.videoAltUrl) ==> r == conf.videoAltUrl
    ensures !Truthy(conf.videoAltUrl) ==> r == conf.videoUrl
    ensures Truthy(r) <==> Truthy(conf.videoAltUrl) || Truthy(conf.videoUrl)
  {
    if Truthy(conf.videoAltUrl) then conf.videoAltUrl else conf.videoUrl
  }

  /** The promise `parseAndGetMedia` settles with, given how the run ended. */
  function ParseAndGetMedia(run: PlayerRun): (r: Result<Option<string>, Error>)
    ensures r.Success? <==> run.Settled?
    ensures run.Settled? ==> r.value == ResolvedUrl(run.conf)
    ensures run.ConfUnreadable? ==> r.error == DecryptionFailed
    ensures run.Threw? ==> r.error == ScriptFailed
  {
    match run
    case Settled(conf) => Success(ResolvedUrl(conf))
    case ConfUnreadable => Failure(DecryptionFailed)
    case Threw => Failure(ScriptFailed)
  }

  /** `getUrl`: a 200 response goes to the player (`play` runs the page),
      any other status gives the empty string, a rejected request becomes an
      internal server error. The player's promise is returned without
      `await`, so its rejections pass the catch unchanged. */
  function GetUrl(response: Response, play: string -> PlayerRun): (r: Result<Option<string>, Error>)
    ensures response.Rejected? ==> r == Failure(InternalServerError)
    ensures response.Response? && response.status != 200 ==> r == Success(Some(""))
    ensures response.Response? && response.status == 200 ==> r == ParseAndGetMedia(play(response.body))
  {
    match response
    case Rejected => Failure(InternalServerError)
    case Response(status, body) =>
      if status == 200 then ParseAndGetMedia(play(body)) else Success(Some(""))
  }

  /** Only a failed request is reported as an internal server error; when
      both URLs are set, the alternate one is returned. */
  lemma GetUrlOutcomes(response: Response, play: string -> PlayerRun)
    ensures GetUrl(response, play) == Failure(InternalServerError) <==> response.Rejected?
    ensures
      (response.Response? && response.status == 200 && play(response.body).Settled?
       && Truthy(play(response.body).conf.videoAltUrl)) ==>
      GetUrl(response, play) == Success(play(response.body).conf.videoAltUrl)
  {
  }
}
