# Media listing pipeline of the XMD centre, in Dafny

This project models the part of the backend that has logic of its own and
proves properties of it:

- the duration codec `timeToMs` (`src/core/helpers/time.ts`), which turns a
  clock text such as `1:02:03` into milliseconds: split on `:`, reverse,
  weigh the first three parts by 1000, 60000 and 3600000, skip NaN parts and
  parts with no multiplier, sum in an accumulator loop;
- the listing side of `XMDCentre` (`src/centres/XMD.centre.ts`): the
  expansion of one thumbnail into six screenshot frames
  (`getScreenshotSeries`), the two literal rewrites of the `data-original`
  attribute, the `.each` loop of `parseSearch` that pushes one `IMediaInfo`
  per result item, the status fallbacks of `search` and `getUrl`, and the
  choice `video_alt_url || video_url`.

Files:

- `outcome.dfy` — `Option` (a value or `undefined`) and `Result` (a value or
  a thrown error).
- `js_builtins.dfy` — the JavaScript built-ins these functions rely on,
  written out: `trim` with the ECMAScript white-space set, `split` on one
  character with its `join` partner, `reverse`, `indexOf` and `replace` with
  a string pattern (first occurrence), `parseInt(s, 10)` (leading white
  space, optional sign, leading digit run, NaN when there is none) and the
  decimal text of a non-negative integer.
- `time.dfy` — `Milliseconds`, the value `timeToMs` computes, as a function
  over the reversed parts, and `TimeToMs` with `SumParts`, its `forEach`
  accumulator loop, proved to compute it; lemmas for each examined behaviour.
- `xmd_centre.dfy` — the frame regular expression `/\/\d+\.jpg$/` as a
  function with an independent description of the texts it matches, the
  thumbnail rewrite, `ParseSearch` as a loop appending to a sequence,
  `Search`, `GetUrl` and `ResolvedUrl`.

Inputs the model takes instead of doing I/O: the outcome of `axios.get` is a
`Response(status, body)` or `Rejected`; the HTML selection that cheerio does
in `parseSearch` is a function `select` from the body to the sequence of raw
item fields (`RawItem`); running the detail page and the vendor player in
JSDOM is a function `play` from the body to how that run ended (`PlayerRun`).

Behaviour of the code worth knowing:

- An item without `data-original` is not dropped: the optional chain leaves
  the thumbnail `undefined`, `getScreenshotSeries` then calls `replace` on
  it and throws a TypeError, which ends `parseSearch`; `search` catches it
  and throws an internal server error for the whole page. An item without
  `href` is kept, with an `undefined` URL.
- A thumbnail that does not end in `/<digits>.jpg` is not dropped: all six
  frames are the thumbnail itself.
- There is no validation of the keyword, the page or the URL, and no error
  taxonomy beyond the exceptions listed in `Error`.
- There is no hard timeout, only the fixed 100 ms delay before the player's
  configuration is read, and that part is not modelled.
- `getUrl` returns the player's promise without `await`, so a failure of the
  player is not caught by its `try`: it reaches the caller as the player's own
  error, and only a failed request becomes an internal server error.
- The resolved URL may be `undefined` or empty: `||` falls back to
  `video_url` whatever it holds.
- A duration can be negative: `"-5"` gives -5000.

## Model

| member | source | states |
|---|---|---|
| `JsBuiltins.LeadingSpaces` | src/centres/XMD.centre.ts:67-69 | the count covers exactly the white space at the start: every counted character is white space and the next one is not |
| `JsBuiltins.TrailingSpaces` | src/centres/XMD.centre.ts:67-69 | the count covers exactly the white space at the end: every counted character is white space and the one before them is not |
| `JsBuiltins.Trim` | src/centres/XMD.centre.ts:67-69 | the trimmed text neither starts nor ends with white space |
| `JsBuiltins.TrimPadded` | src/centres/XMD.centre.ts:67-69 | trimming white space, text, white space gives exactly the text |
| `JsBuiltins.TrimIdempotent` | src/centres/XMD.centre.ts:67-69 | trimming a trimmed text changes nothing |
| `JsBuiltins.Split` | src/core/helpers/time.ts:4 | split gives at least one piece, and joining the pieces with the separator gives the text back |
| `JsBuiltins.SplitSeparatorFree` | src/core/helpers/time.ts:4 | no piece of a split holds the separator |
| `JsBuiltins.SplitJoin` | src/core/helpers/time.ts:4 | splitting the join of separator-free pieces gives those pieces back |
| `JsBuiltins.SplitConcat` | src/core/helpers/time.ts:4 | a separator between two texts splits into the pieces of the left text followed by those of the right |
| `JsBuiltins.Reverse` | src/core/helpers/time.ts:4 | the reversed parts have the same length and position `i` holds the part `i` places from the end |
| `JsBuiltins.IndexOf` | src/centres/XMD.centre.ts:72-73 | the position found is an occurrence with no occurrence before it; none is found exactly when the pattern does not occur |
| `JsBuiltins.ReplaceFirst` | src/centres/XMD.centre.ts:72-73 | a text in which the pattern does not occur is returned unchanged |
| `JsBuiltins.ReplaceFirstAt` | src/centres/XMD.centre.ts:72-73 | only the first occurrence is replaced; the text before and after it is kept |
| `JsBuiltins.DecimalString` | src/centres/XMD.centre.ts:62 | the decimal text of `n` is a non-empty digit string whose value is `n`: one digit below 10, no leading zero from 10 on |
| `JsBuiltins.ParseInt` | src/core/helpers/time.ts:15 | `parseInt(s, 10)`: skip white space, then `ParseSigned`; no contract of its own, pinned down by the `ParseInt…` lemmas below |
| `JsBuiltins.ParseSigned` | src/core/helpers/time.ts:15 | an optional `-` or `+`, then the leading digit run, NaN when the run is empty; pinned down by `ParseSignedDigits`, `ParseSignedSigned` and the `ParseInt…` lemmas |
| `JsBuiltins.ParseSignedDigits` | src/core/helpers/time.ts:15 | unsigned text starting with a digit run reads as that run's value |
| `JsBuiltins.ParseSignedSigned` | src/core/helpers/time.ts:15 | a `-` before a digit run negates its value, a `+` keeps it |
| `JsBuiltins.ParseIntDigits` | src/core/helpers/time.ts:15 | `parseInt` reads a digit run up to the first non-digit (`"05"` and `"5s"` are 5) |
| `JsBuiltins.ParseIntNegative` | src/core/helpers/time.ts:15 | a leading minus negates the digit run |
| `JsBuiltins.ParseIntPositive` | src/core/helpers/time.ts:15 | a leading plus is skipped and the digit run read as is |
| `JsBuiltins.ParseIntSkipsSpace` | src/core/helpers/time.ts:15 | leading white space does not change what `parseInt` reads |
| `JsBuiltins.ParseIntNoDigit` | src/core/helpers/time.ts:15-16 | a text without digits is NaN |
| `JsBuiltins.ParseIntNoLeadingDigit` | src/core/helpers/time.ts:15-16 | NaN whenever the character after the white space and an optional sign is not a digit (`"x5"`, `"-x"`, `"+"`, `"--5"`) |
| `JsBuiltins.ParseIntNonNegative` | src/core/helpers/time.ts:15 | a text without a minus sign never reads as a negative number |
| `JsBuiltins.ParseIntDecimal` | src/core/helpers/time.ts:15 | `parseInt` reads back the decimal text of every non-negative integer |
| `Time.Milliseconds` | src/core/helpers/time.ts:2-21 | the value `timeToMs` computes: 0 for the empty text, otherwise `ContributionSum` over all reversed parts; no contract of its own, pinned down by `TimeToMs` and the lemmas below |
| `Time.Contribution` | src/core/helpers/time.ts:15-17 | the `forEach` callback's addition for one part: the parsed value times the multiplier, 0 for NaN or a missing multiplier; pinned down by `DigitsContribution`, `NaNContribution` and `ContributionNonNegative` |
| `Time.ContributionSum` | src/core/helpers/time.ts:14-19 | the running total after the first `k` parts; pinned down by `SumParts`, `ContributionSumCapped` and `ContributionSumPrefix` |
| `Time.ContributionSumPrefix` | src/core/helpers/time.ts:14-19 | the running total after `k` parts depends only on those `k` parts |
| `Time.ContributionNonNegative` | src/core/helpers/time.ts:15-17 | a part without a minus sign never adds a negative amount |
| `Time.TimeToMs` | src/core/helpers/time.ts:1-22 | returns `Milliseconds(timeStr)`: 0 for the empty text, otherwise the sum of the contributions of all reversed parts |
| `Time.SumParts` | src/core/helpers/time.ts:14-19 | the `forEach` accumulator over the reversed parts returns the sum of the contributions of all of them |
| `Time.ContributionSumCapped` | src/core/helpers/time.ts:16 | parts at reversed index 3 or more add nothing to the sum |
| `Time.MillisecondsCapped` | src/core/helpers/time.ts:8-19 | the result is the sum of the contributions of the first min(3, n) reversed parts |
| `Time.Seconds` | src/core/helpers/time.ts:4-19 | a text without `:` is one part weighted as seconds |
| `Time.MinutesSeconds` | src/core/helpers/time.ts:4-19 | in `m:s` the left part counts as minutes and the right one as seconds |
| `Time.HoursMinutesSeconds` | src/core/helpers/time.ts:4-19 | in `h:m:s` the parts count as hours, minutes and seconds |
| `Time.HighPartsIgnored` | src/core/helpers/time.ts:8-16 | anything before three trailing parts leaves the result unchanged |
| `Time.DigitsContribution` | src/core/helpers/time.ts:15-17 | a digit part at index 0, 1 or 2 adds its value times 1000, 60000 or 3600000 |
| `Time.NaNContribution` | src/core/helpers/time.ts:15-16 | a part that `parseInt` reads as NaN adds nothing |
| `Time.NonNegative` | src/core/helpers/time.ts:14-21 | a text without a minus sign, in particular one of digits and colons, gives a non-negative duration |
| `Time.ExampleSeconds` | src/core/helpers/time.ts:2-19 | `""` is 0 and `"5"`, `"05"`, `"5s"` are 5000 |
| `Time.ExampleMinutesSeconds` | src/core/helpers/time.ts:4-19 | `"2:03"` is 123000 |
| `Time.ExampleHoursMinutesSeconds` | src/core/helpers/time.ts:4-19 | `"1:02:03"` is 3723000 |
| `Time.ExampleHighPartIgnored` | src/core/helpers/time.ts:8-19 | `"9:1:02:03"` is 3723000 |
| `Time.ExampleNaNPart` | src/core/helpers/time.ts:14-19 | `"x:5"` is 5000 |
| `Time.ExampleLeadingNaN` | src/core/helpers/time.ts:14-19 | `"x5:10"` is 10000: a part starting with a non-digit is NaN even with digits after it |
| `XmdCentre.FrameSuffix` | src/centres/XMD.centre.ts:62 | where the frame pattern matches, the text is the part before the match, `/`, a non-empty digit run and `.jpg` |
| `XmdCentre.FrameSuffixComplete` | src/centres/XMD.centre.ts:62 | every text of that shape is matched, at its final `/` |
| `XmdCentre.ReplaceFrame` | src/centres/XMD.centre.ts:62 | the `replace` of `/\/\d+\.jpg$/` by `/<k>.jpg`: the matched `/<digits>.jpg` becomes `/<k>.jpg`, an unmatched URL is returned as it is; pinned down by `ScreenshotSeriesOfFrame` and `ScreenshotSeriesUnmatched` |
| `XmdCentre.ScreenshotSeries` | src/centres/XMD.centre.ts:61-62 | the series always has 6 entries |
| `XmdCentre.ScreenshotSeriesOfFrame` | src/centres/XMD.centre.ts:62 | for `p/<digits>.jpg`, entry `i` is `p/<i+1>.jpg`, everything before the final `/` kept |
| `XmdCentre.ScreenshotSeriesUnmatched` | src/centres/XMD.centre.ts:62 | a URL not ending in `/<digits>.jpg` fills all 6 entries unchanged |
| `XmdCentre.RewriteThumbnail` | src/centres/XMD.centre.ts:70-73 | the rewrite yields a thumbnail exactly when `data-original` is present |
| `XmdCentre.RewriteUntouched` | src/centres/XMD.centre.ts:70-73 | a thumbnail containing neither pattern is kept as it is |
| `XmdCentre.RewriteFirstOccurrences` | src/centres/XMD.centre.ts:70-73 | when `videos_screenshots` occurs and, after its first occurrence is replaced, `320x180` first occurs later in the text: the first `videos_screenshots` becomes `videos_sources`, then the first `320x180` becomes `screenshots`, the rest kept in order |
| `XmdCentre.RewriteDirectoryOnly` | src/centres/XMD.centre.ts:70-73 | with `videos_screenshots` present and no `320x180` after its rewrite, only the first `videos_screenshots` is replaced |
| `XmdCentre.RewriteSizeOnly` | src/centres/XMD.centre.ts:70-73 | with no `videos_screenshots`, only the first `320x180` is replaced |
| `XmdCentre.IsHitOf` | src/centres/XMD.centre.ts:67-84 | the record pushed for one item: trimmed title and posted-at texts, `timeToMs` of the trimmed duration text, the six frames of the rewritten thumbnail, the href as URL, empty `remoteSrc` and `description`; a predicate, used by `ParseSearch`'s contract |
| `XmdCentre.ParseSearch` | src/centres/XMD.centre.ts:58-88 | with every thumbnail present, one record per item in item order, with trimmed title and posted-at texts, the duration of the trimmed duration text, the six frames of the rewritten thumbnail, the href as URL and empty `remoteSrc` and `description`; a missing thumbnail fails with a TypeError |
| `XmdCentre.ListingUnique` | src/centres/XMD.centre.ts:64-87 | the items determine the listing |
| `XmdCentre.ListingConcat` | src/centres/XMD.centre.ts:64-87 | listings of consecutive runs of items concatenate: no filtering, merging or reordering |
| `XmdCentre.Search` | src/centres/XMD.centre.ts:19-41 | status 200 gives the parsed listing, another status the empty list, a failed request or parse an internal server error |
| `XmdCentre.ResolvedUrl` | src/centres/XMD.centre.ts:116 | the alternate URL when it is a non-empty string, otherwise the primary one; the result is non-empty exactly when one of the two is |
| `XmdCentre.ParseAndGetMedia` | src/centres/XMD.centre.ts:114-125 | a settled run yields the resolved URL; an unreadable configuration rejects with the decryption error, a throwing script with its own error |
| `XmdCentre.GetUrl` | src/centres/XMD.centre.ts:43-56 | status 200 gives the player's outcome, another status the empty string, a failed request an internal server error |
| `XmdCentre.GetUrlOutcomes` | src/centres/XMD.centre.ts:43-56 | only a failed request is an internal server error; a settled run with both URLs returns the alternate one |

## Left out

- HTTP: the `axios.get` and `axios.head` calls are replaced by their
  outcome (`Response` or `Rejected`). The search URL and query object built
  from the keyword and page are part of the request and are not modelled.
  Axios rejects statuses outside 200-299 by default, so the non-200
  fallbacks are reached only for other 2xx statuses; the model does not
  restrict the status.
- HTML selection: cheerio's loading and CSS selection are the `select`
  parameter; the raw texts and attributes it yields are inputs.
- The player resolver inside `parseAndGetMedia` (JSDOM with scripts
  enabled, reading `kt_player.js` from disk, the `requestAnimationFrame`
  stub, the 100 ms timer) is foreign script execution and timer
  concurrency; only how it ends (`PlayerRun`) and the field choice at line
  116 are modelled.
- The `onInit`/`check` health probe and all `Console` logging are I/O.
- The other files (the encryption helper, the storage and CMS checks, the
  stub controller and media service, the bootstrap and module files, the
  interface declarations) hold no logic of the listing pipeline; the
  optional `IMedia` fields are not set by `parseSearch` and are not part of
  `MediaInfo`.
- Time.TimeToMs: numbers are exact integers; IEEE double rounding, a digit
  run long enough to read as `Infinity`, and the sign of `-0` are not
  modelled.
- Strings are sequences of Unicode scalar values, not UTF-16 code units;
  for the ASCII patterns and the code points involved the two agree.
- XmdCentre.ResolvedUrl: the two configuration fields are modelled as
  strings or `undefined`; other JavaScript values in them are not.
