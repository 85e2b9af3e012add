# YouTube thumbnail downloader: the rules under the page script

This project models the deterministic rules inside the browser script `js/script.js` of the
thumbnail downloader, and proves properties of them in Dafny:

- **Video-id extraction** (`extractVideoId`). Six regular expressions are tried in a fixed
  order, and the first capture found is returned, or `null`. Each expression is a hand-written
  matcher over strings (`VideoId`). The literal host/path text matches ASCII letters in either
  case. The optional `https?://` and `www.` prefix holds no `y`, and every literal starts with
  `y`, so the leftmost match is decided by the leftmost literal position at which the rest of
  the expression matches. The lemma `LeftmostStartHasFirstLiteral` proves this.
  - The capture is the greedy run up to the expression's stop character: `&` for watch and
    user, `?` for the others.
  - The `/user/` expression backtracks over its greedy name segment. The model finds the
    reading with the longest segment, which is also the one with the latest capture start.
  - URLs of all six shapes can be built around an id (`VideoLinks`), and extracting from any of
    them gives that id back.
- **Input check** of `handleGetThumbnail` (`Lookup`). The input is trimmed. Blank input is
  refused with one message, input without a match with another, and otherwise the id is passed
  on.
- **Candidate list** built from an id (`Thumbnails`).
- **File-size estimate** `getEstimatedFileSize` (`FileSize`), in exact tenths of a KB.
- **Download naming**, the direct-or-re-encode choice, the MIME type, and the fallback `.jpg`
  name (`Download`).
- **Quality tabs**: a class over two arrays of flags, with a loop-built constructor and a
  click method that clears and sets (`Tabs`).

`Wrappers` holds `Option` and `Result`. `Text` holds ASCII case folding, the runs a capture
takes, JavaScript `trim`, and decimal printing.

The id captured by the `/embed/`, `/v/`, `youtu.be/` and `/shorts/` expressions is not cut at
`/`; it runs up to `?` or the end. `VideoId.ExtractVideoIdSpec` states exactly that.

## Model

| member | source | states |
|---|---|---|
| VideoId.LastQuery | js/script.js:273 | finds the last position in a range holding `?v=` followed by a character other than `&`, and reports none exactly when there is no such position |
| VideoId.UserSplitSpec | js/script.js:273 | the backtracking over `[^\/]+` finds a reading of the `/user/` expression whenever one exists, and the reading it finds has the longest name segment of all readings |
| VideoId.UserReadingsOrdered | js/script.js:273 | of two `/user/` readings, the one with the longer name segment starts its capture no earlier |
| VideoId.UserLongestIsLatest | js/script.js:273 | the reading with the longest name segment has the latest capture start |
| VideoId.CaptureStart | js/script.js:270-275 | the capture of an expression whose literal sits at `q` starts after `q` and inside the text |
| VideoId.CaptureStartSpec | js/script.js:270-275 | CaptureStart finds a reading at a literal position whenever there is one, and picks the reading with the latest capture start, which is the one the engine settles on |
| VideoId.ReadingHasLiteral | js/script.js:270-275 | any reading needs the host/path literal, matched case-insensitively, and at least one character other than the stop character to capture |
| VideoId.FindHit | js/script.js:280 | returns the leftmost literal position at which the expression matches; no earlier position matches, and none means no position matches |
| VideoId.FirstMatchNone | js/script.js:278-285 | the loop over the expressions returns null exactly when no expression in the list matches |
| VideoId.MatchOfSpec | js/script.js:280-281 | one expression yields nothing exactly when it has no reading; otherwise it yields the capture of its leftmost, greedy reading |
| VideoId.RunIsCaptured | js/script.js:270-275 | the greedy run from a character other than the stop character is exactly what `([^x]+)` captures there: non-empty, free of the stop character, and ended by it or by the end |
| VideoId.FirstMatchIndex | js/script.js:278-283 | names the expression whose capture is returned, and no earlier expression in the list matches |
| VideoId.ExtractVideoIdSpec | js/script.js:267-286 | null exactly when no expression matches anywhere; otherwise the non-empty run of the input, in its original case, after the literal of the first matching expression, ending at its stop character or at the end |
| VideoId.PrefixHasNoY | js/script.js:270-275 | no text the optional `(?:https?:\/\/)?(?:www\.)?` can match holds a `y` in either case |
| VideoId.LiteralStartsWithY | js/script.js:270-275 | each host/path literal starts with `y` |
| VideoId.LeftmostStartHasFirstLiteral | js/script.js:270-275 | the leftmost start of a whole match, optional prefix included, puts the literal at the same position as the leftmost literal-position search |
| VideoId.CaptureStartMatches | js/script.js:270-275 | wherever an expression matches with its literal at a position, the whole expression also matches from there with an empty prefix, and a `y` stands there |
| VideoId.NoYNoMatch | js/script.js:267-286 | a text without `y` in either case yields null |
| VideoLinks.LiteralsDiffer | js/script.js:270-275 | where one expression's literal sits, no other expression's literal matches |
| VideoLinks.RenderLayout | js/script.js:270-275 | a built URL is its prefix, the literal, the part before the id, the id and the trailing parameter, laid end to end |
| VideoLinks.PiecesFree | js/script.js:270-275 | the optional scheme and `www.` hold no `y`, and the part before the id, the id and the trailing parameter hold no `.` |
| VideoLinks.OnlyHeadLiteral | js/script.js:270-275 | a text whose only `y` before the literal's end is the literal's first letter, and which has no `.` after it, holds that one literal only |
| VideoLinks.RenderLiteral | js/script.js:270-275 | a built URL holds the literal of its own shape, after the prefix, and no other literal anywhere |
| VideoLinks.UserSplitBeforeSlash | js/script.js:273 | with the name followed by `/?v=`, backtracking stops at the `/` after the name |
| VideoLinks.UserSplitBeforeQuery | js/script.js:273 | with the name followed by `?v=` and no later `/` or `?`, backtracking gives characters back down to that `?` |
| VideoLinks.UserSplitAfterName | js/script.js:273 | a name without `/` followed by `/?v=`, or by `?v=` with no later `/` or `?`, and then a character other than `&`, makes backtracking end the name segment at the name's end |
| VideoLinks.UserLinkLayout | js/script.js:273 | in a built `/user/` URL the name holds no `/`, it is followed by `/?v=` or `?v=` and a character other than `&`, and without the `/` nothing after `?v=` holds `/` or `?` |
| VideoLinks.UserSplitOfLink | js/script.js:273 | in a built `/user/` URL, with or without the `/` before `?v=`, the name segment ends exactly at the end of the name |
| VideoLinks.CaptureAtHead | js/script.js:270-275 | in a built URL the capture starts on the first character of the id |
| VideoLinks.CaptureOnlyAtLiteral | js/script.js:270-275 | in a text whose only literal is that of one expression at one position, only that expression can match, and only with its literal there |
| VideoLinks.MatchOfNowhere | js/script.js:280-281 | an expression that matches at no literal position yields nothing |
| VideoLinks.IdEnds | js/script.js:270-275 | in a built URL the id stands after the part before it, holds no stop character of its shape, and is followed by that stop character or by the end |
| VideoLinks.LinkSoleMatch | js/script.js:267-286 | a built URL holds exactly one literal, the expression of its shape matches there with its capture on the id, and the capture is exactly the id |
| VideoLinks.MatchOfOnly | js/script.js:280-281 | an expression whose first match starts its capture on `id`, followed by the stop character or the end, yields exactly `id` |
| VideoLinks.ExtractOfOnlyMatch | js/script.js:278-285 | when exactly one expression matches, its capture is returned, wherever it stands in the order |
| VideoLinks.ExtractAtOnlyLiteral | js/script.js:267-286 | a text whose only literal is followed by an id and then the stop character or the end yields that id |
| VideoLinks.RoundTrip | js/script.js:270-275 | for every id over `[A-Za-z0-9_-]`, each of the six shapes, each optional scheme and `www.`, and each trailing `&t=`/`?si=` parameter, extraction returns exactly the id |
| Text.RunEnd | js/script.js:270-275 | the greedy run `[^x]+` ends at the first `x` after its start or at the end |
| Text.RunEndAt | js/script.js:270-275 | a run free of `x` that is followed by `x` or by the end is exactly where RunEnd stops |
| Text.TrimStart | js/script.js:205 | removes exactly the leading white space and leaves a suffix of the input |
| Text.TrimEnd | js/script.js:205 | removes exactly the trailing white space and leaves a prefix of the input |
| Text.TrimIsSlice | js/script.js:205 | the trimmed text is a contiguous piece of the input |
| Text.TrimEmptyIffAllSpace | js/script.js:205-207 | the trimmed value is empty exactly when the input is all white space |
| Text.TrimOfPadded | js/script.js:205 | trimming a text padded with white space on both sides, whose ends are not white space, gives back that text |
| Text.NatToString | js/script.js:575 | a whole number prints as decimal digits with no leading zero |
| Text.ParseNatToString | js/script.js:573-575 | a printed number reads back as the same number |
| Lookup.CheckInput | js/script.js:204-217 | refuses with EmptyInput exactly when the input is all white space, and with InvalidUrl exactly when the trimmed input yields no id; otherwise it passes on the id extracted from the trimmed input |
| Lookup.CheckInputMessages | js/script.js:207-216 | a blank field is refused with "Please enter a YouTube video URL", a non-blank field without a match with "Invalid YouTube URL. Please enter a valid YouTube video URL", and the two messages differ |
| Lookup.RenderSolid | js/script.js:205 | a built URL contains no white space, so trimming leaves it whole |
| Lookup.SolidJoin | js/script.js:205 | five pieces without white space join into a text without white space |
| Lookup.CheckInputAcceptsLinks | js/script.js:204-217 | any well-formed URL of the six shapes, typed with white space around it, is accepted with exactly its id |
| Lookup.CheckInputRefusesWithoutY | js/script.js:212-216 | a non-blank input without `y` in either case is refused as an invalid URL |
| Thumbnails.Candidates | js/script.js:290-296 | there are five entries, in the tier order 450p, 760p, 1080p, 2K, 4K, each with its name and the image URL of its stored file |
| Thumbnails.IdOfImageUrlRoundTrip | js/script.js:291-295 | the id can be read back from every image URL built from it, whatever characters it holds |
| Thumbnails.ImageUrlInjective | js/script.js:291-295 | two different ids never give the same image URL |
| Thumbnails.HighTiersShareOneImage | js/script.js:293-295 | 1080p, 2K and 4K have identical URLs, while 450p, 760p and 1080p point at three different images |
| Thumbnails.CandidatesCarryId | js/script.js:290-296 | every entry's URL carries the id it was built from |
| Thumbnails.TiersDistinct | js/script.js:290-296 | no two entries share a size |
| FileSize.RoundDiv | js/script.js:573-575 | rounds half up: the result is the nearest whole number, and a tie goes up |
| FileSize.Estimate | js/script.js:532-577 | the label is in MB exactly when the estimate reaches 1000 KB; an MB label is the estimate rounded to tenths of a MB; a KB label is the estimate rounded to whole KB, except (450p, webp) |
| FileSize.LabelText | js/script.js:572-576 | a KB label is decimal digits followed by ` KB`; an MB label is digits, a `.`, exactly one digit and then ` MB` |
| FileSize.ParseLabelText | js/script.js:572-576 | every printed label reads back as the size it was printed from |
| FileSize.LabelTextInjective | js/script.js:572-576 | different sizes never print the same label |
| FileSize.FormatsOrdered | js/script.js:557-569 | for every tier, webp is estimated smaller than jpg and png larger |
| FileSize.TiersOrdered | js/script.js:536-554 | in every format, each tier of the table is estimated larger than the one before |
| FileSize.WebpSmallestDiverges | js/script.js:565-575 | (450p, webp) is exactly 31.5 KB, which rounds to 32, but the script prints "31 KB" |
| FileSize.SampleLabels | js/script.js:532-577 | (1080p, png) prints "500 KB", (4K, jpg) "800 KB", (2K, png) "1.0 MB" and (4K, png) "2.0 MB" |
| Download.MimeType | js/script.js:601-611 | png and webp map to `image/<format>`, and every other format maps to `image/jpeg` |
| Download.FileName | js/script.js:518 | a card's file name is the fixed prefix, then the size, then `.` and the format; when the size has no `.`, the first `.` of the name is the one before the format |
| Download.FileNameInjective | js/script.js:518 | for sizes without a `.`, two cards with the same file name have the same size and the same format |
| Download.IndexOf | js/script.js:634 | finds the first occurrence at or after a position, and none means no occurrence |
| Download.IndexOfFirst | js/script.js:634 | an occurrence with none before it is the one `indexOf` returns |
| Download.DownloadRequest | js/script.js:580-638 | jpg is saved directly under its own name; any other format is re-encoded with its MIME type when the image decodes, and otherwise saved directly under the fallback name |
| Download.FallbackKeepsStem | js/script.js:634 | when the tier has no `.`, the fallback name is the card's name with only the extension replaced by `.jpg` |
| Download.PanelCards | js/script.js:449-468 | each tier's panel holds a jpg, a png and a webp card, in that order, each with its estimate and file name |
| Download.CardRequests | js/script.js:580-638 | every card of every tier saves the tier's image: jpg under `... - <tier>.jpg`; png or webp re-encoded as `image/<format>` under `... - <tier>.<format>`; and on a decode failure, under `... - <tier>.jpg` |
| Tabs.PanelIndex | js/script.js:438 | the panel found for a size is the first panel with that size |
| Tabs.PanelOfDistinct | js/script.js:438-446 | with distinct sizes, tab `i` finds panel `i` |
| Tabs.TierPanels | js/script.js:438 | each tab built from the candidate list finds its own panel |
| Tabs.QualityTabs.constructor | js/script.js:422-447 | after building, tab 0 is the only active tab and panel 0 the only panel shown |
| Tabs.QualityTabs.Select | js/script.js:429-439 | a click on tab `i`, from any state, leaves tab `i` the only active tab and the panel found for its size the only panel shown; with distinct sizes, that panel is panel `i` |

## Left out

- The page itself is not modelled: DOM construction and markup, the main preview section, icons
  and their fallback, the loader, error display, the toasts, animations, lazy loading, the FAQ
  accordion and the theme toggle with its storage. None of these decides any value above.
- The loading progress timer (`simulateLoading`) is left out. It is timers and floating-point
  increments, and it only delays the lookup.
- The oEmbed title fetch is network I/O and is left out. When it fails, the page uses the title
  "YouTube Video" (js/script.js:347, 351). The title only reaches markup and image alt text.
- Image decoding and canvas re-encoding are browser calls. Whether the image decodes is a
  parameter of `Download.DownloadRequest`, and the data URL is represented by the source URL
  with the MIME type.
- Download.DownloadRequest: does not model the click, the one-second clean-up timer, or the
  toasts.
- FileSize.Estimate: does not model IEEE double arithmetic in general. Sizes are exact tenths of
  a KB, which is exact for every product in the table except (450p, webp). For that input the
  double `45 * 0.7` lies just below 31.5, and the model writes out the script's "31 KB"
  directly. Its KB bound is stated for every other input.
- The regular-expression engine is not modelled in general; each of the six expressions has its
  own matcher. Case-insensitive matching folds ASCII letters only. JavaScript strings are UTF-16
  code units, and the model works on Dafny characters.
- Text.Trim: uses the ECMAScript white-space and line-terminator set written out as a
  predicate, not a Unicode database.
- Tabs.QualityTabs.Select: models only the tabs and panels of one options section. The script's
  `querySelectorAll` would reach every tab on the page; a second section is not modelled.
