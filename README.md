# archive95 viewer and search, modelled in Dafny

archive95 shows web pages saved in 1995 by two books: *World Wide Web
Directory* (Jamsa Press) and *Einblicke ins Internet* (Carl Hanser). There
are three scripts. This project models the string rewriting and index
lookups at their core:

- `viewer/viewer.js` is the newer viewer. It looks up an entry in a list of
  sources, repairs the page's markup before parsing it, closes `<dt>`/`<dd>`
  items and collapses duplicate Einblicke `alt` attributes. It unpacks X
  bitmaps, recolours the body, and points images and links into the
  archive, at the viewer or at the Wayback Machine.
- `viewer.js` is the older viewer. It runs on two plain lists (Jamsa and
  Einblicke) and has its own comment rule in the markup repair. Its link
  lookup tries the page's own list first. It also removes unneeded
  elements.
- `index.js` is the search page. It scans both lists for a query, sorts the
  hits, merges neighbours that share a URL and builds escaped viewer links.

How the modules are laid out:

- **Shared primitives.**
  - `Wrappers` holds `Option`, `Completion` and `findIndex`. `Completion.Throw` is an exception nothing catches.
  - `JsString` holds the JavaScript string methods the scripts use. `substring` clamps and swaps its arguments, `indexOf` returns -1 on a miss and `toLowerCase` folds only the ASCII and Latin-1 capitals.
  - `UriDecode` is `decodeURIComponent`: the Decode operation of section 19.2.6.5 of ECMA-262 with UTF-8 checks.
  - `UrlCompare` is `compareURLs`.
- **Markup repair.**
  - `Insertions` defines "only inserts characters".
  - `Rounds` holds the iteration of a loop that may not stop.
  - `RepairLoop` is the cursor loop both viewers share.
  - `MarkupRepair` holds the newer rule and `LegacyRepair` the older one.
- **Other page passes.** `ListClosers` is the dt/dd pass, `AltCollapse` the Einblicke `alt` collapse and `TagCleanup` the older viewer's element removal.
- **XBM.** `Xbm` is the `parseXBM` unpacking loop, which writes into an `array` buffer.
- **Lookups and rewrites.**
  - `ArchiveIndex` covers the index, the entry lookup and the archive paths.
  - `PageRewrite` covers the newer viewer's body colours, images and links. Each element is a class whose attribute map the methods update.
  - `LegacyViewer` does the same for the older viewer.
- **Search.** `Search` is `index.js`.

Nothing outside the scripts is modelled. The browser and the network appear
as parameters:

- `new URL(ref, base).href` is a partial function that returns None where the constructor throws.
- The `href`/`src` property getters and `location.origin` are parameters too.
- The `DOMParser` title unescape is an opaque function.
- `parseXBM(url)`, as the image loop awaits it, is a partial function.
- The JSON lists are inputs.

Where the code and its written specification disagree, the model follows the
code:

- A URL that does not decode makes `compareURLs` throw. It does not fall back to the raw URL.
- The markup repair is not idempotent.
- X bitmaps are drawn least significant bit first. A width that is a multiple of 8 draws nothing.
- The search never scans Jamsa entry 0, nor any Jamsa entry at or past the length of the Einblicke list. Merging compares the rows' lower-cased URLs as stored (a Jamsa row's as listed, an Einblicke row's decoded), without the normalisation of `compareURLs`. So `http://x.com/` and `http://x.com` (a trailing `/`, or a `www.`) are never merged, and neither is a percent-encoded Jamsa URL with its Einblicke twin, while a Jamsa `~x` is merged with an Einblicke `%7Ex` beside it.
- `createImageData` throws on a zero dimension.
- `String(null)` is `"null"`: a missing `url` or `src` is used as that text.

The model states the two repair loops and the link loop as the code is
evidently meant to work (see "## Findings"). Beside each, a member states
the loop as written and a lemma shows where the two part. For the repair
loops, further lemmas show that the two agree wherever the loop as written
stops. Every round that misplaces its patch enters a family of states that
the loop as written never leaves. For the newer loop that family is
`MarkupRepair.Stuck`. For the older loop it is `LegacyRepair.LegacyLoops`,
which is wider than `LegacyRepair.LegacyStuck`, where the cursor stays on a
`<!--` (`<<!--` also loops).

## Model

| member | source | states |
|---|---|---|
| Wrappers.FindIndex | viewer/viewer.js:95 | `findIndex` with a test that may throw: a hit is the first index whose test is true, an abort is the first test that throws, and a miss means every test is false |
| Wrappers.FirstIndex | viewer.js:238 | `findIndex` with a total test: the first index that passes, or none when no element passes |
| JsString.Clamp | viewer/viewer.js:214 | a position argument is clamped into `[0, length]` and is unchanged when already inside |
| JsString.IndexOf | viewer/viewer.js:210-213 | `indexOf` returns the first match at or after the clamped start, or -1 exactly when there is none |
| JsString.LastIndexOf | viewer/viewer.js:221 | `lastIndexOf` returns a match with no later match, or -1 |
| JsString.IncludesMeansOccurs | viewer/viewer.js:217 | `includes` holds exactly when the pattern occurs somewhere |
| JsString.Lower | viewer/viewer.js:12 | `toLowerCase` maps each character on its own: `A`–`Z` and `À`–`Þ` (not `×`) to their lower-case forms, every other character to itself |
| JsString.SubstringSlices | viewer/viewer.js:214-218 | with arguments inside the string, `substring` is plain slicing |
| JsString.Decimal | viewer/viewer.js:157 | `'' + n` is a non-empty string of decimal digits |
| JsString.DecimalRoundTrip | viewer/viewer.js:157 | reading back the digits of `'' + n` gives `n` |
| UriDecode.EscapedByte | viewer/viewer.js:11 | a `%XY` escape denotes a byte below 256 and lies inside the string |
| UriDecode.DecodeEscape | viewer/viewer.js:11 | a decoded escape sequence uses at least 3 and at most all of the remaining characters |
| UriDecode.DecodeComponent | viewer/viewer.js:11 | `decodeURIComponent` never lengthens its input and returns a string without `%` unchanged |
| UriDecode.PlainHead | viewer/viewer.js:11 | a first character other than `%` is kept ahead of the decoded rest, and a failure of the rest is a failure |
| UriDecode.DecodePlainPrefix | viewer/viewer.js:11 | a prefix without `%` is kept ahead of the decoded rest, and a failure of the rest is a failure |
| UriDecode.TildeEscape | index.js:55 | `%7E` decodes to `~` ahead of the decoded rest |
| UriDecode.DecodeTildePath | index.js:55 | a URL whose only escape is `%7E` decodes to the same URL with `~` |
| UrlCompare.StripScheme | viewer/viewer.js:12 | a string that does not start with `http://` (ignoring case) is left as it is |
| UrlCompare.StripTrailingSlash | viewer/viewer.js:12 | exactly one trailing `/` is dropped, and a string without one is unchanged |
| UrlCompare.Key | viewer/viewer.js:10-12 | the comparison key exists exactly when the URL decodes |
| UrlCompare.CompareUsesFirstTwo | viewer/viewer.js:7-8 | arguments after the second never matter |
| UrlCompare.SameURLMeaning | viewer/viewer.js:10-14 | the comparison throws exactly when one URL does not decode, and is true exactly when both keys exist and agree |
| UrlCompare.SameURLSymmetric | viewer/viewer.js:14 | the comparison is symmetric, exceptions included |
| UrlCompare.SameURLReflexive | viewer/viewer.js:14 | a URL equals itself when it decodes, and throws otherwise |
| UrlCompare.SameURLTransitive | viewer/viewer.js:14 | URLs that compare equal in a chain compare equal end to end |
| UrlCompare.DecodeIgnoresCase | viewer/viewer.js:11-12 | lower-casing before decoding changes neither whether the URL decodes nor the lower-cased result |
| UrlCompare.CompareIgnoresCase | viewer/viewer.js:12 | two URLs that differ only in the case of ASCII or Latin-1 letters compare equal (or both throw) |
| UrlCompare.KeyNotIdempotent | viewer/viewer.js:11-12 | the key is not idempotent: `%2541` decodes to `%41` and then to `a`, and `a//` loses one slash per application |
| UrlCompare.MalformedEscapeThrows | viewer/viewer.js:11-12 | a malformed escape such as `%zz` makes the comparison throw, on either side |
| UrlCompare.SchemeHostAndSlashExample | viewer/viewer.js:12-14 | `http://x.com/` and `HTTP://WWW.X.COM` are the same page |
| UrlCompare.StripWwwExample | viewer/viewer.js:12 | `http://www.` is stripped as one prefix |
| Rounds.NeverExits | viewer/viewer.js:212-228 | a loop whose body keeps an invariant under which the cursor is never -1 is still running after any number of rounds |
| RepairLoop.CloseOf | viewer/viewer.js:213 | the first `>` after the cursor's `<`, or -1 |
| RepairLoop.Step | viewer/viewer.js:213-227 | a round of the corrected loop moves the cursor to a later `<` of the new text, or ends it |
| RepairLoop.StepAgrees | viewer/viewer.js:213-227 | wherever a `>` follows the cursor, the corrected round is the round as written |
| RepairLoop.MisplacedPatch | viewer/viewer.js:214-224 | as written, with no `>` after the cursor, `substring(0, -1)` puts the patch at the very start of the text |
| RepairLoop.SpliceIs | viewer/viewer.js:218-224 | the patch is spliced in immediately before the first `>` after the cursor |
| RepairLoop.StepFacts | viewer/viewer.js:213-227 | a round only inserts `-`/`"`, adds at most two characters and keeps every `<` |
| RepairLoop.StepDecreases | viewer/viewer.js:227 | the number of `<` ahead of the cursor drops in every round, so the loop ends |
| RepairLoop.StepKeepsCursor | viewer/viewer.js:218-227 | the `<` under the cursor stays where it is |
| RepairLoop.CursorStart | viewer/viewer.js:210 | the first cursor is the first `<`, or -1 when the text has none |
| RepairLoop.RepairFromPads | viewer/viewer.js:212-228 | from any cursor on, the repair only inserts `-` and `"` |
| RepairLoop.RepairFromOpens | viewer/viewer.js:212-228 | from any cursor on, the repair keeps the number of `<` |
| RepairLoop.RepairFromLength | viewer/viewer.js:212-228 | from any cursor on, the repair adds at most two characters per `<` ahead |
| RepairLoop.RepairOnlyInserts | viewer/viewer.js:209-229 | the whole repair is the input with `-`/`"` characters inserted; nothing is deleted or changed |
| RepairLoop.RepairBounds | viewer/viewer.js:209-229 | the repair keeps every `<` and adds at most two characters per `<` |
| RepairLoop.SingleTag | viewer/viewer.js:213-224 | a single tag gets at most one patch, right before its `>` |
| RepairLoop.UnclosedLeftAlone | viewer/viewer.js:212-228 | the corrected repair leaves a last `<` with no `>` after it as it is |
| RepairLoop.StepOrSkip | viewer/viewer.js:213-227 | a round that does not misplace its patch (a patch wanted with no `>` ahead) is, as written, the corrected round |
| RepairLoop.PrependedCursor | viewer/viewer.js:214-227 | as written, a patch put in front of a text with no `>` after the cursor leaves the next cursor at most the patch's length on, again with no `>` after it |
| RepairLoop.TrapsDiverge | viewer/viewer.js:212-228 | a family of states that catches every misplacing round, is never left by a round as written and never has the cursor at -1 makes every misplacing round run for ever |
| RepairLoop.RunAgrees | viewer/viewer.js:212-228 | a loop body that runs every other round the corrected way, and never stops after a misplacing round, has computed the corrected repair wherever it stops |
| RepairLoop.WrittenRepairAgrees | viewer/viewer.js:209-229 | where every misplacing round runs for ever, each run of the loop as written that stops has computed the corrected repair |
| MarkupRepair.Patch | viewer/viewer.js:217-224 | the inserted text is at most two fill characters |
| MarkupRepair.QuoteFixRule | viewer/viewer.js:221-224 | the quote fix adds `"` exactly when the last `="` of the tag has no `"` after it |
| MarkupRepair.PatchRules | viewer/viewer.js:217-224 | `--` exactly when the tag opens a comment, does not end one and holds no `<`; `"` exactly when only the quote rule holds; nothing otherwise |
| MarkupRepair.RepairTag | viewer/viewer.js:213-224 | one loop visit produces the corrected round's text |
| MarkupRepair.RepairMarkup | viewer/viewer.js:209-229 | the loop's result is the corrected repair of the page |
| MarkupRepair.CommentExample | viewer/viewer.js:217-218 | `<!-- note >` becomes `<!-- note -->` |
| MarkupRepair.QuoteExample | viewer/viewer.js:221-224 | `<a href="foo>` becomes `<a href="foo">` |
| MarkupRepair.NotIdempotent | viewer/viewer.js:217-224 | `<!-- x="y >` becomes `<!-- x="y -->` and then `<!-- x="y --">`: a second pass patches again |
| MarkupRepair.StuckStep | viewer/viewer.js:213-227 | as written, from a stuck state the loop puts `"` in front of the page and finds the same `<` one place on, still stuck |
| MarkupRepair.QuoteKeepsFiring | viewer/viewer.js:221-224 | a `"` in front of a tag text on which the quote rule fires keeps it firing |
| MarkupRepair.StuckForever | viewer/viewer.js:212-228 | as written, from a stuck state the loop never ends |
| MarkupRepair.DivergingInput | viewer/viewer.js:209-229 | `a="b<` keeps the loop as written running for ever, while the corrected repair leaves it unchanged |
| MarkupRepair.MisplacedIsStuck | viewer/viewer.js:213-224 | every round of the newer loop that misplaces its patch is a stuck state: the tag text runs to the end and holds the cursor's `<`, so the patch is `"` |
| MarkupRepair.NewerMisplacingDiverges | viewer/viewer.js:212-228 | as written, every misplacing round of the newer loop is followed by no end |
| MarkupRepair.WrittenLoopAgrees | viewer/viewer.js:209-229 | wherever the newer loop as written stops, its text is the corrected repair; the two differ only where the loop as written never stops |
| LegacyRepair.LegacyPatch | viewer.js:102-116 | the older rule inserts at most two fill characters |
| LegacyRepair.LegacyRules | viewer.js:102-116 | with a `>` ahead, `--` exactly when the `<` starts `<!--` and its first `>` does not close a `-->`; otherwise the quote rule decides |
| LegacyRepair.FirstCommentEnd | viewer.js:103-107 | after a `<!--`, the first `-->` ends at the first `>` exactly when that `>` closes a `-->` |
| LegacyRepair.LegacyRepairTag | viewer.js:102-116 | one visit of the older loop produces the corrected round's text |
| LegacyRepair.LegacyRepairMarkup | viewer.js:99-119 | the older loop's result is the corrected repair with the older rule |
| LegacyRepair.LegacyStuckStep | viewer.js:102-118 | as written, from a stuck state the older loop prepends `--` and finds the same `<` two places on, still stuck |
| LegacyRepair.StuckPatch | viewer.js:102-108 | with no `>` the comment test compares -1 with -3, so `--` always goes in |
| LegacyRepair.NoCommentEnd | viewer.js:103 | with no `>` ahead there is no `-->` ahead either |
| LegacyRepair.LegacyStuckForever | viewer.js:101-119 | as written, from a stuck state the older loop never ends |
| LegacyRepair.LegacyDivergingInput | viewer.js:99-119 | `<!--` keeps the older loop as written running for ever, while the corrected repair leaves it unchanged |
| LegacyRepair.LegacyMisplacedPatch | viewer.js:102-119 | with no `>` after the cursor, the older rule adds `--` exactly when the `<` starts `<!--`, and otherwise the quote fix of the whole text up to the cursor |
| LegacyRepair.NextUnclosed | viewer.js:118 | with no `>` after the cursor, the next cursor is a `<` no later than any given later `<`, with no `>` after it |
| LegacyRepair.CommentStaysAhead | viewer.js:108 | a `<!--` ahead of the cursor stays ahead when fill is put in front of the text |
| LegacyRepair.AheadStep | viewer.js:102-118 | as written, a round with no `>` ahead and a `<!--` ahead leads to another such state |
| LegacyRepair.QuoteStep | viewer.js:102-118 | as written, a round with no `>` ahead, no `<!--` at the cursor and the quote rule firing on the text up to the cursor leads to another such state |
| LegacyRepair.LegacyMisplacedLoops | viewer.js:101-119 | every misplacing round of the older loop is a `LegacyLoops` state |
| LegacyRepair.LegacyLoopsClosed | viewer.js:102-118 | a round of the older loop as written never leaves the `LegacyLoops` states |
| LegacyRepair.LegacyTraps | viewer.js:101-119 | every misplacing round of the older loop is a `LegacyLoops` state (no `>` ahead, and a `<!--` ahead or the quote rule firing), and a round as written never leaves those states |
| LegacyRepair.LegacyWrittenLoopAgrees | viewer.js:99-119 | wherever the older loop as written stops, its text is the corrected repair; the two differ only where the loop as written never stops |
| LegacyRepair.LegacyDoubleOpen | viewer.js:99-119 | `<<!--` keeps the older loop as written running for ever, with the cursor moving between its two `<`, though that state is not `LegacyStuck`; the corrected repair leaves it unchanged |
| LegacyRepair.DoubleOpenRounds | viewer.js:102-118 | on `<<!--` the first round as written changes nothing and the second prepends `--` before the cursor comes back to the first `<` |
| LegacyRepair.QuoteFixNone | viewer.js:111-116 | a tag text with no `=` gets no quote |
| LegacyRepair.DoubleOpenRepair | viewer.js:99-119 | the corrected repair leaves `<<!--` unchanged |
| LegacyRepair.LegacyIgnoresInnerTag | viewer.js:107 | `<!-- a <b> -->` gets `--` from the older rule, which has no inner-`<` check; the newer rule gives nothing |
| ListClosers.Hits | viewer/viewer.js:237-241 | for every index, whether the pattern matches there |
| ListClosers.Search | viewer/viewer.js:237-241 | `search` returns -1 or an index at or after the start |
| ListClosers.SearchHit | viewer/viewer.js:237-241 | what the search finds is a match |
| ListClosers.SearchFirst | viewer/viewer.js:237-241 | the search finds the first match, and -1 means no match at all |
| ListClosers.SearchShift | viewer/viewer.js:237-241 | searching `substring(listOffset)` is searching the page from `listOffset` |
| ListClosers.InsertKeepsItems | viewer/viewer.js:246-248 | inserting a closing tag in front of a `<` neither creates nor breaks an item start |
| ListClosers.CloseItemItems | viewer/viewer.js:236-251 | each round leaves fewer item starts ahead, so the loop terminates |
| ListClosers.TagLetters | viewer/viewer.js:247 | the regex-matched tag yields the item's two letters as written |
| ListClosers.RoundStart | viewer/viewer.js:237-238 | the first search of a round finds the first item from `listOffset` |
| ListClosers.RoundInserts | viewer/viewer.js:240-248 | the body's insertion, with its suffix searches and `substring` calls, is the item's round |
| ListClosers.RoundKeeps | viewer/viewer.js:243 | when the body inserts nothing, the item's round leaves the text alone |
| ListClosers.ItemName | viewer/viewer.js:247 | `match(/<.*?>/is)[0].substring(1, 3)` reads back the item's two letters |
| ListClosers.CloseRound | viewer/viewer.js:237-251 | one loop pass finds the first item from `listOffset`, moves the offset just past its `<` and performs that item's round |
| ListClosers.CloseListItems | viewer/viewer.js:232-253 | the loop's result is the whole pass over the page |
| ListClosers.CloseItemInserts | viewer/viewer.js:243-248 | an item whose next list tag comes before any closing tag gets `</` + its letters + `>` in front of that list tag |
| ListClosers.CloseItemNoPoint | viewer/viewer.js:243 | an item with no list tag after it is left alone |
| ListClosers.CloseItemClosed | viewer/viewer.js:243 | an item already closed before the next list tag is left alone |
| ListClosers.CloseItemPads | viewer/viewer.js:246-248 | a round only inserts closing-tag characters |
| ListClosers.CloseItemLength | viewer/viewer.js:246-248 | a round adds at most five characters |
| ListClosers.CloseFromPads | viewer/viewer.js:236-252 | the pass keeps every original character, in order |
| ListClosers.CloseFromLength | viewer/viewer.js:236-252 | the pass adds at most one closing tag per item start |
| ListClosers.ClosedListsPads | viewer/viewer.js:232-253 | the whole pass only inserts closing tags, at most one per item |
| AltCollapse.CollapseNoMatch | viewer.js:143-146 | a text in which the pattern occurs nowhere is unchanged |
| AltCollapse.CollapseOnlyDeletes | viewer.js:143-146 | the collapse only deletes attribute text; every kept character stays in order |
| AltCollapse.CollapseShortens | viewer.js:143-146 | the collapse never lengthens a page |
| AltCollapse.TakeUnchanged | viewer.js:143-146 | a stretch without matches is copied through |
| AltCollapse.CollapseMatch | viewer.js:145-146 | a match keeps the file name and its quote and drops the rest; the scan resumes after the match |
| AltCollapse.NameAt | viewer.js:145 | the file-name group matches 0, 8 or 10 characters |
| AltCollapse.TailAt | viewer.js:145 | the attribute group matches `" alt="[defekt]"`, `" alt="[image]"` or nothing |
| AltCollapse.AltAt | viewer.js:145-146 | a match is a file name, a kept quote and deletable attribute text |
| AltCollapse.AltIgnoresCase | viewer/viewer.js:264-266 | whether the regex matches ignores the case of ASCII and Latin-1 letters |
| AltCollapse.LinkImageMatch | viewer.js:145 | `link.gif" alt="[image]"` is a 23-character match that keeps 8 |
| AltCollapse.CollapseExample | viewer.js:143-146 | `<img src="link.gif" alt="[image]">` becomes `<img src="link.gif">` |
| TagCleanup.ActionOf | viewer.js:269-276 | `head`/`header`/`link`/`meta`/`form` are unwrapped and `title`/`base`/`nextid` removed, by lower-cased name |
| TagCleanup.ActionIgnoresCase | viewer.js:273-275 | the classification ignores the case of ASCII and Latin-1 letters |
| TagCleanup.CleanIsTidy | viewer.js:272-277 | after the pass no unneeded element is left at any depth |
| TagCleanup.CleanKeepsTidy | viewer.js:272-277 | a page without unneeded elements is unchanged |
| TagCleanup.CleanIdempotent | viewer.js:272-277 | a second pass changes nothing |
| TagCleanup.CleanKeepsText | viewer.js:273-274 | when nothing is marked for removal, unwrapping keeps all the text, in order |
| TagCleanup.TitleAndHeadExample | viewer.js:269-276 | `<TITLE>` goes with its text; `<HEAD>` only loses its tags |
| Xbm.Binary | viewer/viewer.js:44 | `toString(2)` gives at least one digit |
| Xbm.PadStart | viewer/viewer.js:44 | `padStart(n)` gives a string of length `n`, or the string itself when it is already that long |
| Xbm.Used | viewer/viewer.js:40 | only the first `width * height` bytes are used |
| Xbm.UnpackXbm | viewer/viewer.js:38-56 | the buffer throws exactly on a zero dimension; otherwise it has `4 * width * height` entries holding the drawn pixels of the used bytes and zero elsewhere |
| Xbm.UnpackByte | viewer/viewer.js:44-55 | one byte appends its pixels up to the break and updates the offset and column |
| Xbm.DrawPixel | viewer/viewer.js:49-54 | a pixel that does not break is drawn and the offset moves on by 4 |
| Xbm.PaintPixel | viewer/viewer.js:49-52 | exactly the four entries of the pixel change: R = G = B = the value, alpha 255 |
| Xbm.BinaryDigits | viewer/viewer.js:44 | digit `j` from the right of `toString(2)` is bit `j` |
| Xbm.BitComplement | viewer/viewer.js:44 | subtracting from `0xFF` flips each of the low bits |
| Xbm.InvertedBits | viewer/viewer.js:44-50 | bit `j` is drawn from `bits[7 - j]` as the complement of the byte's bit `j`, least significant first: a set bit draws black |
| Xbm.BitsDigit | viewer/viewer.js:44 | `bits[7 - j]` is the digit of bit `j` of `0xFF - byte` |
| Xbm.DrawnBinary | viewer/viewer.js:50 | every drawn value is 0 or 1 |
| Xbm.PixelShape | viewer/viewer.js:49-52 | every pixel is either drawn, opaque, and black or white with R = G = B, or untouched and fully transparent |
| Xbm.AlignedDrawsNothing | viewer/viewer.js:47 | as written, when `width % 8 == 0` the break fires on the first bit of every byte and nothing is drawn |
| Xbm.NothingDrawnIff | viewer/viewer.js:47 | as written, the offset stays at 0 exactly when there are no bytes or `width % 8 == 0` |
| Xbm.RulesAgree | viewer/viewer.js:47 | when rows are padded (`width % 8 != 0`) the corrected break is the break as written |
| Xbm.ByteRunInRow | viewer/viewer.js:46-55 | corrected, byte `q` of a row draws its pixels (8, or the rest of the row) and skips the padding |
| Xbm.RowDrawn | viewer/viewer.js:43-56 | corrected, the loop draws a row byte by byte and starts the next row in column 0 |
| Xbm.RowFromPixels | viewer/viewer.js:43-56 | drawing a row byte by byte gives that row's pixels, each the complement of its bit |
| Xbm.PictureDrawn | viewer/viewer.js:43-56 | corrected, the loop draws the bitmap's complete rows first |
| Xbm.PictureRow | viewer/viewer.js:43-56 | row `y` of the picture is what the bytes of row `y` draw |
| Xbm.XbmPicture | viewer/viewer.js:40-56 | corrected, with `height` rows of `ceil(width / 8)` bytes, the buffer shows every row of the bitmap in full |
| Xbm.PixelOfRows | viewer/viewer.js:43-56 | pixel `(x, y)` is the complement of bit `x % 8` of byte `ceil(width/8) * y + x / 8` |
| Xbm.PaddedPicture | viewer/viewer.js:43-56 | as written, the same full picture is drawn whenever rows are padded |
| ArchiveIndex.FindEntry | viewer/viewer.js:95 | the first entry whose URL compares equal; an abort is the first comparison that throws; a miss means every comparison is false |
| ArchiveIndex.FindSource | viewer/viewer.js:91-92 | the first source whose lower-cased id is the lower-cased `source` parameter, or none exactly when no id matches |
| ArchiveIndex.SearchFrom | viewer/viewer.js:103-114 | the first source with a matching entry and its first such entry; no result exactly when nothing matches; an exception only from a test that throws |
| ArchiveIndex.Resolve | viewer/viewer.js:79-121 | a located entry exists in its source |
| ArchiveIndex.ResolveNeedsURL | viewer/viewer.js:81-84 | "No URL was specified" exactly when there is no `url` parameter |
| ArchiveIndex.ResolveInNamedSource | viewer/viewer.js:90-100 | with `source`: an invalid source exactly when no id matches ignoring case; otherwise the first matching source's first equal entry; "not in the archive" when none is equal |
| ArchiveIndex.ResolveAnywhere | viewer/viewer.js:102-119 | without `source`: the first source holding the URL wins and its id is appended; "not in the archive" exactly when no source holds it |
| ArchiveIndex.ResolveFailsOnlyByDecoding | viewer/viewer.js:95-105 | the lookup throws only when some URL does not decode |
| ArchiveIndex.ArchivePath | viewer/viewer.js:126-127 | the archive address starts with the archive URL |
| ArchiveIndex.ArchivePathRoundTrip | viewer/viewer.js:126-127 | cutting the directory prefix off an archive address gives the path back |
| ArchiveIndex.ScreenshotURL | viewer/viewer.js:156-157 | a screenshot exists unless `images` is the empty string, at `<images>/<entry>.png` in the source's directory, `images` read as `undefined` when the field is missing |
| ArchiveIndex.MissingImagesScreenshot | viewer/viewer.js:156-157 | a source without an `images` field passes the test and points at `undefined/<entry>.png` |
| ArchiveIndex.SourceID | viewer.js:21 | `sourceID` is 0 exactly when `source=jamsa`, else 1 |
| ArchiveIndex.TargetID | viewer.js:22 | `targetID` is -1 or an index of the chosen list |
| ArchiveIndex.TargetIDMeaning | viewer.js:22 | the first entry whose decoded URL is the decoded `url` parameter; -1 when every entry decodes to something else; an exception when a URL does not decode |
| ArchiveIndex.IntText | viewer.js:30 | `'' + n` is the decimal text of `n`, with a `-` in front when `n` is negative |
| ArchiveIndex.SourcePathMeaning | viewer.js:28-31 | Jamsa pages are `jamsa/<targetID>.htm` and Einblicke pages `einblicke/<path>`; an unknown Einblicke URL throws |
| ArchiveIndex.JamsaFileNumber | viewer.js:30 | the number in a Jamsa file name reads back as the entry's index |
| PageRewrite.ShownFor | viewer/viewer.js:123-127 | `fullURL` is the archive address of the located entry |
| PageRewrite.FileStemOfName | viewer/viewer.js:21 | when the last `.` follows the last `/`, the made-up `alt` is the file name without its extension |
| PageRewrite.FileStemSwapped | viewer/viewer.js:21 | when no `.` follows the last `/`, `substring` swaps its arguments and the `alt` ends in `/` |
| PageRewrite.FileStemSwapExample | viewer/viewer.js:21 | `http://a.com/pic` gets the `alt` text `.com/` |
| PageRewrite.Sanitized | viewer/viewer.js:18-27 | `src` goes; an existing `alt` is kept, else one is made up; nothing else changes |
| PageRewrite.FallbackAltCases | viewer/viewer.js:19-23 | a made-up `alt` is `[image]` unless the file name is used and a `src` longer than one character exists |
| PageRewrite.SanitizeImage | viewer/viewer.js:18-27 | the element's new attributes are the sanitized old ones |
| PageRewrite.HashColour | viewer/viewer.js:335-337 | the colour starts with `#`, and a value already starting with `#` is kept |
| PageRewrite.HashColourIdempotent | viewer/viewer.js:335-337 | prefixing twice is prefixing once |
| PageRewrite.BackgroundColour | viewer/viewer.js:325-338 | the text last assigned to the page's `backgroundColor`: the value of `rgb` when present, else that of `bgcolor`, with `#` put in front unless it starts with one; nothing is assigned when the body has neither |
| PageRewrite.TextColours | viewer/viewer.js:326-347 | the `color` texts assigned: each body attribute present gives its selector its value, with `#` put in front unless it starts with one; each assignment comes from one such attribute |
| PageRewrite.ImagePathMeaning | viewer/viewer.js:375-393 | Einblicke `icons/` bypass the lookup; otherwise the first source with a match gives `id/path`; `""` exactly when nothing matches; an exception only from a comparison that throws |
| PageRewrite.EinblickeImageTestTotal | viewer/viewer.js:386 | Einblicke images match by exact `path` and never throw |
| PageRewrite.OtherImageTestCompares | viewer/viewer.js:385 | other images match by `compareURLs` on `url` |
| PageRewrite.FindImagePath | viewer/viewer.js:380-393 | the image loop's result is the image's archive path |
| PageRewrite.ImageRewriteMeaning | viewer/viewer.js:369-400 | `ismap` always goes and only `src`/`alt` change otherwise; images without `src` are skipped; a found image points into the archive (or at the decoded XBM); a missing one keeps or gets an `alt` and loses `src` |
| PageRewrite.RewriteImage | viewer/viewer.js:369-400 | one image's new attributes are its rewrite |
| PageRewrite.RewriteImages | viewer/viewer.js:369-401 | every image is rewritten in document order; an exception stops the loop and leaves later images as they were |
| PageRewrite.External | viewer/viewer.js:463-464 | a Wayback link opens in a new window at `https://web.archive.org/web/0/` + URL; nothing else changes |
| PageRewrite.LinkLoopAsWritten | viewer/viewer.js:456-466 | the loop as written leaves the link as the passes over every source give it |
| PageRewrite.PassesStayStopped | viewer/viewer.js:457 | once a comparison throws, no later pass runs |
| PageRewrite.LinkPassesOk | viewer/viewer.js:457 | the loop finishes exactly when no comparison throws |
| PageRewrite.LastSourceDecides | viewer/viewer.js:456-466 | as written, only the last source decides: a viewer link to it if it lists the URL, the Wayback Machine otherwise |
| PageRewrite.EarlierHitIgnored | viewer/viewer.js:456-466 | a URL listed in the first source but not the last goes to the Wayback Machine as written, and to the viewer with the intended loop |
| PageRewrite.FirstSourceWith | viewer/viewer.js:383-391 | the loop over the sources stops at the first source with a matching entry |
| PageRewrite.LinkLookupMeaning | viewer/viewer.js:456-466 | intended: a URL listed anywhere points at the viewer for the first source listing it, and only a URL listed nowhere goes to the Wayback Machine |
| PageRewrite.LinkLoop | viewer/viewer.js:456-466 | the loop that stops at the first hit leaves the link as the intended lookup gives it |
| PageRewrite.SplitAnchor | viewer/viewer.js:444-447 | the path and the anchor make up the whole address; the path holds no `#` and the anchor starts with one |
| PageRewrite.LocalLink | viewer/viewer.js:439-452 | a local Einblicke link points at the viewer for an entry of the source |
| PageRewrite.LocalLinkMeaning | viewer/viewer.js:440-450 | the first entry with the link's path gives the URL and the anchor is kept; no such entry throws |
| PageRewrite.LinkRewriteMeaning | viewer/viewer.js:419-466 | only `href` and `target` change; a new window only for the Wayback Machine; anchors and non-`http://` links stay; unparseable ones go to the Wayback Machine |
| PageRewrite.RewriteLink | viewer/viewer.js:420-466 | one link's new attributes are its rewrite |
| PageRewrite.RewriteLinks | viewer/viewer.js:419-467 | every link is rewritten in document order; an exception stops the loop |
| LegacyViewer.PagePath | viewer.js:28-31 | the path of an existing entry never throws |
| LegacyViewer.LegacyBody | viewer.js:207-212 | the body loses `background`, and the text assigned to its `backgroundColor` is the value of `rgb` as it is, without `#` |
| LegacyViewer.LegacyImageMeaning | viewer.js:233-258 | only the Einblicke list is searched, Jamsa by `url` and Einblicke by `path`; a hit points at the first such entry inside the Einblicke directory; on a miss no entry has the key and the image is replaced by its text |
| LegacyViewer.LegacyImageFates | viewer.js:233-258 | the images in document order each get their fate; an exception stops the loop at the image that raised it |
| LegacyViewer.ReplacementTextMeaning | viewer.js:251-254 | a missing image leaves its non-empty `alt`, else ` filename ` from a `src` longer than one character |
| LegacyViewer.ListedMeaning | viewer.js:321 | a list holds a URL exactly when some entry's URL is strictly equal to it |
| LegacyViewer.ListWithURL | viewer.js:318-325 | the own list wins when it holds the URL, the other list otherwise; none exactly when neither does |
| LegacyViewer.LegacyLocalLink | viewer.js:301-314 | a local Einblicke link points at the viewer for some Einblicke entry |
| LegacyViewer.AnchoredHref | viewer.js:311-312 | the anchor is kept after the entry's viewer link |
| LegacyViewer.LegacyLinkMeaning | viewer.js:283-330 | only `href`/`target` change; own list first, then the other, then the Wayback Machine; anchors and non-`http://` links stay |
| LegacyViewer.RewriteLegacyLink | viewer.js:283-330 | one link's new attributes are its rewrite |
| LegacyViewer.RewriteLegacyLinks | viewer.js:283-330 | every link is rewritten in document order; an exception stops the loop and leaves later links as they were |
| Search.EmptyQueryMatches | index.js:46 | the empty query matches every entry |
| Search.UmlautQueryMatches | index.js:46 | a search for `über` finds a title `Übersicht`: the case folding covers `Ü` |
| Search.PassThrows | index.js:51-55 | a pass throws exactly when its `.htm` Einblicke URL does not decode |
| Search.PassRows | index.js:43-59 | a pass pushes its matching Jamsa entry and its matching `.htm` Einblicke page |
| Search.ScanThrows | index.js:38-62 | the scan throws exactly when some scanned Einblicke URL does not decode |
| Search.ScanRows | index.js:38-62 | the rows are exactly the matching Jamsa entries `1 <= i < |einblicke|` and the matching `.htm` Einblicke pages |
| Search.ScanAvailability | index.js:48-59 | a scanned row is Jamsa-only (1) or Einblicke-only (3) |
| Search.UnscannedJamsa | index.js:43 | Jamsa entry 0 and entries at or past the Einblicke length are never found |
| Search.EmptyQueryListsAll | index.js:43-59 | an empty query lists every scanned entry |
| Search.ScanLists | index.js:38-62 | the scan loop's result is the scan |
| Search.CompareTextAntisymmetric | index.js:73-74 | swapping the arguments negates the comparison |
| Search.CompareTextZero | index.js:73-74 | the comparison is 0 exactly for equal strings |
| Search.CompareTextTransitive | index.js:73-74 | the order is transitive |
| Search.BeforeTotal | index.js:72-75 | any two rows are ordered one way or the other |
| Search.BeforeTransitive | index.js:72-75 | the row order, by title and then URL, is transitive |
| Search.CompareZero | index.js:72-75 | rows equal under the comparator have the same title and URL |
| Search.InsertSorted | index.js:72 | inserting into a sorted sequence keeps it sorted |
| Search.SortResults | index.js:72-75 | the sort is a sorted permutation of the rows |
| Search.MergeCount | index.js:78-83 | the rows drop by exactly the number of merges, each shown as availability 2 |
| Search.MergeKeepsOrder | index.js:78-83 | merging only deletes rows; survivors keep their titles, URLs and order |
| Search.RunOfThree | index.js:78-83 | a run of three rows with one URL becomes two |
| Search.MergeStep | index.js:79-82 | one loop pass marks and splices, or leaves the rows |
| Search.MergeDuplicates | index.js:78-83 | the loop's result is the merge |
| Search.StoredURLsNotMerged | index.js:79 | neighbours whose URLs differ by a trailing `/`, or a percent-encoded Jamsa URL beside its decoded Einblicke twin, are not merged |
| Search.DecodedTwinMerged | index.js:55-82 | a Jamsa `site~name` beside the Einblicke row listed as `site%7Ename` is merged, because that row holds the decoded URL |
| Search.PerformSearch | index.js:21-83 | the search throws exactly when the scan throws; otherwise it shows the scanned rows sorted and then merged |
| Search.EscapeQueryMeaning | index.js:92 | each character is escaped on its own; no raw `#` or `&` is left |
| Search.EscapeEinblickeMeaning | index.js:97 | each character is escaped on its own; no raw `#`, `?` or `&` is left |
| Search.RowLinks | index.js:90-99 | a Jamsa link for availability up to 2 and an Einblicke link from 2 on, each with the row's URL escaped |
| Search.MergedRowLinksBoth | index.js:90-99 | a merged row links to both books |
| Search.UpdateURL | index.js:119 | the query is reloaded with `#` and `&` escaped |

## Left out

- Network and file I/O (`fetch`, `XMLHttpRequest`, `loadJSON`, JSON parsing): the index and the page text are inputs.
- The DOM and UI: `displayError`, the bottom bar, `document.title`, the older viewer's Switch link (viewer.js:54-58), `innerHTML`, `addTableRow`, event listeners and progress text. They only display values.
- The newer viewer's "earlier/newer version" links (viewer/viewer.js:145-154): they only set UI links, using the same comparison as the lookup.
- The non-HTML branches of both viewers (images, audio, text, downloads), and canvas, `toDataURL` and object URLs: foreign browser calls.
- The Einblicke `fehler.htm` link reversal and placeholder-image removal (viewer/viewer.js:280-318, viewer.js:160-194), the `<isindex>` placeholder and the `<marquee>` rewrite. They work on sibling and parent nodes of a DOM tree, which is not modelled.
- The newer viewer's tag removal (viewer/viewer.js:412-413): only the older viewer's classifier is modelled.
- The three other Einblicke regexes (footer, broken-page banner and form placeholder). They rely on `.*?` backtracking with `^`/`$` anchors.
- `new URL`, the `href`/`src` getters, `location.origin`, the `DOMParser` title unescape and `parseXBM` as the image loop calls it: these are parameters.
- The `parseXBM` header parsing (`parseInt` of the width and height, `new Function` evaluation of the byte list): width, height and bytes are inputs. The data URL is replaced by the buffer.
- PageRewrite.BackgroundColour: states the text assigned to `style.backgroundColor`, not the style that results. A browser drops a value that is not a valid CSS colour (`bgcolor="white"` becomes `#white`, which is dropped), so an invalid `rgb` does not in fact override a valid `bgcolor`. CSS colour parsing is not modelled.
- PageRewrite.TextColours: states the texts assigned to `style.color`, not the colours that result; an invalid colour leaves an element's colour as it was.
- LegacyViewer.LegacyBody: states the text assigned to `style.backgroundColor` from `rgb`, not the style that results.
- JsString.Lower: folds only `A`–`Z` and the Latin-1 capitals `À`–`Þ` (not `×`), where `toLowerCase` folds every Unicode capital and turns `İ` (U+0130) into two characters. A query, a URL or a source name with other capitals (Greek, Cyrillic, Latin Extended) is compared case-sensitively by Search.Mentions (and so Search.PassRows and Search.ScanRows), UrlCompare.Key, the merge test of Search.MergeDuplicates and ArchiveIndex.FindSource, where the scripts ignore the case.
- ArchiveIndex.ScreenshotURL: `images` is either missing or a string. A JSON `null` or a number, which the script would also concatenate as text, is not modelled.
- Search.CompareText: `localeCompare` is replaced by code-point order, a total order. Sort stability is not stated.
- Search.SortResults: the in-place sort is modelled on a sequence. Search.MergeDuplicates: `splice` is modelled as a cut of a sequence, not as in-place array updates.
- LegacyViewer.LegacyImageFates: gives each image its fate, a new `src` or removal with its text put after it. It does not carry out the removal, because the DOM tree is not modelled.
- TagCleanup.Clean: the `forEach` over `querySelectorAll('*')` is modelled as a recursive pass over a node tree, not as a mutating visit of a static node list.
- Cooperative yields (`await new Promise(setTimeout)`) and the search progress text.
- The `source.id == 'einblicke'` test is modelled as a test on the located source's id.

## Findings

| source | as written | input that shows it | evidently intended | confidence | as-written member | corrected member |
|---|---|---|---|---|---|---|
| viewer/viewer.js:212-228 | with no `>` after the last `<`, `substring(0, -1)` puts the patch at index 0, the same `<` is found one place on, and the loop never ends | `a="b<` | a `<` with no `>` after it is left alone and the loop ends | high (not executed) | MarkupRepair.StuckForever | MarkupRepair.RepairMarkup |
| viewer.js:101-119 | with no `>` the comment test compares `-1` with `-3`, so `--` is prepended in every round and the loop never ends | `<!--` | a `<` with no `>` after it is left alone and the loop ends | high (not executed) | LegacyRepair.LegacyStuckForever | LegacyRepair.LegacyRepairMarkup |
| viewer/viewer.js:47 | when `width % 8 == 0` the break fires at every row start before the first bit, so nothing is drawn | width 8, height 1, bytes `[0x00]` | the break skips only padding bits, so rows without padding are drawn in full | high (not executed) | Xbm.AlignedDrawsNothing | Xbm.XbmPicture |
| viewer/viewer.js:456-466 | the loop over the sources never stops at a hit, so only the last source decides and an earlier hit is overwritten by the Wayback link | a link URL listed only in the first of two sources | the first source listing the URL gives the viewer link | medium (not executed) | PageRewrite.EarlierHitIgnored | PageRewrite.LinkLookupMeaning |
