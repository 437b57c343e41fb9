# ChenYiFaer Live Helper: the live-video scraper, modelled in Dafny

The browser extension puts a small panel on YouTube pages. When the viewer
is signed in, it downloads the channel's `/streams` page and scrapes the
page's HTML for video entries. This project models that core:

- `parseLiveVideosFromHtml`: a global lazy regular expression run with
  `exec` over the page; the first-seen-wins `Map` from video id to record;
  the record built from each block.
- `extractTextField` and `decodeText`: the text helpers every record field
  goes through.
- `detectLoginState`, `checkLoginAndFetch`, `fetchLiveVideos` and the
  refresh button: the gate that decides whether a request is made and what
  happens to the list and the message line.

Files:

- `jstext.dfy` (module `JsText`). JavaScript strings as sequences of UTF-16
  code units. The regular-expression shapes the scraper uses:
  - a literal prefix followed by `([^"]+)"` or `(\d+)"`, specified
    declaratively (`IsCapture`, `IsLeftmostCapture`) and computed by a
    search proved to find the leftmost match;
  - the lazy `/open([\s\S]*?)close/g` pattern driven by `exec` and
    `lastIndex`;
  - a global `replace` with a literal pattern.
- `textdecoding.dfy` (module `TextDecoding`). `extractTextField` and
  `decodeText`. `JSON.parse` is modelled on the string literals
  `decodeText` builds: every escape, and failure on a raw control
  character.
- `videoscanner.dfy` (module `VideoScanner`). The record of a block, the
  first-seen-wins collection as a specification function (`LiveVideos`),
  and the imperative scan `ParseLiveVideosFromHtml`. That scan has an
  `exec` loop and a `map` with its insertion order. It skips a block
  whose id is missing or repeated, as the script's `continue` does, and it
  is proved to return `LiveVideos`.
- `logingate.dfy` (module `LoginGate`). The page signals, the HTTP
  response, and a `LiveHelper` class whose fields are the parts of the
  script's `state` that the gate updates, plus what is on screen.

The page's DOM queries and the HTTP response are inputs of the model. A
query is the boolean "an element matched". A response is its `ok` flag,
its status and its body text.

Behaviour the proofs bring out:

- `decodeText` doubles every backslash before it calls `JSON.parse`. The
  parse therefore gives back the text unchanged whenever it succeeds, and
  it succeeds exactly when the text has no control character
  (`JsonRoundTrip`). So an escape such as `\u0026` in a title stays as
  those six characters. The manual `\uXXXX`, `\n` and `\t` substitutions run only on
  a text that holds a control character (`DecodeTextCases`).
- `checkLoginAndFetch` never records a signed-out verdict. `isLoggedIn`
  stays `null` on a signed-out page (`LiveHelper.Valid`). The check runs
  only once, when the panel is initialised, so after a signed-out first
  check the refresh button does nothing for the rest of the page's life.
- The sign-in link is detected, and shown in the status tooltip, but it
  is never consulted for the verdict. A page with both an avatar and a
  sign-in link counts as signed in (`SignInLinkIgnored`).

## Model

| member | source | states |
|---|---|---|
| JsText.IndexOf | extension/contentScript.js:221-224 | the occurrence found is at or after the start index and is a real occurrence; None only when no occurrence exists from there on |
| JsText.IndexOfIsFirst | extension/contentScript.js:221-224 | the occurrence found is the first one at or after the start index |
| JsText.Contains | extension/contentScript.js:241 | `/lit/.test(block)` is true exactly when the literal occurs somewhere in the block |
| JsText.RunEnd | extension/contentScript.js:226 | the greedy `[^"]+` / `\d+` run ends at the first unit outside the class |
| JsText.CaptureUniqueAt | extension/contentScript.js:226 | a match of `lit(K+)"` at a given index has exactly one capture |
| JsText.LeftmostCaptureUnique | extension/contentScript.js:226 | the capture of the leftmost match is unique, so `match(...)[1]` is determined |
| JsText.CaptureAt | extension/contentScript.js:226 | a capture found at an index is a match of the pattern there |
| JsText.CaptureAtComplete | extension/contentScript.js:226 | every match at an index is the one CaptureAt returns |
| JsText.FindCapture | extension/contentScript.js:226 | the search returns a match, no match lies between the start and it, and None only when nothing matches from the start on |
| JsText.MatchIsLeftmostCapture | extension/contentScript.js:226 | `block.match(/lit(K+)"/)` is non-null exactly when the pattern matches, and its group 1 is the leftmost match's capture, a non-empty run of the class |
| JsText.MatchOfLeftmost | extension/contentScript.js:226 | whatever the leftmost match captures is what `match` returns |
| JsText.ReplaceAllAbsent | extension/contentScript.js:647-648 | a global replace of a pattern that does not occur leaves the text unchanged |
| JsText.ReplaceUnitConcat | extension/contentScript.js:642 | replacing a one-unit pattern globally distributes over concatenation |
| JsText.ExecLazy | extension/contentScript.js:221-224 | an `exec` result lies after `lastIndex`, right after an opening marker and right before a closing marker |
| JsText.ExecLazyIsLeftmostLazyMatch | extension/contentScript.js:221-225 | an `exec` result is the leftmost index at or after `lastIndex` where the lazy pattern matches, and its capture stops at the first closing marker |
| JsText.ExecLazyNoneIsNoMatch | extension/contentScript.js:224 | `exec` returns null exactly when the pattern matches nowhere at or after `lastIndex` |
| JsText.ExecSpansBetweenMarkers | extension/contentScript.js:221-225 | every block the loop visits sits between an opening marker and the first closing marker after it, and holds no closing marker |
| JsText.ExecSpansInOrder | extension/contentScript.js:221-225 | the loop visits blocks left to right without overlap: each match starts after the previous closing marker |
| JsText.ExecSpansEmpty | extension/contentScript.js:224 | the loop visits no block exactly when the pattern matches nowhere |
| JsText.ExecTextsStep | extension/contentScript.js:224-225 | one turn of the loop yields the first capture and then the captures from the advanced `lastIndex` |
| JsText.ExecTextsAdvance | extension/contentScript.js:224-225 | the invariant "visited blocks followed by the remaining blocks are all the blocks" survives one turn, and `lastIndex` strictly grows |
| JsText.ExecTextsDone | extension/contentScript.js:224 | when `exec` returns null, no block remains |
| TextDecoding.ExtractTextFieldPrefersSimpleText | extension/contentScript.js:623-635 | the result is the leftmost `simpleText` capture whenever that shape matches anywhere, else the leftmost first-`runs` capture, else null |
| TextDecoding.ExtractedTextShape | extension/contentScript.js:623-635 | an extracted text is non-empty and holds no quote |
| TextDecoding.EscapeForJsonByUnit | extension/contentScript.js:642 | the two replace passes escape the text unit by unit: a backslash is doubled, a quote is preceded by a backslash |
| TextDecoding.ScanEscaped | extension/contentScript.js:642-643 | JSON.parse reads the escaped text back up to the closing quote, and fails exactly when the text has a control character |
| TextDecoding.JsonRoundTrip | extension/contentScript.js:641-643 | parse(quote + escape(s) + quote) is s when s has no control character, and throws otherwise |
| TextDecoding.DecodeTextCases | extension/contentScript.js:637-650 | null and "" come back unchanged; a text without a control character comes back unchanged; any other text gets the manual substitutions |
| TextDecoding.UnescapeUnicodeNoBackslash | extension/contentScript.js:646 | the `\uXXXX` substitution leaves a text without a backslash unchanged |
| TextDecoding.ManualUnescapeNoBackslash | extension/contentScript.js:645-648 | the fallback leaves a text without a backslash unchanged |
| TextDecoding.DecodeTextNonEmpty | extension/contentScript.js:637-650 | decodeText never turns a non-empty text into an empty one |
| VideoScanner.BuildRecord | extension/contentScript.js:236-269 | the record built step by step, with the badges pushed in order, is the record the specification function gives |
| VideoScanner.RecordLinksWatchPage | extension/contentScript.js:258-261 | the record carries its id and links to the watch page of that id |
| VideoScanner.RecordTextsNonEmpty | extension/contentScript.js:236-238 | the title is the decoded extraction or, when there is none, the placeholder, and is never empty; the published and view-count texts are the decoded extractions, null exactly when nothing was extracted, and never empty |
| VideoScanner.BadgeListFlags | extension/contentScript.js:239-265 | `badges.some(...)` finds a kind exactly when that badge was pushed |
| VideoScanner.RecordBadgesMatchFlags | extension/contentScript.js:239-267 | isLive holds exactly when the block has a LIVE style or label; isUpcoming exactly when a start time was read; the badges are live then upcoming, as flagged |
| VideoScanner.ScheduledStartIsFirstStartTime | extension/contentScript.js:245-253 | a scheduled start exists exactly when the first `startTime` digits times 1000 is finite, and is then that product in milliseconds |
| VideoScanner.RecordThumbnail | extension/contentScript.js:255-256 | the thumbnail is null exactly when no `thumbnails` url matches, else the decoded leftmost url, never empty |
| VideoScanner.FirstOccurrencesOfPrefix | extension/contentScript.js:232-233 | whether an entry is the first of its id depends only on the entries before it |
| VideoScanner.KeepFirst | extension/contentScript.js:232-258 | the kept entries have distinct ids, the same ids as the input, and come from the input |
| VideoScanner.KeepFirstIsFirstOccurrences | extension/contentScript.js:232-272 | the Map keeps exactly the first entry of each id, in first-seen order |
| VideoScanner.IdentifiedBlocksAreFirstIds | extension/contentScript.js:226-231 | each identified block is a visited block paired with its first `videoId`, and every visited block with a `videoId` is identified |
| VideoScanner.RecordsOfEntries | extension/contentScript.js:258 | one record per kept entry, built from that entry's block and id |
| VideoScanner.KeptRecordIdsDistinct | extension/contentScript.js:232-258 | for any builder that keys a record by its id, the collected records have distinct ids |
| VideoScanner.KeptRecordsFromBlocks | extension/contentScript.js:226-258 | every collected record is built from a visited block and that block's first id |
| VideoScanner.FirstIdIsKept | extension/contentScript.js:226-233 | the first id of every visited block is among the kept ids |
| VideoScanner.KeptRecordsCoverIds | extension/contentScript.js:226-258 | the first `videoId` of every visited block has a collected record |
| VideoScanner.LiveVideosAreFirstPerId | extension/contentScript.js:219-273 | the returned list has distinct ids; each record is built from a block of the page and its first id; the first `videoId` of every block of the page is in the list |
| VideoScanner.LiveVideosKeepFirstBlockPerId | extension/contentScript.js:226-272 | the i-th returned record is built from the i-th block whose first id is not the first id of any earlier block, and from that id |
| VideoScanner.NoRendererNoVideos | extension/contentScript.js:221-272 | a page where the renderer pattern never matches yields an empty list |
| VideoScanner.IdentifiedBlocksSnoc | extension/contentScript.js:226-231 | identifying one more block appends its entry, or nothing when it has no id |
| VideoScanner.KeepFirstSnoc | extension/contentScript.js:232-258 | one more entry is kept exactly when its id is new, and adds its record at the end |
| VideoScanner.MirrorsInsert | extension/contentScript.js:258 | `results.set` of a new id appends that id to the Map's insertion order |
| VideoScanner.ValuesInOrder | extension/contentScript.js:272 | `Array.from(results.values())` lists each key's record in insertion order |
| VideoScanner.VisitBlock | extension/contentScript.js:225-269 | one turn of the loop body keeps the Map equal to the records of the first-seen ids of the blocks visited so far |
| VideoScanner.ParseLiveVideosFromHtml | extension/contentScript.js:219-273 | the imperative exec loop over the page returns exactly `LiveVideos(html)` |
| LoginGate.SignInLinkIgnored | extension/contentScript.js:176-179 | the sign-in link never changes the signed-in verdict |
| LoginGate.LoggedInIffAccountSignal | extension/contentScript.js:179 | signed in exactly when the avatar button or the "You" entry is present |
| LoginGate.LiveHelper.constructor | extension/contentScript.js:18-19 | `isLoggedIn` starts null and the list starts empty |
| LoginGate.LiveHelper.FetchLiveVideos | extension/contentScript.js:188-217 | an ok response makes the list and the screen `LiveVideos(body)` with the count message; a failed one leaves both as they were and reports the status |
| LoginGate.LiveHelper.CheckLoginAndFetch | extension/contentScript.js:160-172 | a signed-out page gets the sign-in prompt and an empty screen, with no request and `isLoggedIn` untouched; a signed-in page sets `isLoggedIn` and fetches |
| LoginGate.LiveHelper.Refresh | extension/contentScript.js:95-98 | a fetch happens only when `isLoggedIn` is true; otherwise nothing changes |

## Left out

- The panel UI: creating and collapsing the panel, `renderList`'s DOM
  output, `updateLoginStatus`, `updateFetchStatus`, and console logging.
  `displayed` stands for the list last passed to `renderList`, and
  `message` for the final text of the message line.
- Overlapping requests. `fetchLiveVideos` is asynchronous, and neither
  `checkLoginAndFetch` nor the refresh button waits for it or guards
  against a request still pending. A refresh click during a pending
  request starts a second one, and whichever response resolves last sets
  the list, possibly the older one. Here each fetch runs start to finish
  as one call, so requests never overlap. Only the message a fetch ends
  with is modelled, not the "requesting" message it shows while waiting.
- The network. The response is a parameter. A `fetch` that rejects, or a
  `response.text()` that rejects, is not modelled: it also ends in the
  failure message and leaves the list alone, like a response that is not
  ok. The error text carries the exception's message, which is reduced
  here to the status.
- Chat download and the chat viewer (`downloadChatMessages` and what it
  calls), initialisation and the re-initialisation guard.
- `formatDateTime` and the `Date` object: `scheduledStart` is the
  timestamp in milliseconds passed to `new Date`. Above 8.64e15
  milliseconds that Date is invalid, though still not null.
- VideoScanner.ScheduledStartIsFirstStartTime: `Number(digits) * 1000` is
  read exactly, with "finite" meaning below 2^1024 - 2^970. The rounding
  of a decimal string to a double is not modelled, so values above 2^53
  are exact here, and the bound is that of the exact product.
- TextDecoding.ExtractTextFieldPrefersSimpleText: the key is treated as
  literal text. The source splices it into a regular expression, which is
  the same for the three plain-word keys the scraper passes.
- The optional `upcomingEventType` group of the start-time pattern. It is
  never read and does not change whether or what the first group matches.
- `JsonParseString` covers only texts that begin with a quote, the only
  kind `decodeText` builds. Leading whitespace and non-string JSON values
  do not arise.
- Lit: a literal character outside the Basic Multilingual Plane would
  need two code units. No literal of the script has one, so Lit maps each
  character to one unit.
- Pagination, continuation requests and throttling do not appear in this
  script. Only the first page's HTML is scanned.
