# AI satirical senryu generator — a Dafny model

The system publishes one satirical senryu (a 5-7-5 poem) a day. A
generator script takes the first item of a Yahoo! News RSS feed and
reads its headline and link. It asks a language model for a poem and a
short explanation about that headline, cleans up the reply and parses it
as JSON. It then writes a five-field daily record: date, poem,
explanation, headline and link. A browser page fetches the record and
shows the poem one paragraph per line, along with the explanation and
the source headline. Its share button builds a post holding the poem on
one line, between a fixed header and a fixed set of hashtags.

The model has four files:

- `strings.dfy`. Module `Wrappers` holds `Option` and `Result`. Module
  `Strings` holds the JavaScript string operations the program relies
  on: `split` with a string separator, global single-character
  `replace`, and `trim` with its full whitespace and line-terminator
  set. It also has the counting and joining functions used to state
  properties of those operations.
- `matching.dfy` (`LazyMatch`). The two regular-expression shapes the
  generator uses, written out as explicit searches:
  - `text.match(/OPEN(.*?)CLOSE/)` finds the leftmost match with the
    shortest group, where `.` matches no line terminator.
  - `text.replace(/OPEN(.*?)CLOSE/g, '$1')` replaces every match, left
    to right, by its group.
- `generator.dfy` (`Generator`). The generation run, up to the file
  write, as a pure function:
  - first-item selection;
  - headline extraction with CDATA unwrapping;
  - the code-fence sanitizer for the model's reply;
  - building the record.

  Three things enter as parameters: the feed text, a reply function
  `ask` standing for the language-model call, and a parser `parse`
  standing for `JSON.parse`.
- `page.dfy` (`Page`). The page script. Its display elements and the
  share text are the fields of the class `SenryuPage`. Its methods
  render a record, show the fallback on failure, load a fetched record
  and build the share message. `PoemHtml` builds the poem markup with
  the same loop as the script.

The model follows the code where it departs from what one might expect.
A reply that lacks the poem or the explanation might be expected to end
the run. The code never checks those fields, though, so it writes the
record anyway, and `JSON.stringify` drops a missing key. The
model therefore keeps both fields as `Option`, and
`Generator.MissingPoemIsWritten` states this behaviour. On the page, a
record without a poem makes `renderSenryu` throw before it changes
anything, and the fallback is shown (`Page.SenryuPage.Load`). A missing
explanation is shown as the text `undefined`.

## Model

| member | source | states |
|---|---|---|
| Strings.Split | generator.js:27 | `split` with a non-empty separator yields at least one piece, and no piece contains the separator |
| Strings.JoinSplit | script.js:45 | splitting loses nothing: joining the pieces with the separator gives back the text |
| Strings.SplitCharCount | script.js:45 | splitting on one character yields one more piece than the character's occurrences |
| Strings.SplitPartsAvoid | script.js:45 | a pattern absent from the text is absent from every piece |
| Strings.CountOccurrencesAppend | script.js:47-50 | generic counting fact behind the `<p>` count: occurrences of a self-overlap-free pattern in a concatenation add up, when the right part begins with the pattern's first character |
| Strings.CountWithoutLead | script.js:47-50 | generic counting fact behind the `<p>` count: text lacking a pattern's first character holds no occurrence of it |
| Strings.ReplaceChar | script.js:53 | a global one-character `replace` keeps the length and changes exactly the occurrences of that character |
| Strings.ReplaceCharIsSplitJoin | script.js:53 | replacing a character is the same as splitting on it and joining with the replacement |
| Strings.WhitespaceEnd | generator.js:88 | the forward scan passes over whitespace only and stops at the first non-whitespace character or the end |
| Strings.WhitespaceStart | generator.js:88 | the backward scan passes over whitespace only and stops after the last non-whitespace character, or at its lower bound |
| Strings.Trim | generator.js:88 | the result has whitespace at neither end and is no longer than the input |
| Strings.TrimRemovesOnlyWhitespace | generator.js:88 | the input is the result with whitespace before and after it |
| Strings.TrimSurrounded | generator.js:91 | trimming whitespace-padded text that has no whitespace at either end gives back that text |
| Strings.TrimIdempotent | generator.js:91-93 | trimming twice is trimming once |
| LazyMatch.LazyEnd | generator.js:34-35 | the lazy group ends at the nearest closing tag, with no line terminator and no earlier closing tag before it; if there is no result, no reachable closing tag exists |
| LazyMatch.LazyEndIs | generator.js:34-35 | the nearest reachable closing tag is the one `LazyEnd` finds |
| LazyMatch.MatchAt | generator.js:34-35 | a match starting at a position exists exactly when the opening tag is there and a closing tag is reachable without crossing a line |
| LazyMatch.FindFrom | generator.js:34-35 | the match found is a valid match, and no match starts at any earlier position |
| LazyMatch.Capture | generator.js:34-35 | the capture is the group of the leftmost match; it is single-line and free of the closing tag; there is no capture exactly when no position starts a match |
| LazyMatch.CaptureOf | generator.js:34-35 | the text between the first opening tag and the closing tag after it is captured exactly, when it is single-line and holds no closing tag |
| LazyMatch.UnwrapFrom | generator.js:43 | the global replace only ever removes characters |
| LazyMatch.UnwrapAbsent | generator.js:43 | text without the opening marker is left unchanged |
| LazyMatch.UnwrapSingleLine | generator.js:43 | unwrapping keeps single-line text single-line |
| LazyMatch.UnwrapWrapped | generator.js:43 | text wrapped once in the markers unwraps back to itself |
| Generator.FirstItem | generator.js:27-33 | there is no first item exactly when the feed has no `<item>`, and the item found holds no `<item>` |
| Generator.FirstItemAfter | generator.js:27-33 | the first item is read from the text after the first `<item>` |
| Generator.FirstItemIsFirstBlock | generator.js:27-33 | the first item is exactly the text between the first `<item>` and the next one, or the end |
| Generator.UnwrapCData | generator.js:43 | CDATA unwrapping only removes characters from the title |
| Generator.UnwrapCDataOfWrapped | generator.js:43 | a title in one CDATA section unwraps to its text |
| Generator.UnwrapCDataOfPlain | generator.js:43 | a title without CDATA is kept as it is |
| Generator.ExtractHeadline | generator.js:27-45 | `NoNews` exactly when the feed has no `<item>`; the only failures are `NoNews` and `UnreadableNews`; the headline and link are single-line, and the link holds no `</link>` |
| Generator.ExtractHeadlineOfItem | generator.js:34-45 | extraction fails with `UnreadableNews` exactly when the title or link capture fails; otherwise it returns the unwrapped title and the link |
| Generator.ExtractHeadlineOfFeed | generator.js:27-45 | for a feed whose first item holds a one-line title and link, the headline is exactly the CDATA-unwrapped title text and the link text |
| Generator.HeadlineIgnoresChannel | generator.js:27-35 | text before the first `<item>` has no effect on the headline |
| Generator.DropTrailingFence | generator.js:91-93 | one closing fence at the very end is removed, and nothing else |
| Generator.StripFences | generator.js:88-94 | the sanitized reply has no whitespace at either end; a reply that does not start with a fence is only trimmed |
| Generator.StripJsonFence | generator.js:90-91 | a reply fenced with a `json` opening fence yields its trimmed inside |
| Generator.StripPlainFence | generator.js:92-93 | a reply fenced without the `json` tag yields its trimmed inside |
| Generator.StripUnclosedFence | generator.js:92-93 | a reply that opens with a fence but never closes it yields the trimmed text after the fence |
| Generator.StripRemovesOneFence | generator.js:92-93 | only one fence is removed at each end |
| Generator.StripFencedBlock | generator.js:88-91 | the usual fenced JSON block sanitizes to the JSON text |
| Generator.BuildRecord | generator.js:99-105 | the record carries the date, the parsed poem and explanation, and the headline and link |
| Generator.GenerateDailySenryu | generator.js:19-105 | no item gives `NoNews`; an extraction failure is propagated; a record built from the headline and the parsed reply exactly when extraction, the request and the parse all succeed; `GenerationFailed` exactly when the headline was read but the request for it failed; `MalformedReply` exactly when the reply came back but its sanitized text does not parse; a record is produced only from the extracted headline, the reply to its title and the parse of the sanitized reply, and its headline and link are single-line |
| Generator.MissingPoemIsWritten | generator.js:96-105 | a parsed reply without a poem still produces a record, with the poem missing |
| Page.PoemLines | script.js:45 | the poem has one line more than it has newlines; the lines joined with newlines give back the poem; no line holds a newline |
| Page.PoemLinesOfLines | script.js:45 | newline-free lines joined by newlines split back into the same lines |
| Page.PoemHtml | script.js:45-50 | the loop builds the senryu-text block holding one paragraph per line, in order |
| Page.ParagraphsTagCount | script.js:47-49 | the paragraphs hold one `<p>` per line |
| Page.PoemHtmlTagCount | script.js:44-50 | the poem markup holds one `<p>` per line, which is the newline count plus one, when the poem itself holds no `<p>` |
| Page.ShareLine | script.js:53 | the share text has the poem's length, has every newline replaced by a space and nothing else changed, and holds no newline |
| Page.ShareLineJoinsLines | script.js:52-53 | the share text is the poem's lines joined with spaces |
| Page.SenryuPage.constructor | script.js:13 | the page starts with no share text |
| Page.SenryuPage.Render | script.js:43-75 | without a poem the call fails and changes nothing. Otherwise: the poem markup and share text come from the poem; the explanation is shown (`undefined` if missing); the news block is replaced only when both headline and link are non-empty; sharing is enabled |
| Page.SenryuPage.ShowFallback | script.js:28-39 | shows the fixed apology poem and explanation, and nothing else changes |
| Page.SenryuPage.Load | script.js:16-40 | a fetched record with a poem is rendered: poem markup, share text, explanation, the news block under the same guard as rendering, and sharing enabled. Any failure, including a missing poem, shows the fallback and leaves the share text, the news block and the share button unchanged |
| Page.SenryuPage.ShareToX | script.js:78-93 | nothing is shared when there is no share text; otherwise the message is the header, the share text and the hashtags |
| Page.LoadThenShare | script.js:13-96 | on a fresh page, sharing after a load posts the poem on one line exactly when a non-empty poem was loaded |

## Left out

- Network access is not modelled. The RSS fetch, the page's fetch of the record and the language-model request, with its HTTP status check and the nesting of its reply body, are not part of the model. The feed text, `ask` (`None` for any failure of the request) and the page's `Option<DailyRecord>` input stand in for them.
- `JSON.parse` is the parameter `parse`. A parse that throws is `MalformedReply`. `JSON.stringify` and the file's layout are not modelled: the record is a value, and the page receives that same value.
- The prompt text is not modelled. `ask` receives the headline title, which is the only varying part of the prompt.
- File-system effects are not modelled: creating the data directory and writing the file.
- The date is a parameter. The ISO date formatting, the page's localized date display and the cache-busting timestamp are not modelled.
- Environment handling is not modelled: loading `.env`, the missing-API-key guard, and trimming the key.
- Console logging is not modelled.
- Page effects beyond the modelled fields are not modelled: styles, the fade-in, the click listener, `window.location`, `encodeURIComponent` and `window.open`.
- Page.SenryuPage.Render: applies the display changes at once. The script applies the poem, explanation and news markup after a 300 ms delay, while the share text and the button change immediately.
- Strings are sequences of characters. JavaScript's UTF-16 code units are not distinguished from characters.
- The record fields are strings or missing. Non-string JSON values, such as a numeric poem or a `null` explanation, are not modelled.
- Page.PoemHtmlTagCount: holds only when the poem holds no `<p>`. The poem is inserted as markup without escaping, so a `<p>` in the poem's own text adds to the count.
- Generator.ExtractHeadline: does not state that the title lacks `</title>`. That holds of the captured text before CDATA unwrapping (`LazyMatch.Capture`), not of the unwrapped headline.
- Generator.StripFences: does not state that the result is no longer than the reply.
