# Presentation listing and chat helper, modelled in Dafny

This project models two parts of a markdown slide editor:

- **The listing endpoint** (`GET` of `app/api/presentations/route.ts`).
  It reads the presentations directory and keeps the `.md` files.
  For each file it builds a summary:
  - the slug: the file name without `.md`;
  - the title: the frontmatter title, or a title made from the slug;
  - the author and date, taken from the frontmatter;
  - an excerpt: the first body line that is not blank and starts with neither `#` nor `---`, cut at 150 characters.

  The summaries are sorted so that later dates come first.
  A missing directory answers an empty list.
  Any read failure answers the "Failed to load presentations" error.
- **The chat helper** (`app/components/PresentationChat.tsx`).
  It keeps a message log, an input line, a loading flag, the text streamed so far and an "apply" flag.
  - *Submit* sends the trimmed input and streams the answer into the log.
  - *Apply* pulls markdown out of the latest assistant answer and hands it to the editor.
    It tries a ```` ```markdown ```` block, then a ```` ```md ```` block, then any fenced block.
    If none matches, it takes the whole text when that contains `#`, `---` or a fence.
  - *Clear* empties the conversation and aborts a pending request.

Files:

- `text.dfy` (module `Text`): the JavaScript string builtins the two parts rely on, each specified by what it returns.
  - `trim`, with the ECMAScript whitespace set;
  - `startsWith`, `endsWith`, `includes`;
  - `split` on one character, with both join round trips;
  - `FindFrom`, an `indexOf`-style search from a position, with which the model implements the three regular expressions.
- `presentations.dfy` (module `PresentationList`): the listing pipeline as pure functions.
  The directory listing and the parsed files are inputs.
- `chat.dfy` (module `ChatHelper`):
  - the markdown extraction, as pure functions;
  - the component state, as the class `ChatPanel`.
    - `Submit` contains the streaming loop, split out as `Stream`, whose invariant ties the streamed text to the chunks received so far.
    - The regular expressions `` /open([\s\S]*?)```/ `` are stated declaratively as a leftmost, lazy match (`IsBlockMatch`, `IsFirstBlock`).
      The model finds the match with `FindFrom`, and this search is proved to find exactly that match.

Three details of the listing code that are easy to misread:

- **Excerpt ellipsis.** The `...` is added when the cut prefix is 150 characters long.
  So a line of exactly 150 characters gets the marker even though nothing was cut.
- **Heading and rule test.** `#` and `---` are tested on the untrimmed line.
  An indented heading therefore qualifies as an excerpt, and so does an indented rule such as `  ---`.
- **Sort order.** The comparator orders only pairs that both have a date; every other pair compares equal.
  The comparator is consistent only in two cases: every summary is dated, or all dated summaries share one date (it is then always 0).
  Only then does ECMAScript (2019 and later) promise a stable sort, so only then do summaries with the same date keep their listing order.
  Dates are often day-level, so such ties are common.
  The order is therefore promised only in those two cases: newest first with ties in listing order, or the listing order itself.

## Model

| member | source | states |
|---|---|---|
| Text.Trim | app/components/PresentationChat.tsx:33-35 | `trim`: the result has no whitespace at either end, and it is empty exactly when the input is all whitespace |
| Text.TrimIsInfix | app/components/PresentationChat.tsx:116 | what `trim` keeps is a contiguous infix of the input, with only whitespace before and after it |
| Text.TrimIdempotent | app/components/PresentationChat.tsx:116 | trimming an already trimmed text changes nothing |
| Text.FindFrom | app/components/PresentationChat.tsx:111-113 | the search with which the three lazy regular expressions are matched: the first occurrence at or after a position, or none anywhere after it |
| Text.ContainsIffFound | app/components/PresentationChat.tsx:120 | `includes` holds exactly when the search from position 0 finds an occurrence |
| Text.ContainsChar | app/components/PresentationChat.tsx:120 | a one-character pattern occurs exactly when the character is in the text |
| Text.Split | app/api/presentations/route.ts:26 | `split('\n')`: at least one piece, no piece holds a newline, and joining the pieces with newlines gives the text back |
| Text.SplitWithoutSeparator | app/api/presentations/route.ts:26 | a text without a newline splits into itself alone |
| Text.SplitAfterPiece | app/api/presentations/route.ts:26 | a newline-free piece followed by a newline becomes the first piece of the split |
| Text.SplitJoin | app/api/presentations/route.ts:26 | the reverse round trip: newline-free pieces joined with newlines split back into the same pieces |
| PresentationList.MarkdownFiles | app/api/presentations/route.ts:17 | the filter keeps only names ending in `.md`, and keeps each of them exactly as often as it is listed |
| PresentationList.MarkdownFilesAppend | app/api/presentations/route.ts:17 | the filter keeps the listing order: filtering a concatenation is concatenating the filtered parts |
| PresentationList.MarkdownFilesSingle | app/api/presentations/route.ts:17 | a single name is kept exactly when it ends in `.md`; with the order lemma this fixes the filter's result completely |
| PresentationList.SlugOf | app/api/presentations/route.ts:19 | the slug of a `.md` file with `.md` appended is the file name; other names are unchanged |
| PresentationList.ExcerptLineIffTrimmed | app/api/presentations/route.ts:27 | the line test is exactly `line.trim()` non-empty, no leading `#` and no leading `---` on the untrimmed line |
| PresentationList.IsExcerptLine | app/api/presentations/route.ts:27 | the `find` test on one line: not blank, no leading `#`, no leading `---`; `ExcerptLineIffTrimmed` ties it to `trim` |
| PresentationList.FirstExcerptLine | app/api/presentations/route.ts:27 | `find`: the index of the first line that is not blank and starts with neither `#` nor `---`, or none when no line qualifies |
| PresentationList.Shorten | app/api/presentations/route.ts:28-35 | a line under 150 characters is kept; a longer line, or one of exactly 150 characters, becomes its first 150 characters plus `...`; never more than 153 characters |
| PresentationList.Excerpt | app/api/presentations/route.ts:25-35 | the excerpt is the shortened first qualifying line of the body, at most 153 characters long, and it is empty exactly when no line qualifies |
| PresentationList.ToUpper | app/api/presentations/route.ts:32 | `toUpperCase` on a `\w` character maps `a`..`z` to `A`..`Z` and leaves every other character alone |
| PresentationList.ReplaceHyphens | app/api/presentations/route.ts:32 | every hyphen becomes a space and every other character is kept, at the same position |
| PresentationList.CapitalizeWords | app/api/presentations/route.ts:32 | `/\b\w/g` upper-cases exactly the word characters that do not follow a word character; the rest is kept |
| PresentationList.TitleFromSlug | app/api/presentations/route.ts:32 | the fallback title has the slug's length and no hyphen; at each position it holds a space for a hyphen, the upper-cased character where a word starts, and the slug's character otherwise |
| PresentationList.CapitalizeSpacedAt | app/api/presentations/route.ts:32 | the position-by-position description of hyphen replacement followed by capitalisation, in terms of the slug |
| PresentationList.TitleFromSlugExample | app/api/presentations/route.ts:32 | the slug `my-talk` gets the title `My Talk` |
| PresentationList.Summarise | app/api/presentations/route.ts:18-36 | a summary's slug is the file's slug, and with `.md` it is the file name; its title is the frontmatter title when that is truthy in JavaScript's sense (`IsTruthy`: present and not the empty string), else the title made from the slug (`TitleFromSlug`), hyphen-free and of the slug's length; author and date are passed through; its excerpt is the body's excerpt, at most 153 characters |
| PresentationList.CompareByDate | app/api/presentations/route.ts:38-43 | the comparator is 0 unless both dates are present; then it is negative exactly when the first date is later, and 0 exactly when the dates are equal |
| PresentationList.InsertByDate | app/api/presentations/route.ts:38-43 | an insertion step of the sort adds exactly the one summary |
| PresentationList.SortByDate | app/api/presentations/route.ts:38-43 | the sorted answer is a permutation of the summaries |
| PresentationList.InsertByDateNewestFirst | app/api/presentations/route.ts:38-43 | inserting a dated summary into a dated newest-first sequence keeps it newest first |
| PresentationList.SortByDateNewestFirst | app/api/presentations/route.ts:38-43 | when every summary has a date, the answer is ordered from the latest date to the earliest |
| PresentationList.WithDateAppend | app/api/presentations/route.ts:38-43 | the summaries with a given date in two concatenated sequences are those of the first followed by those of the second |
| PresentationList.InsertByDateStable | app/api/presentations/route.ts:38-43 | an insertion step puts the new summary before every summary already there with its own date, and leaves the order among each date's summaries alone |
| PresentationList.PassOverStable | app/api/presentations/route.ts:38-43 | carrying the new summary past one with a different date keeps the per-date order of the insertion |
| PresentationList.SortByDateStable | app/api/presentations/route.ts:38-43 | the model's sort is stable: for every date, and for the undated ones, the summaries with that date appear in the answer in their listing order (what ECMAScript promises when every summary is dated, and the model's choice when the comparator is inconsistent) |
| PresentationList.SortByDateKeepsOrderWhenDatesAgree | app/api/presentations/route.ts:38-43 | when any two dated summaries have the same date (in particular when at most one is dated), the comparator is always 0 and the listing order is kept |
| PresentationList.SummariseAll | app/api/presentations/route.ts:16-37 | one summary per markdown file, in the order of the files |
| PresentationList.ListPresentations | app/api/presentations/route.ts:6-53 | a missing directory answers an empty list; an unlistable directory answers the load failure; a listed answer means every markdown file was read, and it holds exactly the files' summaries |
| PresentationList.ListPresentationsOrder | app/api/presentations/route.ts:16-43 | a listed answer is newest first when every summary is dated, with same-date summaries in directory-listing order; when all dated summaries share one date the answer is the summaries in directory-listing order; in every other case it still keeps each date's summaries in listing order, which is the model's stable sort and not something a JavaScript engine promises for an inconsistent comparator |
| PresentationList.ListPresentationsFailsIffUnread | app/api/presentations/route.ts:16-51 | for a listable directory, the answer is the load failure exactly when some listed `.md` file could not be read |
| PresentationList.ListPresentationsSummaries | app/api/presentations/route.ts:16-45 | a listed answer has one summary per markdown file; each summary's slug with `.md` is a listed name, and each excerpt is at most 153 characters |
| ChatHelper.LastAssistant | app/components/PresentationChat.tsx:101-106 | the index of the latest assistant message, with no assistant message after it, or none when the log has no assistant message |
| ChatHelper.FindBlock | app/components/PresentationChat.tsx:111-113 | the block found by searching for the first opener and then the first fence after it is the leftmost, lazy match of the regular expression; when nothing is found, the expression matches nowhere |
| ChatHelper.FirstBlockUnique | app/components/PresentationChat.tsx:111-113 | the leftmost lazy match is unique: one start and one closing fence |
| ChatHelper.BlockBody | app/components/PresentationChat.tsx:111-116 | the captured group: none exactly when the expression matches nowhere, and otherwise the text between the opener and the closing fence of the leftmost match |
| ChatHelper.BlockMatchHasFence | app/components/PresentationChat.tsx:111-120 | a text in which any of the three block expressions matches contains a fence |
| ChatHelper.FencedBody | app/components/PresentationChat.tsx:111-113 | the chain of the three patterns, tried in order, finds nothing exactly when none of the three expressions matches anywhere, and a found body implies a fence in the text |
| ChatHelper.LooksLikeMarkdown | app/components/PresentationChat.tsx:120 | the fallback test holds exactly when the text has a `#`, or the search finds `---` or a fence |
| ChatHelper.ExtractFromContent | app/components/PresentationChat.tsx:108-124 | an assistant message yields markdown exactly when it contains `#`, `---` or a fence, and what it yields is trimmed |
| ChatHelper.MarkdownFenceFirst | app/components/PresentationChat.tsx:111-116 | a ```` ```markdown ```` block wins over every other pattern; its trimmed body is the result |
| ChatHelper.MdFenceSecond | app/components/PresentationChat.tsx:112-116 | without a ```` ```markdown ```` block, a ```` ```md ```` block wins; its trimmed body is the result |
| ChatHelper.PlainFenceThird | app/components/PresentationChat.tsx:113-116 | without either, the trimmed body of the first plain fenced block is the result |
| ChatHelper.NoFenceFallback | app/components/PresentationChat.tsx:119-124 | when no pattern matches, the result is the whole trimmed text if it contains `#`, `---` or a fence, and none otherwise |
| ChatHelper.ExtractMarkdown | app/components/PresentationChat.tsx:100-106 | a log without an assistant message yields nothing |
| ChatHelper.ExtractReadsLatestAssistant | app/components/PresentationChat.tsx:100-108 | the extraction is that of the latest assistant message alone |
| ChatHelper.ExtractIgnoresUserMessage | app/components/PresentationChat.tsx:101-104 | appending a user message does not change what is extracted |
| ChatHelper.ExtractSeesLatestReply | app/components/PresentationChat.tsx:101-108 | after an assistant message is appended, only that message is extracted from |
| ChatHelper.NoMarkerCharNoMarkdown | app/components/PresentationChat.tsx:120 | a text without `#`, `-` or a backquote does not pass the markdown test |
| ChatHelper.ApologyHasNoMarkdown | app/components/PresentationChat.tsx:88-91 | the apology logged on a failure yields no markdown |
| ChatHelper.Concat | app/components/PresentationChat.tsx:69-78 | the text accumulated with `+=` ends with the last chunk received |
| ChatHelper.ConcatPrefix | app/components/PresentationChat.tsx:69-78 | every text shown while streaming is a prefix of the final answer |
| ChatHelper.Reply | app/components/PresentationChat.tsx:80-92 | a request adds at most one message, always an assistant one: the streamed answer after a completed stream, the apology after a failure, nothing exactly after an abort |
| ChatHelper.ConcatAppend | app/components/PresentationChat.tsx:69-78 | the answer accumulated from two runs of chunks is the first run's answer followed by the second's |
| ChatHelper.ConcatFirst | app/components/PresentationChat.tsx:69-78 | the accumulated answer is the first chunk followed by the answer of the remaining chunks |
| ChatHelper.ExtractAfterRequest | app/components/PresentationChat.tsx:80-92 | after a request, apply reads the streamed answer if the stream completed, nothing if it failed, and the earlier conversation if it was aborted |
| ChatHelper.ChatPanel.constructor | app/components/PresentationChat.tsx:23-29 | the panel starts with an empty log, an empty input, the apply button hidden and no request in flight |
| ChatHelper.ChatPanel.SetInput | app/components/PresentationChat.tsx:259 | typing replaces the input and changes nothing else |
| ChatHelper.ChatPanel.Submit | app/components/PresentationChat.tsx:31-98 | a blank input or a loading panel sends nothing and changes nothing; otherwise the trimmed input is sent and cleared; the log gains the user message and then the reply; the apply button shows exactly after a completed stream; the panel ends idle |
| ChatHelper.ChatPanel.Stream | app/components/PresentationChat.tsx:66-78 | the loop accumulates the chunks in order and shows the accumulated text as streamed content; nothing else changes |
| ChatHelper.ChatPanel.Settle | app/components/PresentationChat.tsx:80-97 | the log gains the answer after a completed stream, the apology after a failure, and nothing after an abort; the apply button shows after a completed stream; the panel ends idle |
| ChatHelper.ChatPanel.Apply | app/components/PresentationChat.tsx:127-133 | the extraction is handed to the editor exactly when it is a non-empty string, and then the apply button is hidden; otherwise nothing changes |
| ChatHelper.ChatPanel.Clear | app/components/PresentationChat.tsx:135-144 | the log, streamed text and input are emptied, the apply button is hidden, and a pending request is aborted; the loading flag is untouched |

## Left out

- File system and parsing.
  `fs.existsSync`, `readdirSync`, `readFileSync` and `gray-matter` are not executed.
  Their results are inputs: `Listing`, and a map from file name to parsed file.
  Any exception in reading or parsing a file is modelled as that file missing from the map.
- Frontmatter values.
  Titles and authors are strings or absent; dates are integer timestamps or absent.
  Not modelled:
  - non-string YAML values;
  - the raw `date` value returned in the JSON;
  - the `NaN` that `Date` gives for an unparsable date.
- PresentationList.ListPresentations: states the listed summaries as a permutation of the files' summaries, not one exact order.
  When some summaries are undated and the dated ones have at least two different dates, the comparator is inconsistent.
  The whole order `Array.prototype.sort` then produces is engine-defined, including the order among summaries of the same date.
  The model sorts with a stable insertion sort.
  `ListPresentationsOrder`'s per-date clause is therefore, in that case, a property of the model's sort only.
  The order matches what ECMAScript promises only in the two consistent cases: all dated, or all dated summaries sharing one date.
- PresentationList.Shorten: counts characters as Unicode scalar values, not UTF-16 code units.
  A line with characters outside the Basic Multilingual Plane is cut at a different place than `substring(0, 150)` would.
- JSON serialisation, the HTTP status 500, `NextResponse` and `console` logging are not modelled.
  The failure answer is the single value `LoadFailed`.
- The network request.
  `fetch`, the `/api/chat` endpoint, `TextDecoder` and `AbortController` are not modelled.
  The outcome of a request, meaning the decoded chunks and how the stream ended, is a parameter of `ChatPanel.Submit`.
  The current document sent along with the prompt is not modelled.
- ChatHelper.ChatPanel.Submit: runs as one atomic step.
  React's interleaving of other handlers during the `await`s is not modelled.
  A `clearChat` during a request is represented as that request ending `Aborted`, followed by `Clear`.
  Stale closures of `useCallback` are not modelled.
- `onApplyContent` is not called; `ChatHelper.ChatPanel.Apply` returns the text it would be handed.
- Rendering, the `isOpen` toggle, icons and styling are left out; they hold no logic.
