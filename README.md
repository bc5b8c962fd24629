# Transcript-to-article pipeline of `YouTubeVideosHandler`

This project models the transcript-to-article pipeline of the handler in
`clients.py`. The handler takes a video link or id, picks a caption track in
an accepted language and merges its caption fragments into sentences. It
reads chapter timestamps such as `3:45` out of the video description. It then
lays the sentences out as paragraphs that break at those chapter boundaries,
and cleans up the result.

The modules follow the stages of the pipeline:

- `Wrappers` (`wrappers.dfy`): `Option` and `Result`.
- `Captions` (`captions.dfy`): caption fragments, tracks and sentences. Times
  are whole centiseconds. With them the source's `round(x, 2)` on seconds is
  the identity, and its 2.0 s tolerance is 200.
- `TrackSelection` (`track_selection.dfy`): `_get_video_subs`, a search loop
  with an early return, proved against the recursive `SelectTrack`.
- `SentenceAssembly` (`sentences.dfy`): `_convert_to_sentences`, an
  accumulator loop proved against the recursive `Assemble`.
- `ChapterBoundaries` (`chapters.dfy`): the parsing part of `_get_timestamps`.
  It models `re.findall("\d{1,2}:\d{2}")` as a leftmost, non-overlapping
  scan and proves that the scan skips nothing.
- `Cleanup` (`cleanup.dfy`): `strip("_- ")` followed by
  `re.sub(r"\(.*?\) ", "", …)`.
- `ParagraphReflow` (`reflow.dfy`): the reflow loop of `_generate_text`,
  including its `continue`, proved against the one-step function `Step` and
  its iteration `Run`.
- `VideosHandler` (`handler.dfy`): the id extraction and the HTML rewrite in
  `__call__`, and `Handle`, which composes the stages over already-fetched
  data.

Behaviour of the code worth noting:

- **Start times.** The start of the next sentence is set to the duration just
  computed (`clients.py:114`), not to the end of the previous sentence.
  `SentenceStartsChain` states the chaining that holds. `SentenceEndsAreExact`
  shows that sentence end times stay exact. `StartsDriftExample` shows that
  from the third sentence on, a start can differ from the previous end.
- **Example duration.** For `("Hello", 0, 2), ("world.", 2, 1)` the code gives
  a duration of 3 s (`HelloWorldExample`): from the sentence's start to its
  closing fragment's end.
- **Idempotence.** The cleanup is not idempotent. `CleanNotIdempotent` shows
  that `"-(x) -b"` cleans to `"-b"`, and a second cleanup turns that into
  `"b"`.
- **Empty track.** An accepted track with no fragments makes the source fail
  with `IndexError` at `video_subs[-1]`. Here that is the error result
  `EmptyTranscript`.

## Model

| member | source | states |
|---|---|---|
| TrackSelection.SelectTrack | clients.py:65-68 | reference definition of the selection: the fragments of the first track, in key order, whose code is accepted, or none |
| TrackSelection.SelectTrackIsFirstAllowed | clients.py:65-68 | the selected fragments are those of the first track, in key order, whose code is accepted; the result is none exactly when no code is accepted |
| TrackSelection.GetVideoSubs | clients.py:61-68 | the search loop with early return yields exactly the selection characterised above |
| TrackSelection.NoAllowedTrackExample | clients.py:17 | a track set holding only `fr` yields none with the accepted codes `en-GB`, `en`, `en-US`, `ru` |
| SentenceAssembly.Terminated | clients.py:101 | a fragment's raw text ends in `.`, `!` or `?` |
| SentenceAssembly.SpaceNewlines | clients.py:100 | each line break becomes a space and every other character stays in place; the length is kept and no line break is left |
| SentenceAssembly.Piece | clients.py:100 | what one fragment adds to the pending text: its text with line breaks as spaces, then a space |
| SentenceAssembly.Assemble | clients.py:91-115 | reference definition of the assembly loop; it yields at most one sentence per fragment |
| SentenceAssembly.NoNewlinesUnchanged | clients.py:100 | text without line breaks is unchanged by the replacement |
| SentenceAssembly.ConvertToSentences | clients.py:91-115 | the accumulator loop produces exactly the sentence list of the assembly starting with empty text at time 0 |
| SentenceAssembly.SentenceEndsAreExact | clients.py:101-110 | one sentence per fragment whose raw text ends in `.`, `!` or `?`, and each sentence ends where its closing fragment ends |
| SentenceAssembly.SentenceStartsChain | clients.py:97-114 | the first sentence starts at the initial start time; each later sentence starts at the previous sentence's duration |
| SentenceAssembly.LastClosed | clients.py:101 | the length of the longest prefix ending in a terminated fragment: that fragment is terminated and none after it is |
| SentenceAssembly.TextsThenLeftover | clients.py:99-113 | the sentence texts followed by the text still pending at the end are everything accumulated |
| SentenceAssembly.LeftoverIsOpenRun | clients.py:99-115 | the dropped pending text is the unterminated run after the last terminated fragment |
| SentenceAssembly.NothingClosedNothingEmitted | clients.py:99-115 | without a terminated fragment no sentence is emitted |
| SentenceAssembly.SentenceTextsCoverClosedPrefix | clients.py:99-115 | the concatenated sentence texts are the contributions of all fragments up to and including the last terminated one; a trailing unterminated run contributes nothing |
| SentenceAssembly.OpenStep | clients.py:100-101 | a fragment without terminal punctuation only extends the pending text |
| SentenceAssembly.ClosingStep | clients.py:100-114 | a terminated fragment closes a sentence holding the pending text and its own contribution, from the current start to its own end |
| SentenceAssembly.TwoFragmentSentence | clients.py:99-115 | an unterminated fragment followed by a terminated one give one sentence with both contributions, from 0 to the second fragment's end |
| SentenceAssembly.HelloWorldExample | clients.py:99-115 | `("Hello", 0, 2 s), ("world.", 2 s, 1 s)` give one sentence `"Hello world. "` starting at 0 and lasting 3 s |
| SentenceAssembly.StartsDriftExample | clients.py:102-114 | three one-second sentences give the third a start of 1 s while the second ends at 2 s |
| ChapterBoundaries.DigitValue | clients.py:84 | a digit's value is at most 9 |
| ChapterBoundaries.MatchAt | clients.py:79-84 | a match starts at a position exactly when the two-digit or one-digit minute form is there; it has length 5 exactly when the greedy two-digit form applies, the colon sits three characters before its end, and its minutes and seconds are the decimal values of the digit runs on either side of the colon, each at most 99 |
| ChapterBoundaries.ScanFrom | clients.py:79 | reference definition of the left-to-right scan: take the match at the current position and resume after it, or move on by one |
| ChapterBoundaries.FindAll | clients.py:79 | the scan from the start of the description |
| ChapterBoundaries.Boundaries | clients.py:79-89 | the matched times followed by the video's end, less a leading 0; never shorter than the list of matches and at most one longer, and a non-empty result ends at the video's end |
| ChapterBoundaries.FindAllIsLeftmostNonOverlapping | clients.py:79 | the scan finds genuine matches, in order, without overlap, and skips no position where a match could start before, between or after them |
| ChapterBoundaries.FoundStampsAreMatches | clients.py:79 | every found timestamp is a match at its own position |
| ChapterBoundaries.StampTimes | clients.py:82-84 | one time per match, each `mins * 60 + secs` seconds |
| ChapterBoundaries.GetTimestamps | clients.py:79-89 | the loop yields the boundaries of the description and the last fragment's end; there is no result exactly when the fragment list is empty |
| ChapterBoundaries.BoundariesAreStampsThenEnd | clients.py:79-89 | the boundaries are the matched times, each at most 99:99, then the last fragment's end; the first is dropped exactly when it is 0 |
| ChapterBoundaries.LeadingDigitSkippedExample | clients.py:79 | `"123:45"` yields the single match `23:45` |
| ChapterBoundaries.TrailingDigitIgnoredExample | clients.py:79 | `"1:234"` yields the single match `1:23` |
| ChapterBoundaries.LeadingZeroDroppedExample | clients.py:87-88 | `"0:00 a 5:30 b"` with the video ending at 600 s gives the boundaries 330 s and 600 s |
| Cleanup.FirstKept | clients.py:139 | the first non-junk position at or after a start; everything before it from that start is junk |
| Cleanup.EndKept | clients.py:139 | the end of the last non-junk character before a limit; everything after it up to the limit is junk |
| Cleanup.Strip | clients.py:139 | the result neither begins nor ends with `_`, `-` or space; it is a contiguous part of the input, and everything cut off on either side is junk |
| Cleanup.CloseFrom | clients.py:140 | the lazy scan stops at the first `) ` reached before any line break; none means every later `) ` lies past a line break |
| Cleanup.AnnotationAt | clients.py:140 | the length of the shortest `(…) ` annotation at the start of the text, or none exactly when no prefix is one |
| Cleanup.IsAnnotation | clients.py:140 | a whole match of `\(.*?\) `: `(`, characters other than line breaks, `) ` |
| Cleanup.OpenNoAnnotation | clients.py:140 | where every later `) ` lies past a line break, no annotation starts |
| Cleanup.RemoveAnnotations | clients.py:140 | removal never lengthens the text; a character where no annotation starts is kept; no annotation starts anywhere in the result |
| Cleanup.Clean | clients.py:139-140 | the strip followed by the removal; the result is no longer than the input and holds no annotation |
| Cleanup.AnnotationBeforeDashRemoved | clients.py:140 | `"(x) -b"` becomes `"-b"` |
| Cleanup.NoParenthesisUnchanged | clients.py:140 | text without `(` is unchanged |
| Cleanup.AnnotationHasNoLineBreak | clients.py:140 | an annotation holds no line break |
| Cleanup.LineBreaksKept | clients.py:140 | removing annotations keeps every line break, so paragraph separators survive |
| Cleanup.KeepsNonParenthesis | clients.py:140 | a character other than `(` is kept and the removal continues after it |
| Cleanup.LaughRemovedExample | clients.py:140 | `"Hi (ha) x"` becomes `"Hi x"` |
| Cleanup.CleanNotIdempotent | clients.py:139-140 | `"-(x) -b"` cleans to `"-b"`, which cleans again to `"b"` |
| ParagraphReflow.OpensParagraph | clients.py:127-134 | the break condition: the cursor is on a boundary, the sentence ends after it, it lies at most 2 s past the sentence's start, and more than 10 characters are out |
| ParagraphReflow.Step | clients.py:125-137 | one iteration of the loop: the cursor advances by at most one and the output only grows at its end |
| ParagraphReflow.Run | clients.py:125-137 | the loop over all sentences: the cursor advances by at most one per sentence and the output only grows at its end |
| ParagraphReflow.Breaks | clients.py:127-136 | one break decision per sentence |
| ParagraphReflow.GenerateText | clients.py:117-141 | the loop's output, cleaned, is the cleaned result of running the reflow from empty output and cursor 0; with no boundaries it is the cleaned concatenation of the sentence texts |
| ParagraphReflow.RunIsJoined | clients.py:125-137 | every sentence text is appended exactly once, in order, preceded by a separator exactly where a break is decided, and the cursor advances once per break |
| ParagraphReflow.CursorStaysInBounds | clients.py:127-136 | the boundary cursor never passes the number of boundaries and never moves back |
| ParagraphReflow.AtMostOneBreakPerBoundary | clients.py:125-137 | the number of separators inserted is at most the number of boundaries |
| ParagraphReflow.BreakRule | clients.py:126-136 | a break goes before a sentence exactly when the cursor is in range, the sentence ends after the current boundary, that boundary is at most 2 s past the sentence's start, and more than 10 characters are out |
| ParagraphReflow.JoinedWithoutBreaks | clients.py:137 | without breaks the layout is the plain concatenation of the sentence texts |
| ParagraphReflow.JoinedLength | clients.py:136-137 | each separator adds exactly two characters to the concatenated texts |
| ParagraphReflow.NoBoundariesIsConcatenation | clients.py:127-137 | with no boundaries the output is the plain concatenation |
| ParagraphReflow.ShortOutputExample | clients.py:134-136 | no break while the output has 10 characters or fewer |
| ParagraphReflow.BreakAfterLongOutputExample | clients.py:134-137 | once the output is longer, the crossing sentence is preceded by `"\n\n"` and the cursor advances |
| ParagraphReflow.PrematureCrossingExample | clients.py:131-133 | a boundary more than 2 s past the crossing sentence's start gets no break |
| VideosHandler.Contains | clients.py:39 | true exactly when the pattern occurs somewhere in the text |
| VideosHandler.AfterLastEquals | clients.py:40 | the longest tail without `=`: all of the text if it has no `=`, else what follows the last `=` |
| VideosHandler.VideoId | clients.py:38-40 | for a text containing `youtube`, an `=`-free tail of it; otherwise the text itself |
| VideosHandler.AfterLastEqualsOfTail | clients.py:40 | a text ending in `=` followed by an `=`-free tail splits back to that tail |
| VideosHandler.WatchLinkRoundTrip | clients.py:38-41 | the canonical watch link of an id without `=` yields that id back |
| VideosHandler.RenderHtml | clients.py:53-54 | the rewrite leaves no two line breaks in a row, the result is empty exactly when the input is, and it starts with `<` where the input starts with a separator and with the input's first character otherwise |
| VideosHandler.RenderHtmlPlainPrefix | clients.py:54 | a prefix without a double line break that does not end in a line break is copied, and the rewrite continues after it |
| VideosHandler.RenderHtmlFirstBreak | clients.py:54 | the first `"\n\n"` becomes `<br><br>`, everything before it is kept, and the rewrite continues after it |
| VideosHandler.RenderHtmlRoundTrip | clients.py:54 | on text without `<`, turning each `<br><br>` back into `"\n\n"` restores the input |
| VideosHandler.RenderHtmlKeepsPlainText | clients.py:54 | text without a double line break is unchanged |
| VideosHandler.RenderHtmlExample | clients.py:54 | `"a\n\n\nb"` becomes `"a<br><br>\nb"` |
| VideosHandler.Article | clients.py:50-54 | the article built from a non-empty track and the description; with HTML rendering it holds no two line breaks in a row |
| VideosHandler.Handle | clients.py:33-59 | with no accepted track the reply carries the apology text; with an empty accepted track it is an error; otherwise it carries the article built by assembly, boundary parsing, reflow, cleanup and the optional HTML rewrite, with the canonical link and the extracted id |

## Left out

- The fetching calls are not modelled: `list_transcripts`, `.fetch()` and `get_video_by_id`. The manually created tracks and the video description are inputs to `Handle`, as is the order in which the track keys are iterated.
- The video lookup's own failure when the API returns no items (`items[0]`) is not modelled, because the description is an input.
- `from_api_token_path` is file I/O and is not modelled.
- `VkRandomMemeFinder` and `main.py` are not part of this model. They are network access, randomness and web routing.
- Times are exact centiseconds rather than floating-point seconds. Float rounding in `round(x, 2)` and float comparison at the 2.0 s tolerance are therefore not modelled.
- ChapterBoundaries.MatchAt: `\d` is modelled as the ASCII digits `0`-`9` only. Python also matches other Unicode decimal digits.
- The handler is not a class in the model. Its only fields are the two API clients, which are never updated, so each stage is a method over its inputs.
- ChapterBoundaries.BoundariesAreStampsThenEnd: it does not claim the boundaries are ascending, because the code never sorts them.
- RenderHtml: its own contract does not spell out the rewrite. `RenderHtmlFirstBreak` and `RenderHtmlKeepsPlainText` together determine it on every input, and `RenderHtmlRoundTrip` inverts it; they are lemmas because the rewrite's equations in the function's contract make other proofs too costly.
- Cleanup.Clean: no idempotence is claimed, because the code does not have it (see `CleanNotIdempotent`).
