# A verified model of the msg.py message sender

`msg.py` sends direct messages to one or more Instagram conversations from
several browser tabs at once. This project models the logic around the
browser, leaving the browser itself out:

* **Corpus** (`corpus.dfy`, with `text.dfy`, `block.dfy` and `block_join.dfy`).
  `sanitize_input` and `parse_messages` turn the `--names` argument into the
  list of messages.
  * A `.txt` file is first read as JSON lines: every non-blank line must decode
    to a string.
  * Failing that, the file (or the argument itself) is read as one block.
  * The block form replaces five ampersand-like characters with `&`. It then
    splits with `\s*(?:&|\band\b)\s*` under IGNORECASE and keeps the stripped,
    non-empty pieces.
  * The regular expression is modelled as a scanner that finds the leftmost
    match, as `re.split` does.
  * Python's `\w` (which decides `\b`) and `json.loads` are parameters.
  * The file system is a map from paths to readable text or an unreadable
    entry.
* **Init** (`init_page.dfy`). `init_page` makes up to three attempts to open a
  conversation in a tab, with a two-second pause after each failed attempt but
  the last. The outcomes of the attempts are an input, and the attempts and
  pauses are recorded in a trace.
* **Dispatch** (`dispatch.dfy`). `sender` is the per-tab loop.
  * Its state, the cursor `msg_index` and the start of the current minute
    `cycle_start`, lives in the class `Channel`.
  * One iteration, as the source intends it, does one of four things: reload
    once a minute has passed, skip a message when the message box is hidden,
    send the current message, or raise.
  * As written, `sender` never skips: its visibility probe is not awaited
    (msg.py:353), so the hidden-box branch is dead (see "Findings"). The loop
    as written is `NextAsWritten`, which is proved never to skip.
  * `Next` is the iteration with the probe awaited. `Channel.Step` and
    `Channel.RunAll` model this corrected loop.
  * `Channel.Step` is proved against the step function `Next`.
  * `Channel.RunAll` runs the loop over a finite prefix of its inputs and is
    proved against `Run`.
  * Clock readings (in integer milliseconds), visibility and the outcome of
    each page action are inputs.
* **Pool** (`pool.dfy`). From `main`:
  * the thread URL list;
  * the early stops;
  * the tab clamp and the tab count;
  * the nested loop that opens `tabs` pages per URL;
  * the admission of the pages whose initialisation returned `True`;
  * the stop when none did.

`wrappers.dfy` holds the `Option` and `Result` types.

## Model

| member | source | states |
|---|---|---|
| `Corpus.SanitizeInput` | msg.py:26-33 | A single string is kept as it is; a list of one word gives that word. |
| `Corpus.SanitizeUndoesSplit` | msg.py:31-32 | Sanitising the space-separated words of a string gives the string back. |
| `Corpus.SanitizeKeepsWords` | msg.py:31-32 | Words without spaces can be recovered from the sanitised string. |
| `Corpus.FileLines` | msg.py:54-55 | Iterating a text-mode file: the lines concatenate to the text, each is non-empty with at most a final newline, and all but the last end in a newline. |
| `Corpus.CandidateLinesSpec` | msg.py:55 | The lines the JSON path decodes are exactly the non-blank newline-free pieces of the text, in order. |
| `Corpus.RStripNewlines` | msg.py:55 | `ln.rstrip('\n')`: the result is a prefix of the line, only newlines are removed, and it does not end in a newline. |
| `Corpus.CandidateLines` | msg.py:55 | Every line kept for decoding is non-blank and has no final newline, and no more lines are kept than the file has. |
| `Corpus.DecodeAll` | msg.py:56-61 | A result holds one decoded string per line, each equal to that line's decoding; no result means some line does not decode to a string. |
| `Corpus.DecodeLines` | msg.py:56-61 | The loop succeeds iff every line decodes to a string, and then returns the decoded strings in order. |
| `Corpus.CopyMessages` | msg.py:62-69 | The copy loop returns the messages unchanged. |
| `Corpus.ParseFile` | msg.py:50-78 | If there is at least one candidate line and all decode, the result is the decoded strings. If there is none, or one fails, the result is the block form of the whole text. |
| `Corpus.IsTextFile` | msg.py:48 | The `is_file` test: the argument ends in `.txt` and names an existing file, readable or not. |
| `Corpus.ParseMessages` | msg.py:35-104 | Not an existing `.txt` path: the block form of the argument. An existing but unreadable `.txt` path: `ReadFailed`. A readable one: the file parse of its text. |
| `Corpus.JsonLinesRoundTrip` | msg.py:50-69 | A file of JSON lines, with or without a final newline, gives back exactly the encoded messages in order, with no separator splitting. |
| `Corpus.JsonLinesText` | msg.py:54-55 | The non-blank lines of such a file are the encoded lines themselves. |
| `Corpus.DecodeAllOf` | msg.py:56-61 | Lines that each decode to a message give exactly those messages. |
| `Corpus.UndecodableLineFallsBack` | msg.py:56-78 | One line that does not decode sends the whole file to the block form. |
| `Corpus.BlankFileGivesNothing` | msg.py:50-104 | A whitespace-only file yields the empty list, not an error. |
| `Text.IsSpace` | msg.py:102-103 | Python's `str.isspace`, written out as its 29 code points. This is exactly the set `\s` matches in a `str` pattern and the set the argument-less `strip()` removes. |
| `Text.EndsWith` | msg.py:48 | `str.endswith`: the last `len(suffix)` characters are the suffix. |
| `Text.Strip` | msg.py:103 | `str.strip()`: the result has no whitespace at either end and is an infix of the input. Only whitespace is removed, and the result is empty iff the input is all whitespace. |
| `Text.StripNonEmpty` | msg.py:103 | `[p.strip() for p in pieces if p.strip()]`: every kept piece is non-empty and stripped, and there are no more of them than pieces. |
| `Text.StripNonEmptyOfClean` | msg.py:103 | The strip-and-drop-empty comprehension leaves already-stripped non-empty pieces unchanged. |
| `Text.SplitOn` | msg.py:497 | `str.split` with one separator character: at least one piece, none holding the separator. |
| `Text.JoinWith` | msg.py:32 | `sep.join(words)`; its round trips with `SplitOn` are `Text.SplitJoin` and `Text.JoinSplit`. |
| `Text.SplitJoin` | msg.py:497 | `str.split` of a join of separator-free words gives the words back. |
| `Text.JoinSplit` | msg.py:31-32 | `" ".join` of a split gives the string back. |
| `BlockSplit.Replace` | msg.py:93-97 | `str.replace` of one character: the length is kept, and exactly the occurrences of the old character become the new one. |
| `BlockSplit.NormalizeAmpersands` | msg.py:92-98 | Each of the five ampersand-like code points becomes `&`; every other character and the length are kept. |
| `BlockSplit.MatchAt` | msg.py:102 | The separator pattern matches at a position iff, after the greedy whitespace run there, `&` or a standalone `and` (any ASCII case) follows. Backtracking the leading `\s*` can never produce a match, because a shorter run leaves a whitespace character, which is neither `&` nor a word character, in front of the alternative. |
| `BlockSplit.MatchEnd` | msg.py:102 | The match ends after the separator and the greedy trailing whitespace run; it is never empty and never runs past the text. |
| `BlockSplit.FindMatch` | msg.py:102-103 | The search `re.split` makes: a position it returns is a match at or after the start. `FindMatchLeftmost` proves that it is the leftmost one. |
| `BlockSplit.ReSplit` | msg.py:102-103 | `re.split` with the separator pattern: at least one piece. Its pieces hold no `&` (`ReSplitNoAmpersand`), and joined messages come back (`BlockJoin.SplitBlockOfJoin`). |
| `BlockSplit.FindMatchLeftmost` | msg.py:102-103 | The scanner finds the leftmost match of the pattern; it finds none only when the pattern matches nowhere. |
| `BlockSplit.ReSplitNoAmpersand` | msg.py:102-103 | No piece of the split holds `&`. |
| `BlockSplit.SplitBlock` | msg.py:92-104 | Every message of the block form is non-empty and stripped. |
| `BlockSplit.BlockMessagesClean` | msg.py:92-103 | Every message of the block form is non-empty and stripped. It holds neither `&` nor any of the five ampersand-like characters. |
| `BlockSplit.NoSeparatorSingleMessage` | msg.py:100-103 | A block without a separator gives exactly one message, the stripped input with its newlines kept, or nothing when it is blank. |
| `BlockSplit.OnlySeparatorsGiveNothing` | msg.py:102-104 | The block form gives the empty list, rather than an error, exactly when the text after the ampersand rewrite is made only of whitespace, `&` and the word `and` standing alone (any ASCII case). |
| `BlockSplit.ReSplitBlank` | msg.py:102-103 | Every piece of the split is whitespace exactly when the text is whitespace and separators. |
| `BlockSplit.StripNonEmptyBlank` | msg.py:103 | The comprehension keeps nothing exactly when every piece is whitespace. |
| `BlockSplit.BlankGivesNothing` | msg.py:102-104 | Whitespace alone gives the empty list. |
| `BlockSplit.AndAloneGivesNothing` | msg.py:102-104 | `"and"` gives the empty list. |
| `BlockSplit.MixedSeparatorsGiveNothing` | msg.py:102-104 | `"AND &and"` gives the empty list. |
| `BlockSplit.EmbeddedAndDoesNotSplit` | msg.py:102-103 | A word of ASCII letters and digits other than `and` itself (e.g. `sandbox`) is not split. |
| `BlockSplit.AlnumNoMatch` | msg.py:102 | Inside such a word the pattern matches at no position. |
| `BlockJoin.MatchFreeIffNoSeparator` | msg.py:102 | A text in which the pattern matches nowhere is exactly one in which the search finds no separator. |
| `BlockJoin.SplitBlockOfJoin` | msg.py:92-103 | Non-empty, stripped messages without separators, joined with one and the same separator (`&`, or `and` in any ASCII case) and exactly one space on either side of it in every gap, come back exactly, in order. |
| `BlockJoin.AndExample` | msg.py:100-103 | `"a and b"` gives `["a", "b"]`. |
| `BlockJoin.UpperAndExample` | msg.py:100-103 | `"a AND b"` gives `["a", "b"]`. |
| `BlockJoin.AmpersandExample` | msg.py:100-103 | `"a & b"` gives `["a", "b"]`. |
| `BlockJoin.BareAmpersandExample` | msg.py:100-103 | Rejoining with a bare `"&".join` parses back: `"a&b"` gives `["a", "b"]`. |
| `BlockJoin.NewlineExample` | msg.py:100-103 | `"hi there\nfriend & good morning"` gives `["hi there\nfriend", "good morning"]`. |
| `Init.RetryTrace` | msg.py:151-163 | The events from attempt `t` on: none after the third attempt, otherwise starting with attempt `t` and its outcome, at most two events per remaining attempt. |
| `Init.InitPage` | msg.py:146-163 | Returns true iff one of the three attempt outcomes is a success. Its trace is the specification trace. |
| `Init.InitPageCounts` | msg.py:151-163 | Attempts run up to and including the first success, or all three when none succeeds. There is one pause fewer than attempts, so at most two. |
| `Init.RetryTraceShape` | msg.py:152-162 | Each attempt carries its own outcome, and only the last event can be a success. Every pause is a two-second sleep directly after a failed attempt other than the third. |
| `Init.RetryCounts` | msg.py:152-162 | The counts of attempts and pauses from any attempt onwards. |
| `Dispatch.Advance` | msg.py:360 | `(i + 1) % n` stays below `n`, adds one below the end and wraps to 0 at the end. |
| `Dispatch.Transition` | msg.py:338-378 | One iteration for a given probe value: it skips exactly when, within the minute and with a message at the cursor, the probe is falsy. |
| `Dispatch.Next` | msg.py:338-378 | The iteration with the probe awaited: it skips exactly when, within the minute and with a message at the cursor, the box is hidden. |
| `Dispatch.NextAsWritten` | msg.py:353-361 | The iteration as written: no iteration ever takes the hidden-box branch. |
| `Dispatch.NextCases` | msg.py:338-378 | The iteration effects, each proved for the step function: see the list below the table. |
| `Dispatch.NextKeepsCursorInRange` | msg.py:349-378 | With a non-empty list the cursor stays in `[0, len(messages))`. |
| `Dispatch.AdvanceFullCycle` | msg.py:378 | Moving on `len(messages)` times brings the cursor back to its start. |
| `Dispatch.Run` | msg.py:338-378 | The loop over a finite input sequence: one result per iteration it makes, at least one when there is an input. |
| `Dispatch.RunStopsAtFirstRaise` | msg.py:338-378 | No iteration before the last raised, and the loop ends before its inputs run out only by raising. |
| `Dispatch.RunCursor` | msg.py:338-378 | Over a run the cursor moves on exactly once per send or skip. |
| `Dispatch.RunSends` | msg.py:349-378 | Every send carries the message the cursor then points at: the messages go out in round-robin order from the start. |
| `Dispatch.FullCycleReturns` | msg.py:338-378 | After as many sends and skips as there are messages, the cursor is back where it started. |
| `Dispatch.ProbeAsWritten` | msg.py:353 | The un-awaited visibility probe is truthy whatever the page shows. |
| `Dispatch.ProbeAwaited` | msg.py:353 | The awaited probe is truthy iff the message box is visible. |
| `Dispatch.HiddenBoxCounterexample` | msg.py:353-374 | With the box hidden and the click failing, the code as written raises, where the awaited probe skips. |
| `Dispatch.Channel.constructor` | msg.py:335-336 | The loop starts at message 0 with the minute starting at the given time. |
| `Dispatch.Channel.Step` | msg.py:338-378 | One iteration changes the cursor and minute exactly as the step function `Next` says, and keeps the cursor valid. |
| `Dispatch.Channel.RunAll` | msg.py:338-378 | The loop over a finite input sequence ends in the state and with the results `Run` gives. |
| `Pool.ThreadUrls` | msg.py:497 | Every URL is non-empty, stripped and free of commas. |
| `Pool.ThreadUrlsRoundTrip` | msg.py:497 | Clean URLs joined with commas come back exactly, in order. |
| `Pool.ThreadUrlsDropsBlank` | msg.py:497 | A blank entry, like a trailing comma leaves, is dropped. |
| `Pool.ClampTabs` | msg.py:528 | The tab count always lies in `[1, 5]`. It equals the request when that is in range, and otherwise the nearer bound. |
| `Pool.ClampTabsStable` | msg.py:528 | The clamp is idempotent and monotone. |
| `Pool.Setup` | msg.py:497-529 | The run starts iff there is a URL, parsing succeeded and there is a message; otherwise it stops with the first failing reason, in the source's order. The plan has `tabs = ClampTabs(request)` and `total_tabs = len(urls) * tabs`. |
| `Pool.PagesFor` | msg.py:529 | There are `len(urls) * tabs` pages. |
| `Pool.PagesForIndex` | msg.py:568-572 | Page `u * tabs + i`, for `i < tabs`, is opened on URL `u`. |
| `Pool.OpenPages` | msg.py:568-572 | The nested loop opens exactly the pages of `PagesFor`. |
| `Pool.Admitted` | msg.py:579-589 | The positions of the pages whose initialisation returned `True`, in creation order; no more than there are pages. |
| `Pool.Ready` | msg.py:581 | A page is kept only when its initialisation task returned `True`; an exception or `False` drops it. |
| `Pool.AdmittedSound` | msg.py:579-589 | Every admitted page's task returned `True`. |
| `Pool.AdmittedComplete` | msg.py:579-589 | Every page whose task returned `True` is admitted. |
| `Pool.AdmittedIncreasing` | msg.py:579-589 | Admitted pages keep the creation order, each once. |
| `Pool.AdmittedCount` | msg.py:579-589 | One page is admitted per successful initialisation. |
| `Pool.Admit` | msg.py:579-589 | The filtering loop returns exactly the admitted positions. |
| `Pool.StartGeneration` | msg.py:568-596 | The run stops iff no page is admitted. Otherwise one sender starts per admitted page, on that page's URL, in order. |
| `Pool.OneFailureOfFour` | msg.py:568-589 | 2 URLs × 2 tabs with the second page failing gives pages `[a, a, b, b]` and admits 3 of them: `[0, 2, 3]`. |
| `Pool.FalseIsDropped` | msg.py:581 | A task that returned `False` is dropped like one that raised. |

`Dispatch.NextCases` proves the following about one iteration of the step function:

* Once a minute has passed, the iteration reloads without moving the cursor and restarts the minute; a failed reload raises.
* It reloads, or fails to reload, only once the minute has passed.
* Within the minute, an empty list or a cursor past its end raises `NoMessage` (the `IndexError` of msg.py:349).
* Within the minute, with a message at the cursor and the box visible, a successful send sends that message and a failed send raises `SendFailed` (msg.py:373-374).
* A raise changes nothing.
* A send or a skip moves the cursor on by one modulo `len(messages)`.
* A send carries the current message, with the box visible and the send successful.
* An empty list never advances.

## Left out

- **Browser calls.** Playwright navigation, clicks, fills, key presses, reloads and page closing are not modelled. Each appears only as a success/failure or visibility input.
- **Other code in msg.py.** Login, storage-state loading, the reply and reaction helpers, `engage_only`, argparse, printing and the launch constants are not modelled. They are I/O against an external service, or DOM scraping decided by page content.
- **Concurrency.** The asyncio supervisor in `main` is not modelled: task creation, `asyncio.wait`, cancellation, and the regeneration of the pool after a tab fails. Only one generation's sequential admission step is modelled.
- **Time.** `time.time()` and `asyncio.sleep` are inputs or trace entries. Times are integer milliseconds instead of floating-point seconds, and the short sleeps inside `sender` are not recorded.
- **`json.loads`.** It is a parameter. `None` stands for a decoding error or for a value that is not a string.
- **`\w`.** It is a parameter. Lemmas that need concrete word characters assume only that ASCII letters, digits and `_` are word characters and that whitespace and `&` are not.
- **IGNORECASE.** Case folding is taken to match `a`, `n` and `d` only by their two ASCII cases.
- **Files.** The file system is a map from a path to its text after newline translation, or to an unreadable entry. Both reads of a file are assumed to see the same contents.
- **Unreachable error.** The `content is None` error (msg.py:83-84) is unreachable and has no counterpart.
- **Unicode normalisation.** NFKC normalisation and the removal of zero-width characters are commented out in the source and not modelled.
- **Strings.** Text is a sequence of Dafny `char`, which cannot hold the lone surrogates that Python's command-line decoding (surrogateescape) can put into `--names` and `--thread-url`. Such arguments are not modelled.
- Dispatch.NextKeepsCursorInRange: covers a non-empty list only. With an empty list, `sender` raises `IndexError` at the first message it needs (`NoMessage` in the model), and `main` never starts it that way (msg.py:522-524).
- Init.InitPage: takes exactly three attempt outcomes. Outcomes after the first success are supplied but never used.

## Findings

| source | as written | input that shows it | evidently intended | confidence | as-written member | corrected member |
|---|---|---|---|---|---|---|
| msg.py:353 | The `not` applies to `locator(...).is_visible()` without `await`. That is a coroutine object and always truthy, so the hidden-box branch (msg.py:354-361) never runs. | The message box is hidden and the click fails within the minute. As written the send is attempted and the tab raises "send failed". | Await the probe: press Enter, skip to the next message and keep the tab alive. | not executed | `Dispatch.NextAsWritten` | `Dispatch.Next` |
