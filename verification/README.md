# bsy-clippy core, modelled in Dafny

bsy-clippy is a command-line client for a local Ollama server. It sends a
composed prompt and prints the reply in two colours: the model's reasoning
between `<think>` and `</think>` in yellow, the answer in cyan. It hands a
"final text" (the answer with the reasoning cut out) to a conversation
memory that feeds earlier turns back into later prompts.

This project models three parts of `bsy-clippy.py`:

- **Think-marker segmentation** (`segment.dfy`, `stream.dfy`).
  - `strip_think_segments`, `colorize_response` and `print_stream_chunk`
    are scanners over a string.
  - Printed output is a sequence of pieces. Each piece is answer text,
    thinking text or a marker. ANSI codes are abstracted to a colour.
  - A reference rule, `Segment.WellFormed`, says what a correct
    segmentation looks like. The output of `colorize_response` and the
    pieces `print_stream_chunk` prints are each proved to be the unique
    well-formed segmentation of their input. `strip_think_segments`
    returns a string, not pieces: it is proved to equal the stripped
    answer text of any well-formed segmentation of the response.
  - The stream loop of `call_ollama_stream` folds `print_stream_chunk`
    over the fragments the server delivers, up to the first one marked
    `done`. The batch loop of `call_ollama_batch` classifies the joined
    response at once.
  - The two are proved to agree when no marker straddles a fragment
    boundary and the collected answer text does not itself spell
    `<think>`. Worked scenarios show each condition is needed.
- **Prompt composition** (`prompt.dfy`).
  - `compose_prompt` keeps the non-blank parts, cuts their outer
    newlines and joins them with a blank line.
  - Interactive mode builds a conversation input from a history block and
    a current-message block.
- **Conversation memory** (`memory.dfy`).
  - The memory is a list of `User: …` and `Assistant: …` lines, cut to the
    newest `--memory-lines` lines after every turn.
  - Its seed is the exchange that answered piped standard input.
  - One turn reads a line and ends on `exit`/`quit` in any case. It skips
    a turn whose prompt would be empty, and otherwise sends the prompt and
    remembers the exchange.
  - The interactive loop is a function over a list of input lines. Each
    line is paired with the final text the model would return for it.

`text.dfy` holds the Python string operations the core relies on:
- `str.strip` with and without a character set;
- `str.find`, `sep.join` and ASCII `str.lower`.

`scenarios.dfy` and `stream_scenarios.dfy` hold worked inputs, proved.

## Behaviour worth knowing

- `"Hello <think>reasoning here</think>World"` has the final text
  `"Hello World"`. The answer parts are joined unchanged and only the
  whole is stripped (`Scenarios.RegionBetweenAnswersFinalText`).
- A memory depth of 0 does not drop the seed. A seed from piped input is
  kept whole when the depth is 0 and `--chat-after-stdin` is given
  (`bsy-clippy.py:232`, `:364`). It then stays in every history block
  (`Memory.SeedIsFirstTurn`, `Memory.SessionWithoutMemory`).
- A marker split over two fragments:
  - The fragments `["<thi", "nk>secret</think>answer"]` show the marker
    as answer text, but the final text is `answer`. The joined answer
    strings go through `strip_think_segments` a second time
    (`bsy-clippy.py:206`), and that pass sees the whole marker
    (`StreamScenarios.SplitOpenMarker`).
  - A split closing marker loses the answer after it. The stream never
    leaves the region, so the stream's final text is `""` where batch
    mode gives `"b"` (`StreamScenarios.SplitCloseMarker`).
- Stream and batch can differ even when no marker is split. For the
  single fragment `"<thi<think>x</think>nk>"`, cutting the region out
  leaves `<think>` as answer text. Batch mode returns that. The stream's
  second strip reads it as an unclosed region and returns `""`
  (`StreamScenarios.JoinedMarkerDiverges`). `Stream.StreamAgreesWithBatch`
  therefore also requires that the collected answer text holds no
  `<think>`.

## Model

| member | source | states |
|---|---|---|
| Text.StripSet | bsy-clippy.py:36 | `strip(chars)` gives the slice between the first and last characters outside the set; it is empty exactly when every character is in the set, and otherwise starts and ends outside the set |
| Text.StripSetIdempotent | bsy-clippy.py:67 | stripping twice removes nothing more than stripping once |
| Text.StripSetKeeps | bsy-clippy.py:36 | a string that starts and ends outside the set is its own strip |
| Text.Find | bsy-clippy.py:51-57 | `find` returns -1 or a position at or after the start where the pattern occurs |
| Text.FindIsFirst | bsy-clippy.py:51-57 | no occurrence lies between the start and the position `find` returns, and none at all when it returns -1 |
| Text.Join | bsy-clippy.py:37 | a join starts with the first part, ends with the last, and is as long as the parts plus one separator between each pair |
| Text.JoinEmptyIff | bsy-clippy.py:37 | with a non-empty separator, a join of non-empty parts is empty exactly when there are no parts |
| Segment.StripThinkSegments | bsy-clippy.py:40-67 | an empty response has an empty final text, and a final text never starts or ends with whitespace |
| Segment.KeptSegmentsClean | bsy-clippy.py:57-63 | every segment the stripping loop keeps is non-empty and holds no opening marker |
| Segment.FinalTextFromSegmentation | bsy-clippy.py:40-67 | the final text is the stripped answer text of any well-formed segmentation of the response |
| Segment.ColorizeResponse | bsy-clippy.py:70-103 | the coloured output prints every character of the response exactly once, in order, as a well-formed segmentation |
| Segment.ColorScanSound | bsy-clippy.py:79-103 | from any position and state, the colouring loop is lossless and well-formed |
| Segment.WellFormedUnique | bsy-clippy.py:79-101 | two well-formed segmentations of the same text from the same state are equal |
| Segment.ColorizeIsUniqueSegmentation | bsy-clippy.py:70-103 | any well-formed segmentation of a response is the coloured output |
| Segment.ColorizeAgreesWithStrip | bsy-clippy.py:40-103 | the final text is the stripped answer-coloured text of the coloured output |
| Segment.PrintStreamChunk | bsy-clippy.py:106-141 | one fragment prints losslessly as a well-formed segmentation from the given state; the returned answer is its answer-coloured text and the returned flag is the start flag toggled once per marker; inside a region with no closing marker nothing is returned as answer and the region stays open |
| Segment.ChunkScanPieces | bsy-clippy.py:110-140 | the fragment printer prints exactly what the colouring loop would |
| Segment.ChunkScanAnswer | bsy-clippy.py:125-141 | the answer string is the concatenated answer-coloured pieces |
| Segment.ChunkScanFlag | bsy-clippy.py:110-141 | the returned flag is the start flag toggled once per marker printed |
| Segment.ChunkScanKept | bsy-clippy.py:110-141 | the answer string is the join the stripping loop builds before it strips |
| Segment.ChunkIsUniqueSegmentation | bsy-clippy.py:106-141 | any well-formed segmentation of a fragment determines the printer's flag, pieces and answer |
| Segment.StreamChunkFromOutside | bsy-clippy.py:106-141 | started outside a region, the printer prints what `colorize_response` prints and returns the text `strip_think_segments` joins |
| Segment.MarkerOverlapFree | bsy-clippy.py:51-57 | two occurrences of the same marker never overlap |
| Stream.Delivered | bsy-clippy.py:191-202 | the loop consumes fragments up to and including the first marked done, and all of them when none is |
| Stream.StreamReply | bsy-clippy.py:189-206 | the stream display prints every delivered character exactly once, in order |
| Stream.BatchReply | bsy-clippy.py:158-167 | the batch display prints the whole response, and the final text strips the whole response |
| Stream.StreamDisplayLossless | bsy-clippy.py:191-199 | from either state, the fold's display is the delivered text |
| Stream.ChunkOfIsChunk | bsy-clippy.py:196-197 | skipping an empty fragment is what the printer would do with it |
| Stream.FindConcat | bsy-clippy.py:112-126 | searching a joined text from inside its first half finds the first half's occurrence, else the second half's shifted, when no occurrence straddles the join |
| Stream.OutcomeConcat | bsy-clippy.py:106-141 | scanning two texts in turn, with the flag threaded through, gives the flag and answer of scanning them joined, when no marker straddles the join |
| Stream.StreamMatchesWhole | bsy-clippy.py:189-199 | without split markers, the fold's flag and answer strings are those of printing the whole delivered text as one fragment |
| Stream.StreamAnswerIsKeptText | bsy-clippy.py:189-206 | without split markers, the collected answer strings join to the text `strip_think_segments` keeps of the whole response |
| Stream.RestripWithoutMarker | bsy-clippy.py:206 | the second strip of an answer text without an opening marker only strips whitespace |
| Stream.StreamAgreesWithBatch | bsy-clippy.py:189-206 | stream and batch give the same final text when no marker is split and the kept answer text spells no opening marker |
| Scenarios.RegionBetweenAnswers | bsy-clippy.py:70-103 | `Hello <think>reasoning here</think>World` colours as answer, marker, thinking, marker, answer |
| Scenarios.RegionBetweenAnswersFinalText | bsy-clippy.py:40-67 | its final text is `Hello World` |
| Scenarios.StrayCloseKept | bsy-clippy.py:56-60 | a closing marker outside a region is answer text, in the colours and in the final text |
| Scenarios.UnclosedRegionDropped | bsy-clippy.py:50-53 | text after an unclosed opening marker is thinking text and is dropped from the final text |
| Scenarios.JoinedFinalText | bsy-clippy.py:57-67 | cutting the region out of `<thi<think>x</think>nk>` leaves the final text `<think>` |
| Scenarios.LoneOpenDropped | bsy-clippy.py:50-53 | a lone opening marker has an empty final text |
| StreamScenarios.PlainAnswerChunk | bsy-clippy.py:126-132 | a fragment with no opening marker, outside a region, is one answer piece and is all answer |
| StreamScenarios.PlainThinkingChunk | bsy-clippy.py:111-117 | a fragment with no closing marker, inside a region, is one thinking piece and the region stays open |
| StreamScenarios.SingleFragmentFinal | bsy-clippy.py:196-206 | the final text of a one-fragment stream is its answer string stripped again |
| StreamScenarios.SplitOpenMarker | bsy-clippy.py:189-206 | a split opening marker shows as answer text, but the final text is the batch one |
| StreamScenarios.SplitCloseMarker | bsy-clippy.py:189-206 | a split closing marker loses the answer after it: stream `""`, batch `"b"` |
| StreamScenarios.JoinedMarkerDiverges | bsy-clippy.py:197-206 | with no marker split, stream and batch still differ on `<thi<think>x</think>nk>` |
| Prompt.KeepTestIsNotBlank | bsy-clippy.py:35 | `part and part.strip()` holds exactly when the part is not all whitespace |
| Prompt.TrimNewlinesKeepsContent | bsy-clippy.py:35-36 | cutting the newlines off a non-blank part leaves it non-blank, with no newline at either end |
| Prompt.KeptParts | bsy-clippy.py:33-36 | no more parts are kept than given, and each kept part has content and no newline at either end |
| Prompt.KeptPartsAppend | bsy-clippy.py:34-36 | parts are judged one by one: keeping distributes over concatenation |
| Prompt.KeptPartsCons | bsy-clippy.py:34-36 | the first part is judged on its own, then the rest |
| Prompt.KeptPartsEmptyIff | bsy-clippy.py:33-36 | nothing is kept exactly when every part is blank |
| Prompt.KeptOf | bsy-clippy.py:35-36 | a part contributes nothing exactly when it is blank |
| Prompt.ComposePrompt | bsy-clippy.py:31-37 | the prompt is empty exactly when all three parts are blank, and otherwise has content and no newline at either end |
| Prompt.ComposeAllParts | bsy-clippy.py:31-37 | with three non-blank parts the prompt is system, user and data, newline-trimmed, in that order, separated by a blank line |
| Prompt.BlankPartIgnored | bsy-clippy.py:35 | a blank user prompt gives the prompt an empty one gives |
| Prompt.ComposeIdempotent | bsy-clippy.py:31-37 | composing a composed prompt alone gives it back |
| Prompt.ComposeKeptPart | bsy-clippy.py:31-37 | a part that already has content and no newline at either end composes alone to itself |
| Prompt.ContentAroundBlank | bsy-clippy.py:33-37 | two parts that start and end with content, around a blank one, are joined by one blank line |
| Prompt.ComposeSkipsEmptyUser | bsy-clippy.py:33-37 | `sys`, nothing and `data` compose to `sys`, a blank line, `data` |
| Prompt.KeptAsIs | bsy-clippy.py:35-36 | a part that starts with content and ends without a newline is kept unchanged |
| Prompt.SplitJoin | bsy-clippy.py:272 | joining lines free of the separator and splitting again gives the lines back |
| Prompt.HistoryBlock | bsy-clippy.py:270-272 | the history block is empty exactly when nothing is remembered, and otherwise starts with its header |
| Prompt.HistoryBlockLists | bsy-clippy.py:272 | the remembered lines read back from the block after its header when none spans several lines |
| Prompt.CurrentBlock | bsy-clippy.py:274-276 | the current block is empty exactly for an empty message, and otherwise is the header and the message |
| Prompt.ConversationInputShape | bsy-clippy.py:270-279 | the conversation input is empty, the current block alone, the history alone, or history, blank line and current block |
| Prompt.ConversationInputBlankIff | bsy-clippy.py:270-279 | the conversation input is blank exactly when there is neither history nor message |
| Prompt.TurnPromptEmptyIff | bsy-clippy.py:270-281 | a turn's prompt is empty exactly when the system and user prompts are blank, nothing is remembered and the message is empty |
| Prompt.FirstMessageAlone | bsy-clippy.py:274-280 | without system or user prompt or memory, the prompt is the current block alone |
| Memory.TailSlice | bsy-clippy.py:233 | `items[-n:]` keeps a suffix of `min(n, len)` items, and the whole list when `n` is 0 |
| Memory.InitialMemory | bsy-clippy.py:231-233 | the starting memory is a suffix of the seed, no longer than the depth when memory is on, and the whole seed when it fits or memory is off |
| Memory.NewEntries | bsy-clippy.py:292-295 | one line per non-empty message and reply, user first, reply stripped |
| Memory.NewEntriesReadBack | bsy-clippy.py:292-295 | the role and text of each new line read back from its tag |
| Memory.Remember | bsy-clippy.py:291-297 | with memory off nothing changes; with memory on the result is the newest `min(total, depth)` lines of the old memory and the new lines |
| Memory.RememberKeepsNewest | bsy-clippy.py:296-297 | nothing is dropped while there is room, and a turn's new lines are never the ones dropped |
| Memory.CapacityTwoExample | bsy-clippy.py:291-297 | with depth 2, after `a`/`b` and `c` the memory is `Assistant: b`, `User: c` |
| Memory.DecideQuit | bsy-clippy.py:267-269 | a line ends the loop exactly when its stripped text is a quit word |
| Memory.QuitIgnoresCase | bsy-clippy.py:268 | a text is a quit word exactly when it is four letters that lower-case to `exit` or to `quit` |
| Memory.QuitExamples | bsy-clippy.py:267-269 | `EXIT` and ` Quit ` end the loop |
| Memory.QuitWithMoreIsNot | bsy-clippy.py:267-269 | `exit now` does not end the loop |
| Memory.EmptyIsNotQuit | bsy-clippy.py:268 | an empty line is not a quit word |
| Memory.DecideSkip | bsy-clippy.py:267-282 | a turn is skipped exactly when the line, the system and user prompts are blank and nothing is remembered |
| Memory.DecideSend | bsy-clippy.py:280-282 | a prompt that is sent has content and no newline at either end |
| Memory.RunSession | bsy-clippy.py:254-297 | a session sends at most one prompt per input line |
| Memory.SessionBound | bsy-clippy.py:291-297 | with memory on, a memory within the depth stays within it |
| Memory.SessionWithoutMemory | bsy-clippy.py:291 | with memory off, a session ends with the memory it started from |
| Memory.NegativeRequestIsOff | bsy-clippy.py:331 | a negative depth switches memory off as zero does |
| Memory.SessionSendsContent | bsy-clippy.py:280-282 | every prompt a session sends has content |
| Memory.QuitFirst | bsy-clippy.py:268-269 | a quit line first ends the session with nothing sent and the memory unchanged |
| Memory.QuitEndsSession | bsy-clippy.py:267-269 | lines after a quit line never affect the session |
| Memory.SeedIsFirstTurn | bsy-clippy.py:350-365 | with memory on, the seed is the memory one interactive turn with the piped data and its reply leaves; with memory off it is both lines, uncut |
| Memory.EmptyPipedPrompt | bsy-clippy.py:344-348 | an empty composed prompt opens a chat with no seed, and then the data was blank |

## Left out

- HTTP requests, JSON decoding of the reply lines and the `requests`
  error paths are left out. A reply is given as fragments, each a
  `response` string with a `done` flag. Lines that fail to decode are
  skipped by the source and do not appear.
- The model's reply in interactive mode is a parameter: each input line
  comes paired with the final text it would receive (`Memory.Exchange`).
  Stream and batch mode differ only in how that text is computed, which
  `Stream` models.
- `print`, `flush`, the ANSI escape strings and the newline printed after
  a stream are left out. The display is a sequence of coloured pieces.
- `read_user_input`, the tty selection, `/dev/tty`/`CONIN$`, EOF and
  Ctrl+C are left out: the input is a finite list of lines, and running
  out ends the session. The `rstrip("\r\n")` of a read line is subsumed
  by the `strip()` that follows it.
- `load_system_prompt`, `argparse` and the temperature are left out; the
  system prompt, user prompt, depth and `--chat-after-stdin` are
  parameters.
- `Text.Lower`: lower-cases ASCII only. Python's `lower()` also maps other
  letters. The quit test is still exact: no non-ASCII character
  lower-cases to a string equal to `exit` or `quit`.
- `Text.Whitespace` lists the characters `str.isspace` accepts.
- Segment.StripThinkSegments: its own contract states only the shape of
  the final text. Its content is stated by
  `Segment.FinalTextFromSegmentation` and
  `Segment.ColorizeAgreesWithStrip`.
- Stream.StreamReply: its own contract states only the display. The final
  text is stated by `Stream.StreamAgreesWithBatch` and the scenarios.
