# Verified models of astramem-local

Dafny models of the parts of astramem-local where a mistake is silent: the config file that is printed and read back
without a YAML library, the capture of proxied conversations, the audio pre-pass, and the commands that replace a
database, a build or a shell file in place. Each code path that changes state is a method with loops and fields of its
own, proved against a specification function; what the code is for is proved about that function.

`dafny verify dfyconfig.toml` checks everything. `Options` and `Arithmetic` hold what the modules share.

**Config** (`Text`, `Decimals`, `Json`, `NumberReading`, `JsonText`, `Comment`, `FlowSeq`, `Scalar`, `FlowList`,
`FlowEntries`, `ConfigLine`, `ConfigTree`, `ConfigParser`, `Parents`, `LineBreaks`, `RoundTrip`, `Merge`). The printer's three line forms and the loader's four stages, character
by character, down to a parser of RFC 8259 and the number printing of ECMA-262. The indentation parser is a heap of
mutable objects attached before they are filled, proved to build the tree that a recursive description gives
(`ConfigTree.Document`), and that description is proved equal to one that names each line's parent (`Parents`). The main
results are exact: a config comes back from its text if and only if every leaf satisfies a condition on the leaf and on
whether a comment follows it and no string holds a line break, and comes back from disk over the defaults if and only if
it has all their keys.

**Capture** (`Turns`, `BlankLines`, `Streams`, `Framing`, `UsageMetadata`, `Gate`, `HashForms`,
`Capture`, `LostRetry`, `Interleaving`, `ProxyTee`). Concurrent exchanges as a state machine of chunks, ends and deferred callbacks. Any interleaving has the
writes and the final dedup window of the same exchanges played one at a time on the same machine; the window is the tail
of a log the code does not keep; a streamed reply gives the bill of the same reply sent whole, and its turn unless an
empty block stands between texts.

**Audio** (`PcmWav`, `Gain`). WAV files byte by byte, and the gain in exact rationals.

**Commands** (`Reembed`, `Reinstall`, `BootGrace`, `Restore`, `Replacement`, `PersistEnvs`, `PersistTwice`,
`ShellReading`). In `Reembed` and `Restore` any statement may fail or be the last one reached, in `Reinstall` any step
may fail; safety is proved over sequences of runs. `BootGrace` is about waiting, for any timing and any answers.

Where the source does not do what its comments say, the model follows the code:

- The comment in `migrations/011-embed-dim-migration.sql` puts the checkpoint in the transaction of the vector; the code
  makes three separate writes, and a cut or failure after the first leaves a vector without its checkpoint
  (`Reembed.VectorWithoutCheckpoint` says exactly when, `Reembed.CutBeforeCheckpoint` is such a run).
- `src/cli/reembed-dim.ts:22-25` takes a checkpoint for a dimension as proof that the table has it; going to another
  dimension and back breaks this (`Reembed.BackToTheOldDimension`, and exactly when in `Reembed.BackedExactly`).
- A `--batch-size` that is no number makes a first run drop every vector, embed nothing and report no failure
  (`Reembed.NotANumberRun`, `Reembed.VectorsLostWithoutWork`).
- The comment at `src/cli/reinstall.ts:524` calls a failed backup timer a soft failure; its step is not marked soft, so
  the run exits with an error after a verified repoint (`Reinstall.TimerDecidesExit`, `Reinstall.TimerFailsProvenRun`).
- The header of `src/cli/restore.ts` says the original database is never deleted. It is never lost before the first
  completed restore. From then on it is lost exactly by an attempt that finds something else live, clears the aside path
  and does not complete with the original itself as its snapshot, until one does (`Restore.OriginalSurvives`,
  `Restore.DeletedExactly`); so an attempt that stops after the clearing loses it, even one that was restoring it from
  the aside path (`Restore.LostByUnfinishedAttempt`, `Restore.RestoringTheOriginal`). The guard against old logs is
  skipped when an earlier attempt was cut (`Restore.LogStranded`, `Restore.SnapshotBesideOldLog`).
- The comment at `src/config/persist-envs.ts:101` quotes values so that no dollar is expanded; when the block replaces an
  old one, `String.replace` expands some of them before any shell sees them (`ShellReading.LiteralExactly` says which,
  `ShellReading.TwoDollarsReadAsOne` is a file). The header's promise of an idempotent block fails for the same values,
  and for values that hold the end marker (`PersistTwice.TwiceIsOnceExactly`).
- The comment at `src/capture/proxy.ts:882` has hashes recorded only for exchanges that are spooled; they are recorded
  before the transcript is written, so a write that throws leaves them, and the same exchange sent again is dropped
  (`Capture.UnspooledPoisonsExactly` says when, `LostRetry.FailedWriteLosesRetry` is such a session).
- A whole reply drops empty text blocks before joining; a streamed one does not, so an empty block between texts adds a
  blank line to the streamed turn (`Streams.StreamedContentAgrees` says exactly when, `Streams.EmptyBlockDiffers` is a
  reply).

## Model

| member | source | states |
|---|---|---|
| Decimals.NumeralRoundTrip | src/config/loader.ts:123 | A number read from a config line is the number printed there if it prints without an exponent; printed with one it is not taken for a number at all. |
| NumberReading.NumeralReads | src/config/loader.ts:123 | An optional minus sign and digits, perhaps with a point between them, are a numeral and denote what the digits say, zeros at either end included. |
| NumberReading.OnlyNumerals | src/config/loader.ts:123 | Nothing else is a numeral. |
| NumberReading.JsonNumberReads | src/config/loader.ts:134 | A JSON number (section 6 of RFC 8259) denotes what its digits and its exponent say. |
| NumberReading.JsonPrintRoundTrip | src/config/writer.ts:22 | A number printed the way ECMA-262 prints it, exponent forms included, is read by `JSON.parse` as itself. |
| NumberReading.UnicodeReads | src/config/loader.ts:134 | Every character is read from its own `\u` escape or its surrogate pair (section 7 of RFC 8259). |
| JsonText.DocumentReads | src/capture/proxy.ts:311 | Every JSON document, nested to any depth, with any white space (section 2 of RFC 8259), is parsed to the value it denotes; a repeated member name keeps its last value. |
| Json.StringRoundTrip | src/config/writer.ts:52-55 | A JSON string literal is parsed back to the string it was made from, with whatever follows it left over. |
| Json.ListRoundTrip | src/config/writer.ts:52-55 | A list of strings printed as JSON, with or without a blank after commas, parses to exactly that list. |
| Comment.StripComment | src/config/loader.ts:167-222 | The two scanning loops keep exactly the prefix of the line before its comment, as the recursive scanner defines it. |
| Comment.ScanValue | src/config/loader.ts:180-221 | The quote- and bracket-aware loop stops exactly where the recursive scanner does. |
| FlowSeq.ReadEntry | src/config/loader.ts:89-109 | The loop finds the end of an entry; where that is, FlowEntries says without it. |
| FlowSeq.SplitFlowSequenceEntries | src/config/loader.ts:82-113 | The splitter yields the entries from comma to comma, a blank last one dropped. |
| FlowSeq.EntriesAreShort | src/config/loader.ts:140 | Each entry is no longer than the text it came from, which is why the recursion into entries ends. |
| Scalar.UnescapeDoubleQuoted | src/config/loader.ts:56-66 | The loop drops one backslash before each character, and keeps one at the very end. |
| Scalar.ParseScalar | src/config/loader.ts:115-143 | The parser of one value takes the source's branches in their order, recursing into flow entries. |
| Scalar.ParseFlowSequence | src/config/loader.ts:132-141 | Bracketed text is JSON when it is a JSON array, and otherwise split and parsed entry by entry. |
| Scalar.UnescapedEscape | src/config/loader.ts:56-66 | Dropping backslashes undoes JSON escaping exactly for text without control characters. |
| Scalar.LeafRoundTrip | src/config/writer.ts:20-36 | A printed leaf parses back to itself if and only if it is not one of four named kinds. |
| Scalar.UnfaithfulLeaves | src/config/writer.ts:24-32 | Four leaves, one of each kind, that come back as something else. |
| Scalar.QuotedExactly | src/config/writer.ts:24-31 | A string is printed in quotes if and only if it is empty, holds one of the listed characters, starts with a digit, or is a reserved word in any mix of cases. |
| Scalar.WordScalars | src/config/loader.ts:117-122 | The five texts that are no strings. |
| Scalar.LoneQuote | src/config/loader.ts:118-119 | One quote mark alone is an empty string. |
| Scalar.BackslashAtEnd | src/config/loader.ts:56-66 | A backslash at the very end of a double-quoted text stays. |
| FlowList.WriterList | src/config/writer.ts:52-55 | The printer's list is the all-double-quotes case of the general flow sequence. |
| FlowEntries.GoesToComma | src/config/loader.ts:99-109 | Past its first character, or its closing quote, an entry goes on to the next comma, whatever quote marks stand before that. |
| FlowEntries.MixedListReads | src/config/loader.ts:72-143 | Any mix of bare, single- and double-quoted entries with any white space around them is the JSON array it is, or else the list of its entries, each read as a scalar of its own, apostrophes inside bare ones included. |
| FlowEntries.ApostropheInside | src/config/loader.ts:76-81 | The list with a bare `don't` in it keeps both its entries. |
| FlowEntries.MixedListKept | src/config/loader.ts:180-221 | The comment scanner passes over such a list whole. |
| FlowEntries.FlowListRoundTrip | src/config/loader.ts:72-143 | A flow sequence in any mix of quotes is read back as its strings if and only if it is JSON throughout or holds no control character in double quotes. |
| ConfigLine.ReadLeafLine | src/config/loader.ts:231-253 | A printed key line, whatever follows its value, is read at its indent, under its key, with what the comment scanner leaves of the value. |
| ConfigLine.ReadHeaderLine | src/config/loader.ts:231-250 | A printed header line is read as a header at its indent, with a trailing comment or without. |
| ConfigLine.ReadKeyLine | src/config/loader.ts:236-253 | A key line with any white space before the key, around it and after the colon is read at that depth, under the trimmed key. |
| ConfigLine.NoKeyLine | src/config/loader.ts:237-239 | A line without a colon, or with nothing before it, is no key line. |
| ConfigLine.ReadListLine | src/config/loader.ts:167-253 | A line with a list as people type it and any comment after it is read as the list alone. |
| ConfigLine.UnquotedValue | src/config/loader.ts:180-221 | In a value that starts with no quote mark and has no bracket the comment begins at the first `#` after white space. |
| ConfigLine.ReadingIsExact | src/config/writer.ts:39-43 | The value read from a printed line is the leaf if and only if the leaf is faithful and, when a comment follows, leaves no quote open. |
| ConfigLine.CommentSwallowed | src/config/loader.ts:180-221 | After a bare string that starts with a quote mark left open, any comment is read into the string, `#` and all. |
| ConfigLine.OpenQuoteInput | src/config/writer.ts:24-32 | A string that is read back only without a comment after it. |
| ConfigLine.CommentTransparency | src/config/loader.ts:167-222 | A printed line reads as its leaf whatever comment follows if and only if the leaf is faithful and no quote is left open in it. |
| ConfigParser.AssignLeaf | src/config/loader.ts:252-254 | A value put into a finished object leaves it finished, with that key's value replaced. |
| ConfigParser.PutValue | src/config/loader.ts:252-254 | Assigning a value into the open object keeps heap and tree in step. |
| ConfigParser.PutChild | src/config/loader.ts:248-250 | A child attached while still empty is waited for by its parent; the stack's indents keep increasing. |
| ConfigParser.PopTo | src/config/loader.ts:242-244 | Popping leaves a non-empty stack whose top is shallower than the line. |
| ConfigParser.PlaceLine | src/config/loader.ts:242-254 | One key line moves the stack exactly as reading that line next does. |
| ConfigParser.ParseConfigYaml | src/config/loader.ts:225-258 | For every text, the object the loop builds on the heap holds exactly the tree that text describes. |
| Parents.BlockByParents | src/config/loader.ts:225-258 | In that tree every key line belongs to the latest earlier header of smaller indent with only deeper key lines between. |
| Parents.KeysAreChildren | src/config/loader.ts:245-254 | An object has exactly the keys of its children. |
| Parents.LastChildDecides | src/config/loader.ts:245-254 | A repeated key keeps only the last value or subtree given for it. |
| RoundTrip.RemarkReadsAsNothing | src/config/loader.ts:231-237 | Blank lines and comment lines add nothing. |
| RoundTrip.EmittedLines | src/config/writer.ts:39-55 | Printed lines are read as the key lines they were printed for, at any depth. |
| RoundTrip.EmittedDocument | src/config/writer.ts:152-601 | The tree of a printed text is the printed tree with every leaf as its own line gives it, whatever the leaves and comments are. |
| RoundTrip.ConfigRoundTrip | src/config/loader.ts:225-258 | At any depth and width, with comments anywhere, the printed config is parsed back to exactly itself if its leaves are faithful and on one line. |
| LineBreaks.DocumentUnbroken | src/config/loader.ts:225-258 | No string that is a key's value holds a line break, whatever the text. |
| RoundTrip.ConfigRoundTripExact | src/config/writer.ts:20-55 | With no key listed twice, any strings and any comments, that holds if and only if every leaf is faithful, none with a comment after it leaves a quote open, and no string holds a line break. |
| Merge.DeepMerge | src/config/loader.ts:261-275 | The loop over a fresh copy computes the recursive merge. |
| Merge.MergeIdempotent | src/config/loader.ts:261-275 | Merging the same overrides twice is merging them once. |
| Merge.OverrideWins | src/config/loader.ts:266-272 | Every override that is not an object is the merged value at its path. |
| Merge.UntouchedKeepsBase | src/config/loader.ts:261-275 | A path the overrides do not touch keeps the base's value or its absence. |
| Merge.UndefinedKeepsBase | src/config/loader.ts:271-272 | A key without a value overrides nothing. |
| Merge.MergeIsOverride | src/config/loader.ts:261-275 | The merged result is the overrides themselves if and only if they have every key of the base at every level. |
| Merge.SavedConfigReloads | src/config/loader.ts:333-388 | A config that comes back from its text, loaded over the defaults, is exactly itself if and only if it has all their keys. |
| Merge.UnsavedKeepsDefault | src/config/loader.ts:333-388 | What the saved file does not mention reloads as its default. |
| Turns.ExtractRequestTurns | src/capture/proxy.ts:272-292 | One turn for each user message with text, in order, trimmed. |
| Turns.RequestMessages | src/capture/proxy.ts:272-283 | A request's turns are those of its `messages` list alone. |
| Turns.OneMessage | src/capture/proxy.ts:284-291 | A message makes a turn if and only if its role is the user's and its content has text that is not blank. |
| Turns.MessagesInOrder | src/capture/proxy.ts:284-291 | The turns come in the order of the messages. |
| Turns.SortedTexts | src/capture/proxy.ts:433-436 | The blocks' texts in ascending order of index. |
| Turns.TakeEvent | src/capture/proxy.ts:399-427 | One payload of either vocabulary: what it adds, and whether reading it throws. |
| Turns.ChunkText | src/capture/proxy.ts:402-409 | A chat-completion chunk adds the string in `delta.content` of its first choice, nothing without one, and throws exactly when that choice is null. |
| Turns.TextDeltaExactly | src/capture/proxy.ts:412-424 | A payload is a text delta of a block if and only if it has no choices and the four fields say so. |
| Turns.ContentDecides | src/capture/proxy.ts:335-342 | A whole reply without choices gives the text blocks of its content list, and content that is no list gives no turn. |
| Turns.ExtractSseResponseTurn | src/capture/proxy.ts:384-443 | One pass over the payloads gives OpenAI text if there is any, otherwise the blocks in order; a null choice throws. |
| Turns.ExtractResponseTurn | src/capture/proxy.ts:307-348 | The whole body first; the stream when it is no JSON or reading it throws. |
| Streams.BlocksAreDelivered | src/capture/proxy.ts:412-424 | However deltas interleave, a block's text is the concatenation of its own deltas. |
| Streams.OnlyConcatenationsMatter | src/capture/proxy.ts:384-443 | Two streams that nothing throws in, with the same concatenations per index and the same OpenAI text, give the same turn. |
| BlankLines.SqueezingIsHarmless | src/capture/proxy.ts:231-238 | Dropping empty texts before joining and trimming changes nothing if and only if no empty text stands between two that are not blank. |
| Streams.CarriedBlocks | src/capture/proxy.ts:433-436 | The joined blocks of a stream that carries a content list are that list's texts in order, an empty one present exactly when it got a delta. |
| Streams.StreamedContentAgrees | src/capture/proxy.ts:335-347 | A stream that carries a content list, its empty blocks with or without a delta, gives that list's turn if and only if no empty block that got one stands between texts that are not blank. |
| Streams.StreamedChatAgrees | src/capture/proxy.ts:314-410 | In the chat-completion vocabulary the streamed turn is the strings of the chunks put together and trimmed, as for a whole reply with that content, a string or a list of parts; block deltas count only when that is blank. |
| Streams.NullChoiceThrows | src/capture/proxy.ts:403-410 | A stream throws if and only if some chunk's first choice is null. |
| Streams.ChoicesDecide | src/capture/proxy.ts:314-324 | A whole reply with choices and no message in the first gives no turn, whatever else it holds. |
| Streams.EmptyBlockDiffers | src/capture/proxy.ts:432-439 | A reply of three blocks, the middle one empty, whose streamed turn has a blank line more. |
| Framing.ReadReply | src/capture/proxy.ts:388-398 | The loop over the lines of a reply collects the parsed payloads of its `data:` lines. |
| Framing.StreamIsRead | src/capture/proxy.ts:388-398 | However a stream is laid out, with event names, comments, carriage returns and `[DONE]`, its events are its payloads in order (event-stream framing of section 9.2 of the WHATWG HTML Standard). |
| Framing.TrimKeepsEvents | src/capture/proxy.ts:308 | Trimming the whole body first loses no payload. |
| Framing.StreamIsNoJson | src/capture/proxy.ts:301-303 | A text that starts like an event stream is never taken for JSON. |
| Framing.StreamedTextAgrees | src/capture/proxy.ts:307-348 | From text to turn, for any layout of the stream: it gives the turn of the reply's own text under exactly that condition. |
| UsageMetadata.TakePayload | src/capture/proxy.ts:556-599 | One payload, by the source's branches, moves the accumulators as specified. |
| UsageMetadata.ExtractSseUsageMetadata | src/capture/proxy.ts:529-625 | The loop gives the summary of the accumulators over the payloads in order. |
| UsageMetadata.OutputTokensRule | src/capture/proxy.ts:575-598 | The output count is the last one a `message_delta` reports and, without any, the first one a `message_start` reports; the stop reason is the last reported. |
| UsageMetadata.InputTokensRule | src/capture/proxy.ts:576-590 | Input and cache counts come from the last `message_start` with a usage object. |
| UsageMetadata.SawAnthropicRule | src/capture/proxy.ts:602-624 | Anthropic counts win whenever one of its two events appears anywhere in the stream. |
| UsageMetadata.ChatTokensRule | src/capture/proxy.ts:556-574 | In the chat-completion vocabulary all three counts come from the last chunk with a usage object, the finish reason from the last chunk that names one. |
| UsageMetadata.StreamedUsageAgrees | src/capture/proxy.ts:632-688 | A streamed reply whose events carry the figures of a whole reply is recorded with the same usage. |
| UsageMetadata.StreamedChatUsageAgrees | src/capture/proxy.ts:632-688 | The same for a chat completion, with or without a usage object. |
| UsageMetadata.ModelAndTruncation | src/capture/proxy.ts:632-688 | The model is the one the request names, and a reply counts as truncated exactly when it stopped at the length limit by its vocabulary's own name. |
| UsageMetadata.WholeStopReason | src/capture/proxy.ts:640-676 | A whole reply's stop reason, in either vocabulary. |
| UsageMetadata.UnrecognisedReply | src/capture/proxy.ts:679 | A whole reply of neither shape is not billed. |
| Gate.GateAndRecordHashAlike | src/capture/relevance-gate.ts:53-82 | The hash that is looked up for a turn is the hash that is recorded for it. |
| HashForms.SameWordsSameHash | src/capture/relevance-gate.ts:53-56 | Texts whose lower-cased forms have the same words hash alike, whatever the white space between them, and under an injective digest only those. |
| Gate.GateExactly | src/capture/relevance-gate.ts:64-82 | The gate lets through exactly the turns with text, not structural junk, within both size limits, whose hash is not in the window. |
| Gate.KeptExactly | src/capture/proxy.ts:866-874 | A turn of an exchange is kept if and only if it is such a turn and the first such one of its hash. |
| Gate.RecordCapturedTurnHash | src/capture/relevance-gate.ts:90-97 | Adding and evicting leaves the newest entries, no more than the window holds. |
| Gate.WindowIsLogSuffix | src/capture/relevance-gate.ts:90-97 | Recording new hashes keeps the window equal to the tail of the log of all recorded hashes, and equal hashes in that log more than a window apart. |
| Gate.GateTurns | src/capture/proxy.ts:866-874 | The first phase keeps exactly the surviving turns and does not touch the window. |
| Gate.SurvivorsAreNew | src/capture/proxy.ts:866-874 | Surviving turns have pairwise distinct hashes, none of them in the window. |
| Gate.SurvivorsAreTurns | src/capture/proxy.ts:866-874 | Every surviving turn is one of the exchange's turns. |
| Capture.SurvivorsAreComplete | src/capture/proxy.ts:866-880 | What survives of prompts and a reply holds no reply, or ends with it and has distinct new hashes. |
| Capture.NoOrphanPrompts | src/capture/proxy.ts:843-892 | A spooled exchange has exactly one assistant turn, in last place, and distinct hashes that are new to the window. |
| Capture.SpooledExactly | src/capture/proxy.ts:843-903 | An exchange is spooled if and only if its reply is worth keeping, new to the window and no repetition of such a prompt, and the write works; then with its surviving prompts. |
| Capture.SpooledAreWorth | src/capture/proxy.ts:866-903 | Over any session every spooled turn is worth keeping. |
| Capture.WindowRefinesLog | src/capture/proxy.ts:866-890 | Over any session the window is the last entries of the log of recorded hashes. |
| Capture.NoPoisoning | src/capture/proxy.ts:881-890 | Deleting any discarded exchanges from a session changes neither which others are spooled, nor their turns, nor the window, whichever writes throw. |
| Capture.UnspooledPoisonsExactly | src/capture/proxy.ts:881-903 | An exchange leaves the window alone if and only if it was discarded or the window holds nothing: one whose write threw does not. |
| Capture.RetryIsDiscarded | src/capture/proxy.ts:881-903 | After a write that threw, the same exchange sent again is not spooled either. |
| LostRetry.FailedWriteLosesRetry | src/capture/proxy.ts:881-903 | A session of two where nothing is spooled although the second write works. |
| Capture.OneCostPerExchange | src/capture/proxy.ts:797-843 | One cost entry per exchange with recognised usage whose entry could be written, in order, whether its transcript is kept or not. |
| Interleaving.SinksAreIndependent | src/capture/proxy.ts:776-936 | For any events at all: no sink sees another's bytes, and each completes at most once and only after both of its ends. |
| Interleaving.CapturedInOrder | src/capture/proxy.ts:927-936 | A sink holds exactly the chunks of its exchange, each direction in order of arrival, and is finished if and only if both have ended. |
| Interleaving.ChunkingIsInvisible | src/capture/proxy.ts:793-794 | Cutting a chunk anywhere into two changes nothing, whatever follows. |
| Interleaving.FinishedIsSettled | src/capture/proxy.ts:906-936 | Once both directions have ended, the bytes an exchange will complete on are fixed. |
| Interleaving.Serializable | src/capture/proxy.ts:776-937 | Under any interleaving, writes and final window are those of the exchanges in the order their callbacks fire. |
| Interleaving.InterleavingIsSerial | src/capture/proxy.ts:776-937 | The same machine fed the exchanges one after the other in that order does exactly the same. |
| ProxyTee.Sink.OnEvent | src/capture/proxy.ts:906-936 | A sink's own variables after an event, and whether its completion is to be deferred now. |
| ProxyTee.Tee.FinishCapture | src/capture/proxy.ts:786-904 | Completing an exchange writes and records exactly what the specification says, cost before transcript, with either write throwing or not. |
| ProxyTee.Tee.RecordAll | src/capture/proxy.ts:888-890 | The recording loop adds the survivors' hashes in order. |
| ProxyTee.Tee.CreateSink | src/capture/proxy.ts:779-784 | A new exchange gets a sink of its own with nothing in it. |
| ProxyTee.Tee.Deliver | src/capture/proxy.ts:906-936 | An event changes its sink only, and queues the callback exactly when both ends are in. |
| ProxyTee.Tee.OnEvent | src/capture/proxy.ts:927-936 | An event moves the whole tee one step of the state machine. |
| ProxyTee.Tee.RunImmediate | src/capture/proxy.ts:916-925 | A deferred callback moves it one step as well. |
| PcmWav.FindChunks | audio-addon/src/pcm-wav.ts:39-59 | The offset-driven loop ends and finds what the recursive walk finds. |
| PcmWav.DecodeData | audio-addon/src/pcm-wav.ts:61-80 | Frames, downmix and all error cases, zero channels included. |
| PcmWav.ReadFrame | audio-addon/src/pcm-wav.ts:68-78 | The average over the channels rounded half up; one channel is read as it is. |
| PcmWav.ReadWavPcm16 | audio-addon/src/pcm-wav.ts:33-81 | Reading any bytes at all gives the specified outcome. |
| PcmWav.MeanBetween | audio-addon/src/pcm-wav.ts:76 | A rounded average lies between its smallest and largest term, so it fits 16 bits. |
| PcmWav.WriteWavPcm16Mono | audio-addon/src/pcm-wav.ts:83-103 | The in-place writes produce a RIFF file of one format and one data chunk, or the range error of a size or rate that does not fit. |
| PcmWav.ReadIsLastFormatAndData | audio-addon/src/pcm-wav.ts:44-61 | Reading any file of even-padded chunks gives what its last format chunk says of its last data chunk; a short format chunk is read on into what follows it, and one less than sixteen bytes before the end of the file is the range error. |
| PcmWav.UnknownChunk | audio-addon/src/pcm-wav.ts:44-59 | A chunk of another name may come or go anywhere. |
| PcmWav.ChunkIndependence | audio-addon/src/pcm-wav.ts:44-61 | Two files with the same single format and data chunks read alike in any order, with any other chunks. |
| PcmWav.HeaderIsConsistent | audio-addon/src/pcm-wav.ts:83-98 | The header's redundant fields agree: outer size, block align, byte rate and data size. |
| PcmWav.ChannelsAreAveraged | audio-addon/src/pcm-wav.ts:66-79 | A file of interleaved channels is read as the mean of each whole frame, rounded to the nearest, halves upwards. |
| PcmWav.WavRoundTrip | audio-addon/src/pcm-wav.ts:33-103 | Reading what was written gives the same rate and samples for every recording the writer accepts. |
| Gain.GainCases | audio-addon/src/pcm-wav.ts:159-160 | No gain exactly from a peak of 16384 on; the capped gain exactly up to a peak of 255. |
| Gain.AmplifiedIsRounded | audio-addon/src/pcm-wav.ts:166-167 | The rational product rounded half up is one integer division. |
| Gain.AmplifiedLevel | audio-addon/src/pcm-wav.ts:164-168 | Amplified samples lie in [-16383, 16384], keep their sign, and are between one and 64 times as loud. |
| Gain.AmplifiedOrder | audio-addon/src/pcm-wav.ts:164-168 | A greater sample stays strictly greater under the same gain. |
| Gain.BoostedPeak | audio-addon/src/pcm-wav.ts:151-168 | A window's peak after boosting, including the asymmetry of negative peaks. |
| Gain.FindPeak | audio-addon/src/pcm-wav.ts:151-152 | The inner loop finds the largest magnitude of its window. |
| Gain.PeakIsMax | audio-addon/src/pcm-wav.ts:151-152 | No sample of the window is louder than its peak, and one is as loud. |
| Gain.FillWindow | audio-addon/src/pcm-wav.ts:151-168 | One window of the output array is that window boosted; the clamp never changes a value. |
| Gain.PeakNormalize | audio-addon/src/pcm-wav.ts:143-172 | The whole output is the recording boosted window by window, at the same rate. |
| Gain.NormalizedAt | audio-addon/src/pcm-wav.ts:143-172 | Each output sample depends on its input sample and the peak of its own window alone. |
| Gain.FiveSecondGain | audio-addon/src/pcm-wav.ts:143-172 | Each output sample is its input sample under the gain of the loudest sample in the same five seconds of the recording. |
| Gain.Loudness | audio-addon/src/pcm-wav.ts:143-172 | Level, sign, range and unchanged loud windows for every sample of every recording. |
| Gain.OrderKept | audio-addon/src/pcm-wav.ts:143-172 | Within a window two samples compare as before. |
| Gain.SecondPass | audio-addon/src/pcm-wav.ts:143-172 | A second pass changes nothing if and only if every window's peak was zero or at least 256. |
| Gain.ThirdPass | audio-addon/src/pcm-wav.ts:143-172 | A third pass changes nothing if and only if no window's peak was one, two or three. |
| Gain.FourthPass | audio-addon/src/pcm-wav.ts:143-172 | After three passes nothing changes, whatever the recording. |
| Reembed.Database.MaybeRecreateVecSchema | src/cli/reembed-dim.ts:56-65 | The table is dropped and created only without a checkpoint for the dimension; either step may fail or be the last. |
| Reembed.Database.ReembedMemory | src/cli/reembed-dim.ts:110-134 | One memory's three writes, each of which may fail or be the last. |
| Reembed.Database.ReembedBatch | src/cli/reembed-dim.ts:108-135 | The inner loop processes a stretch of the candidates in order. |
| Reembed.Database.RunReembedDim | src/cli/reembed-dim.ts:73-146 | A run on any database, wherever its loop ends, is the specified run. |
| Reembed.LoopEndsExactly | src/cli/reembed-dim.ts:107 | The loop ends if and only if there is nothing to do or the batch size is positive or not a number. |
| Reembed.BatchFromArg | src/cli/reembed-dim.ts:151-153 | The batch size is 20 without an argument, the argument from one on, and otherwise at least one unless it is not a number. |
| Reembed.CandidatesJoin | src/cli/reembed-dim.ts:92-98 | The candidates come in the order of the memories. |
| Reembed.RunSafe | src/cli/reembed-dim.ts:56-146 | One run, cut anywhere with any failures: the database stays sound, checkpoints only come, and after the first one nothing is dropped. |
| Reembed.AlwaysSound | src/cli/reembed-dim.ts:56-146 | Over runs for any dimensions the checkpoints of the table's own dimension are true. |
| Reembed.BackedExactly | src/cli/reembed-dim.ts:53-60 | A dimension's checkpoints are true if and only if the table has that dimension or there are none. |
| Reembed.ResumesSafely | src/cli/reembed-dim.ts:17-26 | For one dimension, from no checkpoints: at every cut, every checkpointed memory has a vector of that dimension and matching columns. |
| Reembed.NeverUndone | src/cli/reembed-dim.ts:17-26 | After the first checkpoint no run drops the table or touches a checkpointed memory. |
| Reembed.CountsAddUp | src/cli/reembed-dim.ts:92-145 | Done before, done now and failed add up to all memories if and only if the batch size is a number or nothing was left to do. |
| Reembed.CompletedCoversAll | src/cli/reembed-dim.ts:107-146 | A completed run without failures covers every memory under exactly that condition. |
| Reembed.NotANumberRun | src/cli/reembed-dim.ts:56-146 | A completed run whose batch size is no number embeds nothing, reports no failure, and leaves an empty table exactly when there was no checkpoint. |
| Reembed.VectorsLostWithoutWork | src/cli/reembed-dim.ts:152-153 | A database with a vector that loses it this way. |
| Reembed.VectorWithoutCheckpoint | src/cli/reembed-dim.ts:116-134 | A memory gets a vector but no checkpoint if and only if its upsert worked and one of the two writes after it did not. |
| Reembed.CutBeforeCheckpoint | src/cli/reembed-dim.ts:116-134 | A run cut there. |
| Reembed.BackToTheOldDimension | src/cli/reembed-dim.ts:53-60 | Going to another dimension and back completes cleanly with checkpoints that are false. |
| BootGrace.WaitForHealth | src/cli/wait-health.ts:4-20 | The deadline loop ends; it fails only past its deadline and only if no request answered. |
| BootGrace.FailedWait | src/cli/wait-health.ts:4-20 | A wait succeeds if and only if a request started in time answers, and overruns by less than one request and pause. |
| BootGrace.WaitForVersion | src/cli/wait-health.ts:44-71 | Success exactly on the expected version; `served` is the last version seen and `responded` says whether there was one. |
| BootGrace.DeadOnlyOnProof | src/cli/reinstall.ts:162-177 | The holder counts as dead exactly without a lock, with a dead pid, or with a proven drift over the tolerance. |
| BootGrace.WaitForHealthWithBootGrace | src/cli/reinstall.ts:218-286 | It is healthy if and only if a request started within its chunk's wait answered; it waits at most the fewest chunks that cover the cap, overshoots by one call at most, reports death only on proof and the cap only once used up. |
| Reinstall.TargetIsNewestOther | src/cli/reinstall.ts:843-845 | The rollback target is the newest release that is not current, and is missing only when there is no other. |
| Reinstall.RollbackTwice | src/cli/reinstall.ts:843-875 | Rolling back from the newest release twice returns to it. |
| Reinstall.Machine.RestoreOnce | src/cli/reinstall.ts:490-497 | The prior pointer is written back only if there was one, and never again once that is done. |
| Reinstall.Machine.Finish | src/cli/reinstall.ts:687-709 | The exit code is an error exactly when some step failed that is not soft. |
| Reinstall.Machine.RunInstaller | src/cli/reinstall.ts:508-551 | Every way the installer can end, before or after the pointer is written. |
| Reinstall.Machine.Verify | src/cli/reinstall.ts:567-644 | Health, then version; anything else restores, and a failed prune does not fail the run. |
| Reinstall.Machine.ReinstallPlain | src/cli/reinstall.ts:396-682 | The final pointer, that it exits 0 only if the release was proven and no restore was tried, and which failures restore. |
| Reinstall.Machine.RepointStopStartVerify | src/cli/reinstall.ts:731-832 | The same for the path that rollback and dev share. |
| Reinstall.Machine.ReinstallRollback | src/cli/reinstall.ts:856-916 | Rollback moves the pointer to the selected release or leaves it. |
| Reinstall.Machine.ReinstallDev | src/cli/reinstall.ts:932-970 | Dev moves it to the checkout's build, marked as such, or leaves it. |
| Reinstall.Machine.ReinstallCommand | src/cli/reinstall.ts:396-412 | Every command line does to the pointer and the exit code what the model of a run says, both flags at once being refused. |
| Reinstall.SuccessMovesPointer | src/cli/reinstall.ts:396-970 | A command that exits zero leaves the pointer on the build it asked for, and that build has passed verify-version. |
| Reinstall.PlainEndsExactly | src/cli/reinstall.ts:396-682 | How a plain run ends, field by field: exit code and pointer for every combination of failures. |
| Reinstall.RepointEndsExactly | src/cli/reinstall.ts:731-832 | A rollback or dev run that repoints ends on its target if and only if it succeeds or the old pointer cannot be written back, and on the file it found otherwise. |
| Reinstall.RollbackAndBack | src/cli/reinstall.ts:843-916 | Two rollbacks that succeed, from the newest of at least two releases, end on the newest again. |
| Reinstall.PointerSafety | src/cli/reinstall.ts:288-319 | Over any runs in which the old pointer can be read and written back, whatever else fails, the pointer ends on the starting build or on one that passed verify-version. |
| Reinstall.PlainSafeExactly | src/cli/reinstall.ts:479-497 | One run is unsafe exactly when a different pointer was written, did not pass, and the old one was unreadable or could not be written back. |
| Reinstall.FirstInstallStaysUnproven | src/cli/reinstall.ts:310-312 | On a first install an unhealthy build stays named. |
| Reinstall.TimerDecidesExit | src/cli/reinstall.ts:520-530 | A proven release stays in place whatever the backup timer does, and the exit code is zero exactly when the timer was not wanted or works. |
| Reinstall.TimerFailsProvenRun | src/cli/reinstall.ts:520-530 | A run in which only the timer fails. |
| Restore.GateByRisk | src/cli/restore.ts:150-153 | The gate opens without a flag only after a clean stop, with `--force` only for an undetermined identity, and for everything else only with both flags. |
| Restore.SnapshotAmongFlags | src/cli/restore.ts:105-114 | The snapshot is the first argument that does not start with a dash, wherever the flags stand. |
| Restore.DataDir.SetLiveAside | src/cli/restore.ts:179-187 | The statements between copy and swap, each of which may fail or be the last. |
| Restore.DataDir.SwapIn | src/cli/restore.ts:177-195 | One attempt and its cleanup. |
| Restore.DataDir.RestoreCommand | src/cli/restore.ts:104-207 | Nothing changes unless the snapshot verified and the gate let it pass; then exactly one attempt is made. |
| Restore.OneAttemptKeeps | src/cli/restore.ts:177-195 | One attempt keeps the database whole at the live or the aside path. |
| Restore.AttemptsKeep | src/cli/restore.ts:177-195 | So do any number of attempts that stop before their final rename; the live path never holds anything partial. |
| Restore.LastAttempt | src/cli/restore.ts:177-195 | The attempt that gets through leaves the whole snapshot live and the original aside. |
| Restore.LogsBesideSnapshot | src/cli/restore.ts:179-188 | The snapshot goes live beside an old log if and only if the attempt found nothing live and that log still there. |
| Restore.LogStranded | src/cli/restore.ts:179-188 | An unfinished history leaves the write-ahead log, or the shared-memory file, beside an absent database if and only if it was there and the attempt that set the database aside stopped before removing it. |
| Restore.SnapshotBesideOldLog | src/cli/restore.ts:179-188 | Two attempts that end this way. |
| Restore.AsideSurvives | src/cli/restore.ts:178-181 | An attempt leaves the database set aside in place if and only if it does not get past clearing the aside path. |
| Restore.OneAttemptLoses | src/cli/restore.ts:177-195 | For any snapshot: a database still there is lost if and only if something else is live, the attempt clears the aside path and does not complete with it as the snapshot; a lost one is there again only by such a completion. |
| Restore.OriginalSurvives | src/cli/restore.ts:178-181 | Over any attempts with any snapshots the original is gone at the end if and only if one of them loses it and no later one brings it back. |
| Restore.DeletedExactly | src/cli/restore.ts:13-14 | Up to the first completed restore the original is never lost; after it, exactly as above; and while it is not itself restored, exactly when a later attempt clears the aside path. |
| Restore.LostByUnfinishedAttempt | src/cli/restore.ts:13-14 | A completed restore and an attempt that stops after the clearing, with any snapshot, after which the original is gone. |
| Restore.RestoringTheOriginal | src/cli/restore.ts:177-195 | Restoring what is set aside puts it live, or loses it when the attempt stops after the clearing. |
| Restore.SecondSwapDropsOriginal | src/cli/restore.ts:180-181 | After two completed restores the aside path holds the first snapshot. |
| PersistEnvs.BuildExportBlock | src/config/persist-envs.ts:94-107 | The loop builds the marked block of export lines. |
| PersistEnvs.MatchIsLeftmostShortest | src/config/persist-envs.ts:117 | The block found is the leftmost match of the pattern and the shortest of those. |
| PersistEnvs.SpecialExactly | src/config/persist-envs.ts:102-119 | A block has such a pair if and only if some value, followed by its closing quote, has one. |
| PersistEnvs.RcFile.PersistUnix | src/config/persist-envs.ts:109-137 | The file's new text, or the old one when the write fails. |
| PersistEnvs.OutsideKept | src/config/persist-envs.ts:116-120 | Whatever the values, text outside the block is kept, in place; an appended block is literal, and a replacing one is when it holds no special dollar pair. |
| PersistTwice.TwiceIsOnce | src/config/persist-envs.ts:13-14 | For one file without an unclosed begin marker and any values: running it twice is running it once if and only if the block as written has its own end marker first and, if appended, no special pair; never with the end marker in a value. |
| Replacement.FixedExactly | src/config/persist-envs.ts:119 | Between whole lines, a replacement text is left as it is if and only if it holds no special pair. |
| PersistTwice.TwiceIsOnceExactly | src/config/persist-envs.ts:13-14 | For every file without an unclosed begin marker it is so if and only if no value holds the end marker or, with its closing quote, a special pair. |
| ShellReading.LiteralExactly | src/config/persist-envs.ts:101-119 | Values are written literally into every file with an old block, and read back by a shell from every file, if and only if none of them, with its closing quote, holds a special pair. |
| ShellReading.TwoDollarsReadAsOne | src/config/persist-envs.ts:119 | A file with a block, rewritten with two dollars as the value, from which a shell reads one. |
| ShellReading.QuotedReadsBack | src/config/persist-envs.ts:101-102 | A shell reads every quoted value back exactly, whatever it holds. |
| ShellReading.BlockReadsBack | src/config/persist-envs.ts:94-107 | A shell that sources the block sets every variable to exactly its value. |

## Left out

- Text is a sequence of Unicode scalar values: UTF-16 code units, lone surrogates and how Node decodes broken UTF-8 are not modelled.
- Numbers are exact decimals, rationals or integers: no rounding to doubles, no negative zero, no infinity from an oversized JSON number.
- `__proto__` as a config or JSON key is an ordinary key here.
- `configToYaml` is modelled by its line forms and nesting, not by its fixed list of fields; `findMissingConfigKeys`, `writeConfig`, the read retry of `loadConfigFromDisk` and the governance checks are not part of this model.
- Object key order, which no property here depends on.
- Decompression, UTF-8 decoding, SHA-256, Unicode lower-casing, byte length and the gate's three regular expressions are arbitrary functions.
- Framing.StreamIsRead: a payload is one `data:` line, as the code has it; the Standard's joining of several is not modelled.
- Envelopes, idempotency keys, redaction, and a spool or cost write that fails half-way.
- Errors of file reading and memory limits in the audio code; window sizes for rates that are not whole numbers.
- The vector of a memory stands for its length, data and provider; distances and search are not modelled, and memories are never deleted.
- Reembed.Database.RunReembedDim: batch sizes of zero and less with something to do are excluded, because the loop then never ends (`Reembed.LoopEndsExactly`); minus infinity as a batch size is not modelled.
- BootGrace.WaitForHealth: pauses have some positive lower bound, because without one the loop need not end.
- BootGrace.WaitForVersion: the same lower bound on pauses.
- Reinstall.PointerSafety: a process killed in the middle of a run is not covered, because nothing then restores the pointer; failing steps are.
- The pointer's node path, port and log directory; how releases are materialized, listed and pruned; how the daemon is stopped.
- Restore.AttemptsKeep: nothing else writes the data directory between attempts, which a daemon that restarts by itself would.
- Migrations after the swap and the restart of the service are one outcome each.
- A write of the rc file that fails half-way; fish and PowerShell quoting; the choice of rc file.
- PersistTwice.TwiceIsOnce: a file with an unclosed begin marker and values with a special pair gets one direction only; there the second text may expand to the first by coincidence.
- PersistTwice.TwiceIsOnceExactly: keys are names a shell accepts, as are those in ShellReading.LiteralExactly; the code writes any key as it is.
- A snapshot stands for its contents; where its file lies matters only as `Restore.RestoringTheOriginal` says.
